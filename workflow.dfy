/**
 * What the three POST handlers of the views compute, as functions of the
 * submitted rows, the course catalogue and the stored links, with the
 * properties of those functions.  The handlers themselves (module Views)
 * are proved to produce exactly these results.
 *
 * The course catalogue maps a course id to the username of its instructor.
 */
module Workflow {

  import opened Wrappers
  import opened Terms
  import opened Naming
  import opened Mail
  import opened Batching
  import opened Links

  type Catalogue = map<string, string>

  /** The meta-course form: the base name and the sections text. */
  datatype MetaForm = MetaForm(name: string, sections: string)

  /** One form of the foreign-courses formset: whether it was filled in, and the course id. */
  datatype ForeignRow = ForeignRow(changed: bool, childCourse: string)

  /** One form of the approval formset: the link it edits and the submitted
      `row_status` (a blank choice is any value other than 0, 1 and 2). */
  datatype DecisionRow = DecisionRow(link: nat, rowStatus: int)

  /** One form of the removal formset: the link it shows and its `to_remove` box. */
  datatype RemoveRow = RemoveRow(link: nat, toRemove: bool)

  /** One form of the add-link formset: the chosen meta course and the course id. */
  datatype AddRow = AddRow(metaPk: nat, childCourse: string)

  /** One outgoing request awaiting approval, as listed under its meta-course name. */
  datatype PendingRequest = PendingRequest(childCourse: string, owner: string)

  // ---------------------------------------------------------------------
  // Creating a meta course.

  /** The links saved from the user's own courses: one per id the catalogue
      knows, in form order, all enabled and owned by the user. */
  function SelfLinks(pk: nat, username: string, rows: seq<string>, catalogue: Catalogue): seq<CourseLink>
    decreases |rows|
  {
    if rows == [] then []
    else
      var links := SelfLinks(pk, username, rows[..|rows| - 1], catalogue);
      var child := rows[|rows| - 1];
      if child in catalogue then links + [CourseLink(pk, child, username, username, Enabled)] else links
  }

  /** The links saved from the foreign-courses formset: one per filled-in
      form whose id the catalogue knows, owned by the catalogue's instructor
      and pending, even when that instructor is the user. */
  function ForeignLinks(pk: nat, username: string, rows: seq<ForeignRow>, catalogue: Catalogue): seq<CourseLink>
    decreases |rows|
  {
    if rows == [] then []
    else
      var links := ForeignLinks(pk, username, rows[..|rows| - 1], catalogue);
      var row := rows[|rows| - 1];
      if row.changed && row.childCourse in catalogue
      then links + [CourseLink(pk, row.childCourse, username, catalogue[row.childCourse], Pending)]
      else links
  }

  /** Every link saved from the user's own courses is enabled, asked for
      by the user and owned by the user, for a course of the form that the
      catalogue knows. */
  lemma {:induction false} SelfLinksShape(pk: nat, username: string, rows: seq<string>, catalogue: Catalogue)
    ensures forall l :: l in SelfLinks(pk, username, rows, catalogue) ==>
              && l.metaPk == pk && l.requestor == username && l.owner == username
              && l.status == Enabled && l.childCourse in rows && l.childCourse in catalogue
    decreases |rows|
  {
    if rows != [] {
      var init := rows[..|rows| - 1];
      SelfLinksShape(pk, username, init, catalogue);
      assert forall c :: c in init ==> c in rows;
    }
  }

  /** Every link saved from the foreign courses is pending, asked for by the
      user and owned by the catalogue's instructor of its course. */
  lemma {:induction false} ForeignLinksShape(pk: nat, username: string, rows: seq<ForeignRow>, catalogue: Catalogue)
    ensures forall l :: l in ForeignLinks(pk, username, rows, catalogue) ==>
              && l.metaPk == pk && l.requestor == username && l.status == Pending
              && l.childCourse in catalogue && l.owner == catalogue[l.childCourse]
    decreases |rows|
  {
    if rows != [] {
      ForeignLinksShape(pk, username, rows[..|rows| - 1], catalogue);
    }
  }

  function ChildCourses(links: seq<CourseLink>): (cs: seq<string>)
    ensures |cs| == |links|
    decreases |links|
  {
    if links == [] then [] else ChildCourses(links[..|links| - 1]) + [links[|links| - 1].childCourse]
  }

  function Owners(links: seq<CourseLink>): (os: seq<string>)
    ensures |os| == |links|
    decreases |links|
  {
    if links == [] then [] else Owners(links[..|links| - 1]) + [links[|links| - 1].owner]
  }

  /** The owners of the pending links, in link order. */
  function PendingOwners(links: seq<CourseLink>): seq<string>
    decreases |links|
  {
    if links == [] then []
    else
      var owners := PendingOwners(links[..|links| - 1]);
      if links[|links| - 1].status == Pending then owners + [links[|links| - 1].owner] else owners
  }

  function TermsOf(links: seq<CourseLink>): (ts: seq<string>)
    ensures |ts| == |links|
    ensures forall i :: 0 <= i < |links| ==> ts[i] == TermOf(links[i].childCourse)
    decreases |links|
  {
    if links == [] then [] else TermsOf(links[..|links| - 1]) + [TermOf(links[|links| - 1].childCourse)]
  }

  /** Every link has a season letter to read. */
  predicate LongIds(links: seq<CourseLink>)
  {
    forall l :: l in links ==> |l.childCourse| >= 3
  }

  /** The term label the meta course is named after: the fold of the
      links' terms, in link order, starting from "00ZZ". */
  function ResolvedTerm(links: seq<CourseLink>): (t: string)
    requires LongIds(links)
    ensures |t| >= 3
  {
    assert Readable(Sentinel, TermsOf(links)) by {
      forall i | 0 <= i < |links| ensures |TermsOf(links)[i]| >= 3 {
        assert links[i] in links;
      }
    }
    Fold(Sentinel, TermsOf(links))
  }

  lemma LinkListsSnoc(links: seq<CourseLink>, l: CourseLink)
    ensures ChildCourses(links + [l]) == ChildCourses(links) + [l.childCourse]
    ensures Owners(links + [l]) == Owners(links) + [l.owner]
    ensures PendingOwners(links + [l]) == PendingOwners(links) + (if l.status == Pending then [l.owner] else [])
    ensures TermsOf(links + [l]) == TermsOf(links) + [TermOf(l.childCourse)]
  {
    assert (links + [l])[..|links|] == links;
  }

  lemma OwnersSnoc(links: seq<CourseLink>, l: CourseLink)
    ensures Owners(links + [l]) == Owners(links) + [l.owner]
  {
    assert (links + [l])[..|links|] == links;
  }

  lemma PendingOwnersSnoc(links: seq<CourseLink>, l: CourseLink)
    ensures PendingOwners(links + [l]) == PendingOwners(links) + (if l.status == Pending then [l.owner] else [])
  {
    assert (links + [l])[..|links|] == links;
  }

  lemma ResolvedTermSnoc(links: seq<CourseLink>, l: CourseLink)
    requires LongIds(links) && |l.childCourse| >= 3
    ensures LongIds(links + [l])
    ensures ResolvedTerm(links + [l]) == Step(ResolvedTerm(links), TermOf(l.childCourse))
  {
    LinkListsSnoc(links, l);
    var ts := TermsOf(links);
    assert (ts + [TermOf(l.childCourse)])[..|ts|] == ts;
  }

  /** A user's own course gets a link exactly when the catalogue knows its id. */
  lemma {:induction false} SelfLinksCoverKnownIds(pk: nat, username: string, rows: seq<string>, catalogue: Catalogue)
    ensures forall c :: c in ChildCourses(SelfLinks(pk, username, rows, catalogue)) <==> c in rows && c in catalogue
    decreases |rows|
  {
    if rows != [] {
      var init := rows[..|rows| - 1];
      var child := rows[|rows| - 1];
      assert rows == init + [child];
      SelfLinksCoverKnownIds(pk, username, init, catalogue);
      var links := SelfLinks(pk, username, init, catalogue);
      if child in catalogue {
        LinkListsSnoc(links, CourseLink(pk, child, username, username, Enabled));
      }
    }
  }

  /** The foreign-courses form asks for course `c`: it was filled in and the catalogue knows `c`. */
  predicate Requested(rows: seq<ForeignRow>, catalogue: Catalogue, c: string)
  {
    exists i :: 0 <= i < |rows| && rows[i].changed && rows[i].childCourse == c && c in catalogue
  }

  /** Some filled-in foreign form names a course that `o` teaches. */
  predicate Teaches(rows: seq<ForeignRow>, catalogue: Catalogue, o: string)
  {
    exists i :: 0 <= i < |rows| && rows[i].changed && rows[i].childCourse in catalogue
                && catalogue[rows[i].childCourse] == o
  }

  lemma RequestedSnoc(rows: seq<ForeignRow>, catalogue: Catalogue)
    requires rows != []
    ensures var n := |rows| - 1;
      && (forall c :: Requested(rows, catalogue, c) <==>
            Requested(rows[..n], catalogue, c) || (rows[n].changed && rows[n].childCourse == c && c in catalogue))
      && (forall o :: Teaches(rows, catalogue, o) <==>
            Teaches(rows[..n], catalogue, o)
            || (rows[n].changed && rows[n].childCourse in catalogue && catalogue[rows[n].childCourse] == o))
  {
    var n := |rows| - 1;
    assert forall i :: 0 <= i < n ==> rows[..n][i] == rows[i];
  }

  /** A foreign course gets a link exactly when its form was filled in and
      the catalogue knows its id. */
  lemma {:induction false} ForeignLinksCoverKnownIds(pk: nat, username: string, rows: seq<ForeignRow>, catalogue: Catalogue)
    ensures forall c :: c in ChildCourses(ForeignLinks(pk, username, rows, catalogue)) <==> Requested(rows, catalogue, c)
    decreases |rows|
  {
    if rows != [] {
      var n := |rows| - 1;
      ForeignLinksCoverKnownIds(pk, username, rows[..n], catalogue);
      RequestedSnoc(rows, catalogue);
      var row := rows[n];
      if row.changed && row.childCourse in catalogue {
        LinkListsSnoc(ForeignLinks(pk, username, rows[..n], catalogue),
                      CourseLink(pk, row.childCourse, username, catalogue[row.childCourse], Pending));
      }
    }
  }

  /** The instructors asked for approval are exactly the instructors of the
      filled-in, known foreign courses (the user included, when one of those
      courses is the user's own). */
  lemma {:induction false} ForeignOwnersAreTeachers(pk: nat, username: string, rows: seq<ForeignRow>, catalogue: Catalogue)
    ensures forall o :: o in Owners(ForeignLinks(pk, username, rows, catalogue)) <==> Teaches(rows, catalogue, o)
    decreases |rows|
  {
    if rows != [] {
      var n := |rows| - 1;
      ForeignOwnersAreTeachers(pk, username, rows[..n], catalogue);
      RequestedSnoc(rows, catalogue);
      var row := rows[n];
      if row.changed && row.childCourse in catalogue {
        LinkListsSnoc(ForeignLinks(pk, username, rows[..n], catalogue),
                      CourseLink(pk, row.childCourse, username, catalogue[row.childCourse], Pending));
      }
    }
  }

  /** One approval request per distinct recipient: no two messages share an
      address, and an instructor gets one exactly when it is among `owners`. */
  lemma OneRequestPerInstructor(owners: seq<string>)
    ensures var ms := RequestMessages(Distinct(owners));
      && (forall i, j :: 0 <= i < j < |ms| ==> ms[i].recipients != ms[j].recipients)
      && (forall o :: o in owners <==> exists i :: 0 <= i < |ms| && ms[i].recipients == [Address(o)])
  {
    var d := Distinct(owners);
    var ms := RequestMessages(d);
    DistinctElements(owners);
    forall i, j | 0 <= i < j < |ms| ensures ms[i].recipients != ms[j].recipients {
      assert IdentityOf(ms[i].recipients[0]) == Some(d[i]) && IdentityOf(ms[j].recipients[0]) == Some(d[j]);
    }
    forall o ensures o in owners <==> exists i :: 0 <= i < |ms| && ms[i].recipients == [Address(o)] {
      if o in owners {
        assert o in d;
        var i :| 0 <= i < |d| && d[i] == o;
        assert ms[i].recipients == [Address(o)];
      }
      if exists i :: 0 <= i < |ms| && ms[i].recipients == [Address(o)] {
        var i :| 0 <= i < |ms| && ms[i].recipients == [Address(o)];
        assert [Address(d[i])][0] == [Address(o)][0];
        AddressInjective(d[i], o);
        assert d[i] in d;
      }
    }
  }

  // ---------------------------------------------------------------------
  // Approving and denying requests.

  /** The links after the approval formset is saved row by row. Only statuses change. */
  function Decided(links: seq<CourseLink>, rows: seq<DecisionRow>): (r: seq<CourseLink>)
    requires forall j :: 0 <= j < |rows| ==> rows[j].link < |links|
    ensures |r| == |links|
    ensures forall i :: 0 <= i < |links| ==> r[i] == links[i].(status := r[i].status)
    decreases |rows|
  {
    if rows == [] then links
    else
      var prev := Decided(links, rows[..|rows| - 1]);
      var row := rows[|rows| - 1];
      prev[row.link := prev[row.link].(status := DecidedStatus(row.rowStatus))]
  }

  /** The last row of the formset that edits link `i`, if any. */
  function LastRowFor(rows: seq<DecisionRow>, i: nat): (r: Option<nat>)
    ensures r.Some? ==> r.value < |rows| && rows[r.value].link == i
    decreases |rows|
  {
    if rows == [] then None
    else if rows[|rows| - 1].link == i then Some(|rows| - 1)
    else LastRowFor(rows[..|rows| - 1], i)
  }

  /** Last write wins: a link no row edits keeps its status, and an edited
      link ends with the status decided by the last row that edits it. */
  lemma {:induction false} DecidedByLastRow(links: seq<CourseLink>, rows: seq<DecisionRow>)
    requires forall j :: 0 <= j < |rows| ==> rows[j].link < |links|
    ensures forall i :: 0 <= i < |links| ==>
              Decided(links, rows)[i].status ==
                match LastRowFor(rows, i)
                case None => links[i].status
                case Some(j) => DecidedStatus(rows[j].rowStatus)
    decreases |rows|
  {
    if rows != [] {
      var n := |rows| - 1;
      DecidedByLastRow(links, rows[..n]);
      forall i | 0 <= i < |links| && rows[n].link != i
        ensures LastRowFor(rows, i) == LastRowFor(rows[..n], i)
      {
      }
      forall i | 0 <= i < |links| && LastRowFor(rows[..n], i).Some?
        ensures rows[..n][LastRowFor(rows[..n], i).value] == rows[LastRowFor(rows[..n], i).value]
      {
      }
    }
  }

  /** The row found is the last one that edits link `i`, and none is found
      exactly when no row edits it. */
  lemma {:induction false} LastRowForIsLast(rows: seq<DecisionRow>, i: nat)
    ensures LastRowFor(rows, i).None? <==> forall j :: 0 <= j < |rows| ==> rows[j].link != i
    ensures LastRowFor(rows, i).Some? ==> forall j :: LastRowFor(rows, i).value < j < |rows| ==> rows[j].link != i
    decreases |rows|
  {
    if rows != [] {
      var n := |rows| - 1;
      LastRowForIsLast(rows[..n], i);
      assert forall j :: 0 <= j < n ==> rows[..n][j] == rows[j];
    }
  }

  /** `m` is the message a row sends: the row approves or denies, and `m`
      tells the link's requestor that verdict about the link's child course. */
  predicate AboutRow(links: seq<CourseLink>, row: DecisionRow, m: Message)
  {
    && row.link < |links|
    && VerdictOf(row.rowStatus).Some?
    && m == DecisionMessage(VerdictOf(row.rowStatus).value, links[row.link].childCourse, links[row.link].requestor)
  }

  /** An entry of the decision dict: the row's requestor with the row's message. */
  predicate IsDecisionEntry(links: seq<CourseLink>, row: DecisionRow, e: (string, Message))
  {
    row.link < |links| && e.0 == links[row.link].requestor && AboutRow(links, row, e.1)
  }

  /** Some row of the formset sends `m`. */
  ghost predicate SomeRowSends(links: seq<CourseLink>, rows: seq<DecisionRow>, m: Message)
  {
    exists j :: 0 <= j < |rows| && AboutRow(links, rows[j], m)
  }

  /** The number of rows that approve or deny. */
  function DecisionCount(rows: seq<DecisionRow>): nat
    decreases |rows|
  {
    if rows == [] then 0
    else DecisionCount(rows[..|rows| - 1]) + (if rows[|rows| - 1].rowStatus == 0 || rows[|rows| - 1].rowStatus == 2 then 1 else 0)
  }

  /** The entry one row adds to the decision dict, if it approves or denies. */
  function RowEntry(links: seq<CourseLink>, row: DecisionRow): (e: Option<(string, Message)>)
    requires row.link < |links|
    ensures e.Some? <==> row.rowStatus == 0 || row.rowStatus == 2
    ensures e.Some? ==> IsDecisionEntry(links, row, e.value)
  {
    match VerdictOf(row.rowStatus)
    case None => None
    case Some(v) => Some((links[row.link].requestor, DecisionMessage(v, links[row.link].childCourse, links[row.link].requestor)))
  }

  /** The (requestor, message) pairs the approval formset adds to its dict, in row order. */
  function DecisionEntries(links: seq<CourseLink>, rows: seq<DecisionRow>): (es: seq<(string, Message)>)
    requires forall j :: 0 <= j < |rows| ==> rows[j].link < |links|
    ensures |es| == DecisionCount(rows)
    decreases |rows|
  {
    if rows == [] then []
    else
      var n := |rows| - 1;
      DecisionEntries(links, rows[..n]) + (match RowEntry(links, rows[n]) case None => [] case Some(e) => [e])
  }

  /** Every entry comes from a row that approves or denies. */
  lemma {:induction false} DecisionEntryOrigin(links: seq<CourseLink>, rows: seq<DecisionRow>, k: nat) returns (j: nat)
    requires forall j :: 0 <= j < |rows| ==> rows[j].link < |links|
    requires k < |DecisionEntries(links, rows)|
    ensures j < |rows| && IsDecisionEntry(links, rows[j], DecisionEntries(links, rows)[k])
    decreases |rows|
  {
    var n := |rows| - 1;
    var es := DecisionEntries(links, rows[..n]);
    if k < |es| {
      j := DecisionEntryOrigin(links, rows[..n], k);
      assert rows[..n][j] == rows[j];
    } else {
      j := n;
    }
  }

  /** Every row that approves or denies has its entry. */
  lemma {:induction false} DecisionEntriesComplete(links: seq<CourseLink>, rows: seq<DecisionRow>, j: nat) returns (k: nat)
    requires forall j :: 0 <= j < |rows| ==> rows[j].link < |links|
    requires j < |rows| && VerdictOf(rows[j].rowStatus).Some?
    ensures k < |DecisionEntries(links, rows)| && IsDecisionEntry(links, rows[j], DecisionEntries(links, rows)[k])
    decreases |rows|
  {
    var n := |rows| - 1;
    var es := DecisionEntries(links, rows[..n]);
    if j < n {
      k := DecisionEntriesComplete(links, rows[..n], j);
      assert rows[..n][j] == rows[j];
    } else {
      k := |es|;
    }
  }

  /** The decision batch loses nothing and invents nothing: it holds one
      message per approving or denying row, every such row's message is in
      it, and every message in it is some row's message. */
  lemma DecisionMessagesComplete(links: seq<CourseLink>, rows: seq<DecisionRow>)
    requires forall j :: 0 <= j < |rows| ==> rows[j].link < |links|
    ensures |Grouped(DecisionEntries(links, rows))| == DecisionCount(rows)
    ensures forall j, m :: 0 <= j < |rows| && AboutRow(links, rows[j], m) ==> m in Grouped(DecisionEntries(links, rows))
    ensures forall m :: m in Grouped(DecisionEntries(links, rows)) ==> SomeRowSends(links, rows, m)
  {
    var es := DecisionEntries(links, rows);
    GroupedKeepsEverything(es);
    forall j, m | 0 <= j < |rows| && AboutRow(links, rows[j], m)
      ensures m in Grouped(es)
    {
      var k := DecisionEntriesComplete(links, rows, j);
      ValueAt(es, k);
      assert m in multiset(Values(es));
    }
    forall m | m in Grouped(es)
      ensures SomeRowSends(links, rows, m)
    {
      assert m in multiset(Values(es));
      var k := ValueIndex(es, m);
      var j := DecisionEntryOrigin(links, rows, k);
    }
  }

  lemma {:induction false} ValueAt<V>(entries: seq<(string, V)>, k: nat)
    requires k < |entries|
    ensures entries[k].1 in Values(entries)
    decreases |entries|
  {
    var n := |entries| - 1;
    assert Values(entries) == Values(entries[..n]) + [entries[n].1];
    if k < n {
      ValueAt(entries[..n], k);
    }
  }

  /** Where a value sits among the entries. */
  lemma {:induction false} ValueIndex<V>(entries: seq<(string, V)>, v: V) returns (k: nat)
    requires v in Values(entries)
    ensures k < |entries| && entries[k].1 == v
    decreases |entries|
  {
    var n := |entries| - 1;
    if entries[n].1 == v {
      k := n;
    } else {
      assert Values(entries) == Values(entries[..n]) + [entries[n].1];
      k := ValueIndex(entries[..n], v);
    }
  }

  // ---------------------------------------------------------------------
  // Retiring and adding links.

  /** The links after the removal formset is saved: checked rows are disabled. */
  function Retired(links: seq<CourseLink>, rows: seq<RemoveRow>): (r: seq<CourseLink>)
    requires forall j :: 0 <= j < |rows| ==> rows[j].link < |links|
    ensures |r| == |links|
    ensures forall i :: 0 <= i < |links| ==> r[i] == links[i].(status := r[i].status)
    decreases |rows|
  {
    if rows == [] then links
    else
      var prev := Retired(links, rows[..|rows| - 1]);
      var row := rows[|rows| - 1];
      if row.toRemove then prev[row.link := prev[row.link].(status := Disabled)] else prev
  }

  /** Some checked row of the removal formset shows link `i`. */
  ghost predicate Checked(rows: seq<RemoveRow>, i: nat)
  {
    exists j :: 0 <= j < |rows| && rows[j].link == i && rows[j].toRemove
  }

  /** A link is disabled by the removal formset exactly when some checked row
      shows it; every other link keeps its status. */
  lemma {:induction false} RetiredExactlyChecked(links: seq<CourseLink>, rows: seq<RemoveRow>)
    requires forall j :: 0 <= j < |rows| ==> rows[j].link < |links|
    ensures forall i :: 0 <= i < |links| ==>
              Retired(links, rows)[i].status == if Checked(rows, i) then Disabled else links[i].status
    decreases |rows|
  {
    if rows != [] {
      var n := |rows| - 1;
      RetiredExactlyChecked(links, rows[..n]);
      forall i: nat | i < |links|
        ensures Checked(rows, i) <==> Checked(rows[..n], i) || (rows[n].link == i && rows[n].toRemove)
      {
        if Checked(rows, i) {
          var j :| 0 <= j < |rows| && rows[j].link == i && rows[j].toRemove;
          if j < n {
            assert rows[..n][j] == rows[j];
          }
        }
        if Checked(rows[..n], i) {
          var j :| 0 <= j < n && rows[..n][j].link == i && rows[..n][j].toRemove;
          assert rows[..n][j] == rows[j];
        }
      }
    }
  }

  /** The links saved from the add-link formset: one per form whose id the
      catalogue knows, enabled exactly when the user teaches the course and
      pending otherwise. */
  function AddedLinks(username: string, rows: seq<AddRow>, catalogue: Catalogue): seq<CourseLink>
    decreases |rows|
  {
    if rows == [] then []
    else
      var links := AddedLinks(username, rows[..|rows| - 1], catalogue);
      var row := rows[|rows| - 1];
      if row.childCourse in catalogue then
        var owner := catalogue[row.childCourse];
        links + [CourseLink(row.metaPk, row.childCourse, username, owner, if owner == username then Enabled else Pending)]
      else links
  }

  /** Every added link is asked for by the user and owned by the catalogue's
      instructor of its course; it is enabled exactly when that instructor
      is the user, and pending otherwise. */
  lemma {:induction false} AddedLinksShape(username: string, rows: seq<AddRow>, catalogue: Catalogue)
    ensures forall l :: l in AddedLinks(username, rows, catalogue) ==>
              && l.requestor == username && l.childCourse in catalogue && l.owner == catalogue[l.childCourse]
              && (l.status == Enabled <==> l.owner == username)
              && (l.status == Pending <==> l.owner != username)
    decreases |rows|
  {
    if rows != [] {
      AddedLinksShape(username, rows[..|rows| - 1], catalogue);
    }
  }

  /** Only links to other instructors' courses ask for approval: the user
      never receives a request, and every other instructor of a known
      added course does. */
  lemma {:induction false} AddedRequestsGoToOthers(username: string, rows: seq<AddRow>, catalogue: Catalogue)
    ensures forall o :: o in PendingOwners(AddedLinks(username, rows, catalogue)) <==>
              && o != username
              && exists j :: 0 <= j < |rows| && rows[j].childCourse in catalogue && catalogue[rows[j].childCourse] == o
    decreases |rows|
  {
    if rows != [] {
      var n := |rows| - 1;
      var init := rows[..n];
      AddedRequestsGoToOthers(username, init, catalogue);
      var links := AddedLinks(username, init, catalogue);
      var row := rows[n];
      if row.childCourse in catalogue {
        var owner := catalogue[row.childCourse];
        LinkListsSnoc(links, CourseLink(row.metaPk, row.childCourse, username, owner, if owner == username then Enabled else Pending));
      }
      assert forall j :: 0 <= j < n ==> rows[j] == init[j];
    }
  }

  /** A course is linked by the added rows exactly when some row names it and
      the catalogue knows it. */
  lemma {:induction false} AddedLinksCoverKnownIds(username: string, rows: seq<AddRow>, catalogue: Catalogue)
    ensures forall c :: c in ChildCourses(AddedLinks(username, rows, catalogue)) <==>
              c in catalogue && exists j :: 0 <= j < |rows| && rows[j].childCourse == c
    decreases |rows|
  {
    if rows != [] {
      var n := |rows| - 1;
      var init := rows[..n];
      AddedLinksCoverKnownIds(username, init, catalogue);
      var links := AddedLinks(username, init, catalogue);
      var row := rows[n];
      if row.childCourse in catalogue {
        var owner := catalogue[row.childCourse];
        LinkListsSnoc(links, CourseLink(row.metaPk, row.childCourse, username, owner, if owner == username then Enabled else Pending));
      }
      assert forall j :: 0 <= j < n ==> rows[j] == init[j];
    }
  }

  // ---------------------------------------------------------------------
  // The user's outgoing requests, grouped by meta-course name.

  /** The entry a link contributes to the listing: the link is the user's
      own pending request, paired with its meta course's name. */
  predicate IsPendingEntry(link: CourseLink, metas: seq<MetaCourse>, username: string, e: (string, PendingRequest))
  {
    && 1 <= link.metaPk <= |metas|
    && link.requestor == username && link.status == Pending
    && e == (metas[link.metaPk - 1].name, PendingRequest(link.childCourse, link.owner))
  }

  /** (meta-course name, request) for every pending link the user asked for, in table order. */
  function PendingEntries(links: seq<CourseLink>, metas: seq<MetaCourse>, username: string): seq<(string, PendingRequest)>
    requires forall i :: 0 <= i < |links| ==> 1 <= links[i].metaPk <= |metas|
    decreases |links|
  {
    if links == [] then []
    else
      var n := |links| - 1;
      var l := links[n];
      PendingEntries(links[..n], metas, username) +
      (if l.requestor == username && l.status == Pending
       then [(metas[l.metaPk - 1].name, PendingRequest(l.childCourse, l.owner))] else [])
  }

  /** Every listed entry is one of the user's pending requests, under its meta course's name. */
  lemma {:induction false} PendingEntryOrigin(links: seq<CourseLink>, metas: seq<MetaCourse>, username: string, k: nat) returns (i: nat)
    requires forall i :: 0 <= i < |links| ==> 1 <= links[i].metaPk <= |metas|
    requires k < |PendingEntries(links, metas, username)|
    ensures i < |links| && IsPendingEntry(links[i], metas, username, PendingEntries(links, metas, username)[k])
    decreases |links|
  {
    var n := |links| - 1;
    var es := PendingEntries(links[..n], metas, username);
    if k < |es| {
      i := PendingEntryOrigin(links[..n], metas, username, k);
      assert links[..n][i] == links[i];
    } else {
      i := n;
    }
  }

  /** Every pending request of the user is listed, under its meta course's name. */
  lemma {:induction false} PendingEntriesComplete(links: seq<CourseLink>, metas: seq<MetaCourse>, username: string, i: nat)
    requires forall i :: 0 <= i < |links| ==> 1 <= links[i].metaPk <= |metas|
    requires i < |links| && links[i].requestor == username && links[i].status == Pending
    ensures (metas[links[i].metaPk - 1].name, PendingRequest(links[i].childCourse, links[i].owner))
              in PendingEntries(links, metas, username)
    decreases |links|
  {
    var n := |links| - 1;
    if i < n {
      PendingEntriesComplete(links[..n], metas, username, i);
      assert links[..n][i] == links[i];
    }
  }

  /** The grouped listing loses no request: its groups, flattened in
      first-seen order of the names, hold exactly the user's pending requests. */
  lemma PendingListingComplete(links: seq<CourseLink>, metas: seq<MetaCourse>, username: string)
    requires forall i :: 0 <= i < |links| ==> 1 <= links[i].metaPk <= |metas|
    ensures var es := PendingEntries(links, metas, username);
      && multiset(Grouped(es)) == multiset(Values(es))
      && (forall i :: 0 <= i < |links| && links[i].requestor == username && links[i].status == Pending ==>
            PendingRequest(links[i].childCourse, links[i].owner) in Grouped(es))
  {
    var es := PendingEntries(links, metas, username);
    GroupedKeepsEverything(es);
    forall i | 0 <= i < |links| && links[i].requestor == username && links[i].status == Pending
      ensures PendingRequest(links[i].childCourse, links[i].owner) in Grouped(es)
    {
      PendingEntriesComplete(links, metas, username, i);
      var k :| 0 <= k < |es| && es[k] == (metas[links[i].metaPk - 1].name, PendingRequest(links[i].childCourse, links[i].owner));
      ValueAt(es, k);
      assert PendingRequest(links[i].childCourse, links[i].owner) in multiset(Values(es));
    }
  }

  // ---------------------------------------------------------------------
  // A worked example.

  lemma ExampleTerm(a: CourseLink, b: CourseLink)
    requires a.childCourse == "23F100" && b.childCourse == "23F200"
    ensures LongIds([a, b]) && ResolvedTerm([a, b]) == "23F1"
  {
    StepExamples();
    assert TermOf("23F100") == "23F1" by { assert "23F100"[..4] == "23F1"; }
    assert TermOf("23F200") == "23F2" by { assert "23F200"[..4] == "23F2"; }
    assert ResolvedTerm([a]) == "23F1" by {
      assert [a] == [] + [a];
      ResolvedTermSnoc([], a);
      assert ResolvedTerm([]) == Sentinel;
    }
    assert [a, b] == [a] + [b];
    ResolvedTermSnoc([a], b);
  }

  /** The links alice's form produces: her own 23F100 enabled, bob's 23F200
      pending, and bob the one instructor to ask. */
  lemma ExampleLinks(pk: nat)
    ensures var catalogue := map["23F100" := "alice", "23F200" := "bob"];
      && SelfLinks(pk, "alice", ["23F100"], catalogue) == [CourseLink(pk, "23F100", "alice", "alice", Enabled)]
      && ForeignLinks(pk, "alice", [ForeignRow(true, "23F200")], catalogue) == [CourseLink(pk, "23F200", "alice", "bob", Pending)]
      && Distinct(Owners([CourseLink(pk, "23F200", "alice", "bob", Pending)])) == ["bob"]
  {
    assert ["23F100"][..0] == [];
    assert [ForeignRow(true, "23F200")][..0] == [];
    var b := CourseLink(pk, "23F200", "alice", "bob", Pending);
    LinkListsSnoc([], b);
    assert Owners([b]) == ["bob"];
    assert ["bob"][..0] == [];
  }

  /** alice creates "Algebra" section "A" from her course 23F100 and bob's
      23F200: her link is enabled, bob's is pending, the term label is the
      first four characters "23F1" (23F2 has the same year and season and
      does not displace it), and bob alone is asked for approval. */
  lemma CreateExample(pk: nat)
    ensures var catalogue := map["23F100" := "alice", "23F200" := "bob"];
      var selfLinks := SelfLinks(pk, "alice", ["23F100"], catalogue);
      var foreignLinks := ForeignLinks(pk, "alice", [ForeignRow(true, "23F200")], catalogue);
      && selfLinks == [CourseLink(pk, "23F100", "alice", "alice", Enabled)]
      && foreignLinks == [CourseLink(pk, "23F200", "alice", "bob", Pending)]
      && LongIds(selfLinks + foreignLinks)
      && TermPrefixedName(ResolvedTerm(selfLinks + foreignLinks), InitialName("Algebra", "A")) == "(Meta 23F1) Algebra (A)"
      && Distinct(Owners(foreignLinks)) == ["bob"]
  {
    var a := CourseLink(pk, "23F100", "alice", "alice", Enabled);
    var b := CourseLink(pk, "23F200", "alice", "bob", Pending);
    ExampleLinks(pk);
    ExampleTerm(a, b);
    assert [a] + [b] == [a, b];
  }
}

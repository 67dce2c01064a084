/**
 * The POST handlers of the views, step by step as the views run them: the
 * meta-course creation form, the approval formset, the retire/add formsets,
 * and the grouping of the user's outgoing requests by meta-course name.
 * Each handler is proved to leave the tables and return the messages that
 * the functions of module Workflow describe.
 */
module Views {

  import opened Wrappers
  import opened Terms
  import opened Naming
  import opened Mail
  import opened Batching
  import opened Links
  import opened Workflow

  /** Every course id of the form that the catalogue knows has a season
      letter (a third character) to read. */
  predicate KnownIdsSeasoned(ids: seq<string>, catalogue: Catalogue)
  {
    forall i :: 0 <= i < |ids| && ids[i] in catalogue ==> |ids[i]| >= 3
  }

  predicate KnownRowsSeasoned(rows: seq<ForeignRow>, catalogue: Catalogue)
  {
    forall i :: 0 <= i < |rows| && rows[i].childCourse in catalogue ==> |rows[i].childCourse| >= 3
  }

  /** Every message filed in a recipients dict is the approval request
      addressed to its key. */
  predicate RequestsByOwner(values: map<string, Message>)
  {
    forall k :: k in values ==> values[k] == RequestMessage(k)
  }

  lemma RequestsByOwnerUpdate(values: map<string, Message>, k: string)
    requires RequestsByOwner(values)
    ensures RequestsByOwner(values[k := RequestMessage(k)])
  {
  }

  /** Flattening a recipients dict that holds only approval requests gives
      the requests for its keys, in key order. */
  lemma FlattenedRequests(keys: seq<string>, values: map<string, Message>, all: seq<Message>)
    requires RequestsByOwner(values)
    requires |all| == |keys|
    requires forall i :: 0 <= i < |keys| ==> keys[i] in values && all[i] == values[keys[i]]
    ensures all == RequestMessages(keys)
  {
  }

  lemma SelfLinksSnoc(pk: nat, username: string, rows: seq<string>, catalogue: Catalogue, i: nat)
    requires i < |rows|
    ensures rows[i] !in catalogue ==>
              SelfLinks(pk, username, rows[..i + 1], catalogue) == SelfLinks(pk, username, rows[..i], catalogue)
    ensures rows[i] in catalogue ==>
              SelfLinks(pk, username, rows[..i + 1], catalogue) == SelfLinks(pk, username, rows[..i], catalogue) +
                [CourseLink(pk, rows[i], username, username, Enabled)]
  {
    assert rows[..i + 1][..i] == rows[..i];
  }

  lemma PendingEntriesSnoc(links: seq<CourseLink>, metas: seq<MetaCourse>, username: string, i: nat)
    requires forall j :: 0 <= j < |links| ==> 1 <= links[j].metaPk <= |metas|
    requires i < |links|
    ensures !(links[i].requestor == username && links[i].status == Pending) ==>
              PendingEntries(links[..i + 1], metas, username) == PendingEntries(links[..i], metas, username)
    ensures links[i].requestor == username && links[i].status == Pending ==>
              PendingEntries(links[..i + 1], metas, username) == PendingEntries(links[..i], metas, username) +
                [(metas[links[i].metaPk - 1].name, PendingRequest(links[i].childCourse, links[i].owner))]
  {
    assert links[..i + 1][..i] == links[..i];
  }

  lemma ForeignLinksSnoc(pk: nat, username: string, rows: seq<ForeignRow>, catalogue: Catalogue, i: nat)
    requires i < |rows|
    ensures !(rows[i].changed && rows[i].childCourse in catalogue) ==>
              ForeignLinks(pk, username, rows[..i + 1], catalogue) == ForeignLinks(pk, username, rows[..i], catalogue)
    ensures rows[i].changed && rows[i].childCourse in catalogue ==>
              ForeignLinks(pk, username, rows[..i + 1], catalogue) == ForeignLinks(pk, username, rows[..i], catalogue) +
                [CourseLink(pk, rows[i].childCourse, username, catalogue[rows[i].childCourse], Pending)]
  {
    assert rows[..i + 1][..i] == rows[..i];
  }

  /** `CreateMetaCourse.form_valid`: saves the meta course under a temporary
      id, links the user's own courses (enabled) and the filled-in foreign
      courses (pending), folds the links' terms into the name, gives the
      meta course its final id, and returns one approval request per
      distinct foreign instructor, in the order they were first met. */
  method CreateMetaCourse(store: Store, catalogue: Catalogue, username: string, form: MetaForm,
                          userRows: seq<string>, foreignRows: seq<ForeignRow>)
    returns (pk: nat, messages: seq<Message>)
    requires store.Valid()
    requires KnownIdsSeasoned(userRows, catalogue) && KnownRowsSeasoned(foreignRows, catalogue)
    modifies store
    ensures store.Valid()
    ensures pk == |old(store.metas)| + 1
    ensures var added := SelfLinks(pk, username, userRows, catalogue) + ForeignLinks(pk, username, foreignRows, catalogue);
      && LongIds(added)
      && store.links == old(store.links) + added
      && store.metas == old(store.metas) +
           [MetaCourse(pk, MetaCourseId(username, pk),
                       TermPrefixedName(ResolvedTerm(added), InitialName(form.name, form.sections)), username)]
    ensures messages == RequestMessages(Distinct(Owners(ForeignLinks(pk, username, foreignRows, catalogue))))
  {
    pk := store.InsertMeta(TemporaryId(username), InitialName(form.name, form.sections), username);
    var current := LinkOwnCourses(store, catalogue, username, pk, userRows);
    ghost var selfLinks := SelfLinks(pk, username, userRows, catalogue);
    current, messages := LinkForeignCourses(store, catalogue, username, pk, foreignRows, selfLinks, current);
    AppendAssociative(old(store.links), selfLinks, ForeignLinks(pk, username, foreignRows, catalogue));
    store.UpdateMeta(pk, MetaCourseId(username, pk), TermPrefixedName(current, InitialName(form.name, form.sections)));
  }

  /** The loop over the user's own courses in `form_valid`: links each
      course the catalogue knows, enabled, and folds its term into the
      running term label, which starts at "00ZZ". */
  method LinkOwnCourses(store: Store, catalogue: Catalogue, username: string, pk: nat, userRows: seq<string>)
    returns (current: string)
    requires store.Valid() && 1 <= pk <= |store.metas| && KnownIdsSeasoned(userRows, catalogue)
    modifies store
    ensures store.Valid() && store.metas == old(store.metas)
    ensures store.links == old(store.links) + SelfLinks(pk, username, userRows, catalogue)
    ensures LongIds(SelfLinks(pk, username, userRows, catalogue))
    ensures current == ResolvedTerm(SelfLinks(pk, username, userRows, catalogue))
  {
    current := Sentinel;
    ghost var linked: seq<CourseLink> := [];
    var i := 0;
    while i < |userRows|
      invariant i <= |userRows|
      invariant linked == SelfLinks(pk, username, userRows[..i], catalogue)
      invariant store.Valid() && store.metas == old(store.metas)
      invariant store.links == old(store.links) + linked
      invariant LongIds(linked) && current == ResolvedTerm(linked)
    {
      var child := userRows[i];
      SelfLinksSnoc(pk, username, userRows, catalogue, i);
      if child in catalogue {
        var link := CourseLink(pk, child, username, username, Enabled);
        store.InsertLink(link);
        AppendAssociative(old(store.links), linked, [link]);
        ResolvedTermSnoc(linked, link);
        current := Step(current, TermOf(child));
        linked := linked + [link];
      }
      i := i + 1;
    }
    assert userRows[..i] == userRows;
  }

  /** The loop over the foreign courses in `form_valid`: links each
      filled-in course the catalogue knows, pending and owned by its
      instructor, folds its term into the running label (which so far
      covers `before`), and files one approval request per instructor;
      then the requests are flattened in key order. */
  method LinkForeignCourses(store: Store, catalogue: Catalogue, username: string, pk: nat, foreignRows: seq<ForeignRow>,
                            ghost before: seq<CourseLink>, current: string)
    returns (term: string, messages: seq<Message>)
    requires store.Valid() && 1 <= pk <= |store.metas| && KnownRowsSeasoned(foreignRows, catalogue)
    requires LongIds(before) && current == ResolvedTerm(before)
    modifies store
    ensures store.Valid() && store.metas == old(store.metas)
    ensures store.links == old(store.links) + ForeignLinks(pk, username, foreignRows, catalogue)
    ensures LongIds(before + ForeignLinks(pk, username, foreignRows, catalogue))
    ensures term == ResolvedTerm(before + ForeignLinks(pk, username, foreignRows, catalogue))
    ensures messages == RequestMessages(Distinct(Owners(ForeignLinks(pk, username, foreignRows, catalogue))))
  {
    term := current;
    var recipients := new FirstPerKey<Message>();
    ghost var linked: seq<CourseLink> := [];
    var i := 0;
    assert before + linked == before;
    while i < |foreignRows|
      invariant i <= |foreignRows|
      invariant linked == ForeignLinks(pk, username, foreignRows[..i], catalogue)
      invariant store.Valid() && store.metas == old(store.metas)
      invariant store.links == old(store.links) + linked
      invariant LongIds(before + linked)
      invariant term == ResolvedTerm(before + linked)
      invariant recipients.Valid()
      invariant recipients.offered == Owners(linked)
      invariant RequestsByOwner(recipients.values)
    {
      var row := foreignRows[i];
      ForeignLinksSnoc(pk, username, foreignRows, catalogue, i);
      if row.changed && row.childCourse in catalogue {
        var link := CourseLink(pk, row.childCourse, username, catalogue[row.childCourse], Pending);
        AppendAssociative(old(store.links), linked, [link]);
        AppendAssociative(before, linked, [link]);
        OwnersSnoc(linked, link);
        term := SaveForeignLink(store, recipients, link, before + linked, term);
        linked := linked + [link];
      }
      i := i + 1;
    }
    assert foreignRows[..i] == foreignRows;
    messages := recipients.Flatten();
    FlattenedRequests(recipients.keys, recipients.values, messages);
  }

  /** One filled-in foreign course the catalogue knows: saves its link,
      folds its term into the running label (which so far covers `prefix`),
      and files an approval request for its instructor unless one is
      already filed. */
  method SaveForeignLink(store: Store, recipients: FirstPerKey<Message>, link: CourseLink,
                         ghost prefix: seq<CourseLink>, term: string)
    returns (next: string)
    requires store.Valid() && 1 <= link.metaPk <= |store.metas|
    requires recipients.Valid() && RequestsByOwner(recipients.values)
    requires LongIds(prefix) && |link.childCourse| >= 3 && term == ResolvedTerm(prefix)
    modifies store, recipients
    ensures store.Valid() && store.metas == old(store.metas) && store.links == old(store.links) + [link]
    ensures LongIds(prefix + [link]) && next == ResolvedTerm(prefix + [link])
    ensures recipients.Valid() && RequestsByOwner(recipients.values)
    ensures recipients.offered == old(recipients.offered) + [link.owner]
  {
    store.InsertLink(link);
    ResolvedTermSnoc(prefix, link);
    next := Step(term, TermOf(link.childCourse));
    RequestsByOwnerUpdate(recipients.values, link.owner);
    recipients.PutIfAbsent(link.owner, RequestMessage(link.owner));
  }

  /** What one more row of the approval formset does to the links. */
  lemma DecidedStep(links: seq<CourseLink>, rows: seq<DecisionRow>, i: nat)
    requires forall j :: 0 <= j < |rows| ==> rows[j].link < |links|
    requires i < |rows|
    ensures var prev := Decided(links, rows[..i]);
      Decided(links, rows[..i + 1]) == prev[rows[i].link := prev[rows[i].link].(status := DecidedStatus(rows[i].rowStatus))]
  {
    assert rows[..i + 1][..i] == rows[..i];
  }

  /** What one more row of the approval formset adds to the decision entries. */
  lemma DecisionEntriesStep(links: seq<CourseLink>, rows: seq<DecisionRow>, i: nat)
    requires forall j :: 0 <= j < |rows| ==> rows[j].link < |links|
    requires i < |rows|
    ensures RowEntry(links, rows[i]).None? ==> DecisionEntries(links, rows[..i + 1]) == DecisionEntries(links, rows[..i])
    ensures RowEntry(links, rows[i]).Some? ==>
              DecisionEntries(links, rows[..i + 1]) == DecisionEntries(links, rows[..i]) + [RowEntry(links, rows[i]).value]
  {
    var prefix := rows[..i + 1];
    assert prefix[..i] == rows[..i];
    assert prefix[i] == rows[i];
  }

  /** `approve_child_course`, POST: saves every form's status (a blank
      choice leaves the link pending) and batches one decision message per
      approval or denial, grouped by requestor in the order requestors were
      first met. */
  method ApproveChildCourse(store: Store, rows: seq<DecisionRow>) returns (messages: seq<Message>)
    requires store.Valid()
    requires forall j :: 0 <= j < |rows| ==> rows[j].link < |store.links|
    modifies store
    ensures store.Valid() && store.metas == old(store.metas)
    ensures store.links == Decided(old(store.links), rows)
    ensures messages == Grouped(DecisionEntries(old(store.links), rows))
  {
    ghost var links0 := store.links;
    var byRequestor := new Grouping<Message>();
    var i := 0;
    while i < |rows|
      invariant i <= |rows|
      invariant store.Valid() && store.metas == old(store.metas)
      invariant store.links == Decided(links0, rows[..i])
      invariant byRequestor.Valid()
      invariant byRequestor.entries == DecisionEntries(links0, rows[..i])
    {
      var row := rows[i];
      DecidedStep(links0, rows, i);
      DecisionEntriesStep(links0, rows, i);
      var requestor := store.links[row.link].requestor;
      var childCourse := store.links[row.link].childCourse;
      assert requestor == links0[row.link].requestor && childCourse == links0[row.link].childCourse;
      var status := row.rowStatus;
      if status != 0 && status != 1 && status != 2 {
        status := Pending;
      } else if status == 0 {
        byRequestor.Append(requestor, DecisionMessage(Approved, childCourse, requestor));
      } else if status == 2 {
        byRequestor.Append(requestor, DecisionMessage(Denied, childCourse, requestor));
      }
      store.SetStatus(row.link, status);
      i := i + 1;
    }
    assert rows[..i] == rows;
    messages := byRequestor.Flatten();
  }

  lemma AddedLinksSnoc(username: string, rows: seq<AddRow>, catalogue: Catalogue, i: nat)
    requires i < |rows|
    ensures rows[i].childCourse !in catalogue ==>
              AddedLinks(username, rows[..i + 1], catalogue) == AddedLinks(username, rows[..i], catalogue)
    ensures rows[i].childCourse in catalogue ==>
              var owner := catalogue[rows[i].childCourse];
              AddedLinks(username, rows[..i + 1], catalogue) == AddedLinks(username, rows[..i], catalogue) +
                [CourseLink(rows[i].metaPk, rows[i].childCourse, username, owner, if owner == username then Enabled else Pending)]
  {
    assert rows[..i + 1][..i] == rows[..i];
  }

  /** `update_my_metas`, POST: disables every checked link, saves one link
      per known course of the add formset (enabled when the user teaches it,
      pending otherwise), and prepares one approval request per distinct
      other instructor, in the order they were first met. */
  method UpdateMyMetas(store: Store, catalogue: Catalogue, username: string,
                       removeRows: seq<RemoveRow>, addRows: seq<AddRow>)
    returns (messages: seq<Message>)
    requires store.Valid()
    requires forall j :: 0 <= j < |removeRows| ==> removeRows[j].link < |store.links|
    requires forall j :: 0 <= j < |addRows| ==> 1 <= addRows[j].metaPk <= |store.metas|
    modifies store
    ensures store.Valid() && store.metas == old(store.metas)
    ensures store.links == Retired(old(store.links), removeRows) + AddedLinks(username, addRows, catalogue)
    ensures messages == RequestMessages(Distinct(PendingOwners(AddedLinks(username, addRows, catalogue))))
  {
    ghost var links0 := store.links;
    var i := 0;
    while i < |removeRows|
      invariant i <= |removeRows|
      invariant store.Valid() && store.metas == old(store.metas)
      invariant store.links == Retired(links0, removeRows[..i])
    {
      assert removeRows[..i + 1][..i] == removeRows[..i];
      if removeRows[i].toRemove {
        store.SetStatus(removeRows[i].link, Disabled);
      }
      i := i + 1;
    }
    assert removeRows[..i] == removeRows;
    ghost var retired := store.links;

    var recipients := new FirstPerKey<Message>();
    i := 0;
    while i < |addRows|
      invariant i <= |addRows|
      invariant store.Valid() && store.metas == old(store.metas)
      invariant store.links == retired + AddedLinks(username, addRows[..i], catalogue)
      invariant recipients.Valid()
      invariant recipients.offered == PendingOwners(AddedLinks(username, addRows[..i], catalogue))
      invariant RequestsByOwner(recipients.values)
    {
      var row := addRows[i];
      ghost var prev := AddedLinks(username, addRows[..i], catalogue);
      AddedLinksSnoc(username, addRows, catalogue, i);
      if row.childCourse in catalogue {
        var owner := catalogue[row.childCourse];
        var status := Pending;
        if owner == username {
          status := Enabled;
        } else {
          RequestsByOwnerUpdate(recipients.values, owner);
          recipients.PutIfAbsent(owner, RequestMessage(owner));
        }
        var link := CourseLink(row.metaPk, row.childCourse, username, owner, status);
        assert status == (if owner == username then Enabled else Pending);
        PendingOwnersSnoc(prev, link);
        store.InsertLink(link);
        AppendAssociative(retired, prev, [link]);
      }
      i := i + 1;
    }
    assert addRows[..i] == addRows;
    messages := recipients.Flatten();
    FlattenedRequests(recipients.keys, recipients.values, messages);
  }

  /** `approve_child_course`, before either method: the user's pending
      requests, grouped by meta-course name in the order names are first
      met. Nothing is changed. */
  method PendingRequestsByMeta(store: Store, username: string)
    returns (names: seq<string>, groups: map<string, seq<PendingRequest>>)
    requires store.Valid()
    ensures names == Distinct(Keys(PendingEntries(store.links, store.metas, username)))
    ensures groups == GroupsOf(PendingEntries(store.links, store.metas, username))
  {
    var byName := new Grouping<PendingRequest>();
    ghost var links := store.links;
    var i := 0;
    while i < |store.links|
      invariant i <= |store.links| && store.links == links
      invariant byName.Valid()
      invariant byName.entries == PendingEntries(links[..i], store.metas, username)
    {
      var link := store.links[i];
      PendingEntriesSnoc(links, store.metas, username, i);
      if link.requestor == username && link.status == Pending {
        byName.Append(store.metas[link.metaPk - 1].name, PendingRequest(link.childCourse, link.owner));
      }
      i := i + 1;
    }
    assert links[..i] == links;
    names := byName.keys;
    groups := byName.groups;
  }
}

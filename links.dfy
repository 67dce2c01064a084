/**
 * Meta courses, course links and their persistence.
 *
 * A course link ties one child course into one meta course.  Its
 * `row_status` is 0 (Enabled), 1 (Pending: the child course's instructor
 * has not yet decided) or 2 (Disabled: denied by that instructor or
 * retired by the requestor).
 */
module Links {

  import opened Wrappers
  import opened Mail

  type Status = s: int | 0 <= s <= 2

  const Enabled: Status := 0
  const Pending: Status := 1
  const Disabled: Status := 2

  /** One row of the link table: which meta course (by primary key), which
      child course, who asked for it, who teaches it, and its status. */
  datatype CourseLink = CourseLink(metaPk: nat, childCourse: string, requestor: string, owner: string, status: Status)

  /** One row of the meta-course table. */
  datatype MetaCourse = MetaCourse(pk: nat, id: string, name: string, instructor: string)

  /** The status a submitted `row_status` leaves on a link: the submitted
      value when it is 0, 1 or 2, and 1 for anything else (a blank choice). */
  function DecidedStatus(submitted: int): Status
  {
    if submitted != 0 && submitted != 1 && submitted != 2 then Pending else submitted
  }

  /** What the requestor is told about a submitted `row_status`, if anything. */
  function VerdictOf(submitted: int): Option<Verdict>
  {
    if submitted == 0 then Some(Approved) else if submitted == 2 then Some(Denied) else None
  }

  /** The decision rule: approval enables the link and tells the requestor,
      denial disables it and tells the requestor, anything else leaves the
      link pending and tells nobody. */
  lemma DecisionRule(submitted: int)
    ensures DecidedStatus(submitted) == Enabled <==> VerdictOf(submitted) == Some(Approved)
    ensures DecidedStatus(submitted) == Disabled <==> VerdictOf(submitted) == Some(Denied)
    ensures DecidedStatus(submitted) == Pending <==> VerdictOf(submitted) == None
    ensures !(0 <= submitted <= 2) ==> DecidedStatus(submitted) == Pending
  {
  }

  /** The link and meta-course tables. A meta course's primary key is its
      position plus one, the next key the table hands out. */
  class Store {
    var metas: seq<MetaCourse>
    var links: seq<CourseLink>

    ghost predicate Valid()
      reads this
    {
      && (forall i :: 0 <= i < |metas| ==> metas[i].pk == i + 1)
      && (forall i :: 0 <= i < |links| ==> 1 <= links[i].metaPk <= |metas|)
    }

    constructor ()
      ensures Valid() && metas == [] && links == []
    {
      metas := [];
      links := [];
    }

    /** Saves a new meta course and returns the primary key it was given. */
    method InsertMeta(id: string, name: string, instructor: string) returns (pk: nat)
      requires Valid()
      modifies this
      ensures Valid()
      ensures pk == |old(metas)| + 1
      ensures metas == old(metas) + [MetaCourse(pk, id, name, instructor)]
      ensures links == old(links)
    {
      pk := |metas| + 1;
      metas := metas + [MetaCourse(pk, id, name, instructor)];
    }

    /** Saves a changed id and name for an existing meta course. */
    method UpdateMeta(pk: nat, id: string, name: string)
      requires Valid() && 1 <= pk <= |metas|
      modifies this
      ensures Valid()
      ensures metas == old(metas)[pk - 1 := MetaCourse(pk, id, name, old(metas)[pk - 1].instructor)]
      ensures links == old(links)
    {
      metas := metas[pk - 1 := MetaCourse(pk, id, name, metas[pk - 1].instructor)];
    }

    /** Saves a new link into an existing meta course. */
    method InsertLink(link: CourseLink)
      requires Valid() && 1 <= link.metaPk <= |metas|
      modifies this
      ensures Valid()
      ensures links == old(links) + [link]
      ensures metas == old(metas)
    {
      links := links + [link];
    }

    /** Saves a new status for an existing link. */
    method SetStatus(index: nat, status: Status)
      requires Valid() && index < |links|
      modifies this
      ensures Valid()
      ensures links == old(links)[index := old(links)[index].(status := status)]
      ensures metas == old(metas)
    {
      links := links[index := links[index].(status := status)];
    }
  }
}

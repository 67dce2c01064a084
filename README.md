# Meta-course composition and approval, modelled in Dafny

This project models the meta-course logic of `views.py` in a Django
application for Blackboard "meta courses". A meta course bundles several
child courses. An instructor builds one from their own courses and from
other instructors' courses. Each link to another instructor's course waits
for that instructor's approval.

The three POST handlers are modelled as imperative methods over a `Store`
class. The store holds the meta-course table and the link table as
sequences. The methods are:

- `Views.CreateMetaCourse`, for `CreateMetaCourse.form_valid`. It saves the
  meta course under a temporary id and links the user's own courses as
  enabled and the filled-in foreign courses as pending. It folds the links'
  term labels into the display name, gives the meta course its final id,
  and returns one approval request per distinct foreign instructor.
- `Views.ApproveChildCourse`, for the POST branch of
  `approve_child_course`. It saves each decision: a blank choice stays
  pending. It batches "approved" and "denied" messages per requestor.
- `Views.UpdateMyMetas`, for the POST branch of `update_my_metas`. It
  disables the checked links and adds new ones, enabled when the user
  teaches the course and pending otherwise. It prepares one approval
  request per other instructor.
- `Views.PendingRequestsByMeta` groups the user's own pending requests by
  meta-course name, as `approve_child_course` does before either branch.

The `email_recipients` dicts are classes that keep Python's insertion
order: a key sequence plus a map.

- `Batching.FirstPerKey` keeps the first value per key. It is used for
  approval requests.
- `Batching.Grouping` appends every value to its key's tuple. It is used
  for decision messages and for the pending listing.

Each method is proved to leave the tables and return the messages that a
function in module `Workflow` describes. The lemmas of `Workflow`, `Terms`,
`Batching` and `Naming` prove what those functions promise.

The modules are:

- `Terms`: the term-label fold.
- `Naming`: addresses, ids, names and `str(int)`.
- `Mail`: the message records.
- `Links`: statuses, records and the `Store` class.
- `Batching`: the two dict policies.
- `Workflow`: the specification functions and their lemmas.
- `Views`: the handlers.

The acting user, the course catalogue (a map from course id to
instructor), the submitted form rows and the store are parameters. The
catalogue stands for the `InstructorCourses` lookups.

Some behaviours of the code are easy to misread. The model keeps them as
written:

- The term label is `child_course[:4]`, the first four characters of the
  course id, such as `"23F1"`. A meta course built from `23F100` and
  `23F200` is named `"(Meta 23F1) Algebra (A)"`. See
  `Workflow.CreateExample`.
- The fold is not order-independent in general. It is order-independent
  in year and season when every season letter is `F`, `U` or `S`. See
  `Terms.FoldOrderIndependentWhenRanked`. With another letter, the order
  changes the result. See `Terms.FoldOrderDependsOnUnrankedSeason`.
- Approval does not look at a link's current status. A disabled link
  submitted again with 0 becomes enabled, so "disabled" is not terminal
  in the code.
- Approval requests are deduplicated per instructor. Later requests to the
  same instructor are dropped, not kept as separate messages.
- A foreign link in `form_valid` is pending, and its owner is asked for
  approval, even when the owner is the user.

## Model

| member | source | states |
|---|---|---|
| Terms.Prefix | views.py:144 | `s[:n]` has length `min(|s|, n)` and is a prefix of `s` |
| Terms.Step | views.py:144-151 | one step of the term fold keeps either the current term or the new one, and the result still has a season letter |
| Terms.Fold | views.py:143-151 | folding terms that all have a season letter gives a term with a season letter |
| Terms.SupersedesIsRankedAbove | views.py:146-151 | the code's replacement test holds exactly when the new term has a later year, or the same year and a season that outranks a ranked current season (F 3 > U 2 > S 1, other letters 0) |
| Terms.LexLessIrreflexive | views.py:146 | Python's `<` on strings is irreflexive |
| Terms.LexLessTransitive | views.py:146 | Python's `<` on strings is transitive |
| Terms.LexLessTotal | views.py:146 | any two strings are equal or ordered one way or the other |
| Terms.LexLessAsymmetric | views.py:146 | `a < b` excludes `b < a` |
| Terms.NotLessTransitive | views.py:146 | "not earlier than" is transitive |
| Terms.NotLessAntisymmetric | views.py:146 | two strings neither earlier than the other are equal |
| Terms.FoldOrigin | views.py:122-151 | the folded term is the sentinel `"00ZZ"` or one of the folded terms |
| Terms.FoldYearDominates | views.py:122-151 | the folded term's year is at least the starting year and the year of every folded term |
| Terms.FoldIsMaximal | views.py:143-151 | no folded term is later than the result, by year and then ranked season |
| Terms.SentinelYearKeepsSentinel | views.py:122-151 | a fold from `"00ZZ"` whose result has year `"00"` is `"00ZZ"` itself |
| Terms.YearZeroNeverDisplacesSentinel | views.py:144-151 | a term of year `"00"` never replaces `"00ZZ"` |
| Terms.MutuallyMaximalAgree | views.py:146-151 | two ranked terms neither later than the other share year and season letter |
| Terms.SameElements | views.py:143-151 | two orderings of the same terms hold the same terms |
| Terms.FoldOrderIndependentWhenRanked | views.py:143-151 | with only F/U/S seasons, any two orders of the same terms fold to the same year and season |
| Terms.FoldOrderDependsOnUnrankedSeason | views.py:143-151 | with season `X`, folding `23X1, 23F1` gives `23X1` but `23F1, 23X1` gives `23F1` |
| Terms.StepExamples | views.py:144-151 | the sentinel yields to `23F1`; Fall beats Spring both ways; an equal-rank term keeps the earlier one |
| Naming.IdentityOf | views.py:193 | a recognised address is the address of the identity read from it |
| Naming.IdentityOfAddress | views.py:193 | reading the identity back from `identity + '@ucmail.uc.edu'` gives the identity |
| Naming.AddressInjective | views.py:266 | two identities never share an address |
| Naming.DecimalString | views.py:119 | `str(pk)` is a non-empty string of digits |
| Naming.DecimalRoundTrip | views.py:119 | `int(str(pk)) == pk` |
| Naming.MetaCourseIdInjective | views.py:119 | two meta courses of one user with different keys get different ids |
| Naming.TemporaryIdIsNotFinal | views.py:115-119 | the temporary id `meta_<user>_temp` is never a final id |
| Mail.RequestMessage | views.py:189-196 | an approval request has one recipient, and the owner can be read back from that address |
| Mail.DecisionMessage | views.py:274-302 | a decision message goes to the requestor's address alone, with the approved or denied subject, and names the child course in its body |
| Mail.RequestMessages | views.py:203-205 | one request per owner, and the i-th request's single recipient reads back as the i-th owner |
| Mail.RequestMessagesInjective | views.py:189-205 | the requests determine the owners they were built for, in order |
| Links.DecisionRule | views.py:271-302 | 0 enables and sends "approved"; 2 disables and sends "denied"; 1 and blank leave the link pending and send nothing |
| Links.Store.constructor | views.py:116 | the tables start empty |
| Links.Store.InsertMeta | views.py:116 | saving a meta course appends it under the next primary key and leaves the links unchanged |
| Links.Store.UpdateMeta | views.py:200 | re-saving changes only that meta course's id and name |
| Links.Store.InsertLink | views.py:141 | saving a link appends it and leaves the meta courses unchanged |
| Links.Store.SetStatus | views.py:304 | re-saving a link changes only that link's status |
| Batching.DistinctElements | views.py:189-196 | the first-per-key dict holds every offered key once and no other key |
| Batching.DistinctSnoc | views.py:189-196 | offering a key adds it at the end exactly when it is new |
| Batching.FirstIndex | views.py:189-196 | the first position of a key holds that key and no earlier position does |
| Batching.DistinctFirstSeenOrder | views.py:203-205 | the dict's keys come in the order they were first offered |
| Batching.GroupsOfDomain | views.py:281-302 | the decision dict has a group for exactly the requestors that were added |
| Batching.GroupsAreBuckets | views.py:281-302 | each group holds exactly the values added under its key, in the order they were added |
| Batching.FlattenAppend | views.py:281-316 | appending a value to an existing group adds exactly that value to the flattened tuple |
| Batching.GroupedSnoc | views.py:281-316 | adding one entry adds exactly its value to the flattened tuple |
| Batching.GroupedSnocNewKey | views.py:281-316 | a value under a new key is appended at the very end of the flattened tuple |
| Batching.GroupedKeepsEverything | views.py:311-316 | the flattened tuple is a permutation of all values added, so it is just as long |
| Batching.FirstPerKey.constructor | views.py:153 | the dict starts empty |
| Batching.FirstPerKey.PutIfAbsent | views.py:189-196 | a value is stored only under a key not yet present; the keys stay the distinct offered keys in first-seen order |
| Batching.FirstPerKey.Flatten | views.py:203-205 | the result holds the stored value of each key, in key order |
| Batching.Grouping.constructor | views.py:258 | the dict starts empty |
| Batching.Grouping.Append | views.py:281-302 | the dict stays the grouping of every entry added so far |
| Batching.Grouping.Flatten | views.py:311-316 | the nested loop yields every group in first-seen key order, each group in insertion order |
| Workflow.SelfLinksShape | views.py:133-141 | every own-course link is enabled, asked for and owned by the user, for a known id of the form |
| Workflow.ForeignLinksShape | views.py:168-175 | every foreign link is pending, asked for by the user, and owned by the catalogue's instructor |
| Workflow.TermsOf | views.py:144 | the term list holds `child_course[:4]` of each link |
| Workflow.ResolvedTerm | views.py:143-151 | the term label of a list of links has a season letter |
| Workflow.ResolvedTermSnoc | views.py:143-151 | one more link folds its term into the label |
| Workflow.SelfLinksCoverKnownIds | views.py:131-141 | an own course gets a link exactly when the catalogue knows its id |
| Workflow.ForeignLinksCoverKnownIds | views.py:162-176 | a foreign course gets a link exactly when its form was filled in and the catalogue knows its id |
| Workflow.ForeignOwnersAreTeachers | views.py:166-176 | the instructors asked are exactly those of filled-in known foreign courses, the user included |
| Workflow.OneRequestPerInstructor | views.py:189-205 | no two requests share an address, and an instructor gets one exactly when listed |
| Workflow.Decided | views.py:260-304 | deciding keeps the number of links and changes only their statuses |
| Workflow.LastRowFor | views.py:260-304 | the row found edits the link asked about |
| Workflow.LastRowForIsLast | views.py:260-304 | no row is found exactly when no row edits the link; no later row edits it when one is found |
| Workflow.DecidedByLastRow | views.py:260-304 | an unedited link keeps its status; an edited link ends with the status decided by the last row that edits it |
| Workflow.RowEntry | views.py:271-302 | a row adds a dict entry exactly when it approves or denies, and the entry is its requestor with its message |
| Workflow.DecisionEntries | views.py:271-302 | one entry per approving or denying row |
| Workflow.DecisionEntryOrigin | views.py:271-302 | every entry comes from an approving or denying row |
| Workflow.DecisionEntriesComplete | views.py:271-302 | every approving or denying row has its entry |
| Workflow.DecisionMessagesComplete | views.py:281-316 | the flattened batch has one message per approving or denying row, holds every such row's message, and holds nothing else |
| Workflow.ValueAt | views.py:311-316 | an entry's value is among the values |
| Workflow.ValueIndex | views.py:311-316 | every value sits at some entry |
| Workflow.Retired | views.py:348-354 | retiring keeps the number of links and changes only their statuses |
| Workflow.RetiredExactlyChecked | views.py:351-354 | a link is disabled exactly when a checked row shows it; others keep their status |
| Workflow.AddedLinksShape | views.py:370-391 | every added link is asked for by the user, owned by the catalogue's instructor, enabled exactly when that instructor is the user, and pending otherwise |
| Workflow.AddedLinksCoverKnownIds | views.py:370-391 | a course gets a link exactly when some added row names it and the catalogue knows it |
| Workflow.AddedRequestsGoToOthers | views.py:376-389 | the instructors asked are exactly the other instructors of known added courses; the user is never asked |
| Workflow.PendingEntryOrigin | views.py:233-244 | every listed entry is a pending request of the user, under its meta course's name |
| Workflow.PendingEntriesComplete | views.py:233-244 | every pending request of the user is listed under its meta course's name |
| Workflow.PendingListingComplete | views.py:236-244 | the grouped listing is a permutation of the user's pending requests and misses none |
| Workflow.ExampleLinks | views.py:131-196 | alice's own `23F100` link is enabled, bob's `23F200` link is pending, and bob is the one instructor to ask |
| Workflow.ExampleTerm | views.py:143-186 | `23F100` then `23F200` fold to `23F1` |
| Workflow.CreateExample | views.py:113-198 | alice's own `23F100` is enabled, bob's `23F200` is pending, the name is `(Meta 23F1) Algebra (A)`, and only bob is asked |
| Views.CreateMetaCourse | views.py:102-207 | the new meta course has the next key, the id `meta_<user>_<pk>` and the name `(Meta <term>) <name> (<sections>)`; the links are the own and foreign links; the requests are one per distinct foreign instructor in first-seen order |
| Views.LinkOwnCourses | views.py:122-151 | the loop saves exactly the own-course links and leaves the running term at their fold |
| Views.LinkForeignCourses | views.py:153-205 | the loop saves exactly the foreign links, continues the fold over them, and flattens one request per distinct instructor |
| Views.SaveForeignLink | views.py:170-196 | one accepted foreign course: its link is saved, its term folded in, and its owner offered to the request dict |
| Views.ApproveChildCourse | views.py:254-318 | the links end as `Decided` says, and the messages are the decision entries grouped per requestor in first-seen order |
| Views.UpdateMyMetas | views.py:345-401 | the links end as the retired table plus the added links; the messages are one request per distinct pending owner in first-seen order |
| Views.PendingRequestsByMeta | views.py:233-244 | the names are the distinct meta-course names in first-seen order, and the groups are the pending requests under each name |

## Left out

- `InstructorCoursesList.get` (views.py:23-52) is not modelled: it is ORM search and pagination.
- The GET branches and `form_invalid` (views.py:65-82, 211-217, 246-252, 335-343) are not modelled: they only render templates.
- Form validation is taken as already done. Each form is a parsed record, and `has_changed` is a boolean.
- The early returns on an invalid form (views.py:306-308, 355-358, 393-396) are not modelled. There the rows already processed stay saved.
- `send_mass_mail` is not modelled: it is external delivery. The handlers return the message list that would be handed to it. In `update_my_metas` that call is commented out in the code, so the list is built but never sent.
- The hard-coded `username = 'sean_s'` and the Shibboleth lookup are not modelled. The acting user is a parameter.
- The catalogue maps each course id to one instructor. The code takes the first row of the `InstructorCourses` query, whose order the database decides.
- Primary keys are the position of the meta course plus one. The database's key generation is not modelled.
- Message bodies are constant text. The model keeps the subject, the recipients and the child-course id inside decision bodies; the wording is not checked beyond that.
- Views.CreateMetaCourse: every course id of the form that the catalogue knows must have at least three characters. With a shorter id the code raises IndexError at `term[2]` when the years tie. That error path is not modelled.
- Views.LinkForeignCourses: the same three-character precondition applies to known foreign ids.
- Views.ApproveChildCourse: each row names a stored link by index. Django's lookup of the instance from the form's hidden id is not modelled.
- Views.UpdateMyMetas: each add row names one of the stored meta courses. The form's restriction to the user's own meta courses is not modelled.
- Views.PendingRequestsByMeta: walks the link table in storage order. The code's QuerySet (views.py:233-237) has no `order_by`, so there the database decides the order of the names and of the requests within each group. The model fixes one order.

/**
 * The messages the views hand to the mail-sending facility: one tuple
 * (subject, message, from_email, recipient_list) per message.
 */
module Mail {

  import opened Wrappers
  import opened Naming

  datatype Message = Message(subject: string, body: string, sender: string, recipients: seq<string>)

  /** The sender placeholder every message carries. */
  const Sender: string := "EMAIL REMOVED"

  const RequestSubject: string := "[BB Meta Courses] New Request for Approval"
  const RequestBody: string :=
    "An instructor has requested to use one of your courses in a Meta Course. "
    + "Please visit [URL REMOVED FROM PUBLIC CODE] to approve or deny this request. "
    + HelpDeskNote

  const ApprovedSubject: string := "[BB Meta Courses] One Of Your Requests Has Been Approved"
  const DeniedSubject: string := "[BB Meta Courses] One Of Your Requests Has Been Denied"

  const HelpDeskNote: string :=
    "If you have any questions or concerns, please contact the IT@UC Help Desk by "
    + "telephone at 513-556-HELP (4357) or by email at helpdesk@uc.edu."

  /** The owner's decision on a pending link, when there is one to report. */
  datatype Verdict = Approved | Denied

  /** `text` occurs in `body` starting at position `k`. */
  predicate OccursAt(body: string, text: string, k: int)
  {
    0 <= k <= |body| - |text| && body[k..k + |text|] == text
  }

  /** `text` occurs somewhere in `body`. */
  ghost predicate Mentions(body: string, text: string)
  {
    exists k :: OccursAt(body, text, k)
  }

  /** The approval request sent to the owner of a child course. */
  function RequestMessage(owner: string): (m: Message)
    ensures |m.recipients| == 1 && IdentityOf(m.recipients[0]) == Some(owner)
  {
    IdentityOfAddress(owner);
    Message(RequestSubject, RequestBody, Sender, [Address(owner)])
  }

  /** The message telling a requestor how the owner decided on `childCourse`. */
  function DecisionMessage(verdict: Verdict, childCourse: string, requestor: string): (m: Message)
    ensures m.recipients == [Address(requestor)]
    ensures m.subject == (if verdict == Approved then ApprovedSubject else DeniedSubject)
    ensures Mentions(m.body, childCourse)
  {
    var lead := "Your request to use ";
    var outcome := if verdict == Approved then " has been approved. " else " has been Denied. ";
    var body := lead + childCourse + outcome + HelpDeskNote;
    assert OccursAt(body, childCourse, |lead|);
    Message(if verdict == Approved then ApprovedSubject else DeniedSubject, body, Sender, [Address(requestor)])
  }

  /** The approval requests for a list of owners, one per owner, in that order. */
  function RequestMessages(owners: seq<string>): (ms: seq<Message>)
    ensures |ms| == |owners|
    ensures forall i :: 0 <= i < |ms| ==> |ms[i].recipients| == 1 && IdentityOf(ms[i].recipients[0]) == Some(owners[i])
  {
    seq(|owners|, i requires 0 <= i < |owners| => RequestMessage(owners[i]))
  }

  /** The requests determine the instructors they were built for, in order. */
  lemma RequestMessagesInjective(owners1: seq<string>, owners2: seq<string>)
    requires RequestMessages(owners1) == RequestMessages(owners2)
    ensures owners1 == owners2
  {
    var ms := RequestMessages(owners1);
    forall i | 0 <= i < |owners1|
      ensures owners1[i] == owners2[i]
    {
      assert Some(owners1[i]) == IdentityOf(ms[i].recipients[0]) == Some(owners2[i]);
    }
  }
}

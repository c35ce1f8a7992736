/**
 * The status buttons of a record (`components/records/record-status-actions.tsx`): which
 * transitions are offered for a status, which status each requests, how the optional reject
 * reason is normalised into the request body, and how the dialog state changes after the request.
 */
module StatusActions {
  import opened Wrappers
  import opened Text
  import opened Json
  import opened Types

  /** The two buttons the component can show. */
  datatype Action = SubmitForReview | Reject

  const UPDATE_FAILED: string := "Failed to update status"

  /** The status each button requests. */
  function Target(a: Action): string {
    match a
    case SubmitForReview => "under_review"
    case Reject => "rejected"
  }

  /** The buttons shown for a status, given the caller's permissions. */
  function Offered(status: string, canSubmit: bool, canReject: bool): set<Action> {
    (if canSubmit && status == "draft" then {SubmitForReview} else {}) +
    (if canReject && (status == "under_review" || status == "submitted") then {Reject} else {})
  }

  /**
   * The transitions offered from each record status: a draft can be submitted for review (to
   * under review, not to submitted), a submitted or under-review record can be rejected, and an
   * approved, rejected or amended record offers nothing. At most one button is ever shown.
   */
  lemma OfferedByStatus(s: RecordStatus, canSubmit: bool, canReject: bool)
    ensures var offered := Offered(RecordStatusName(s), canSubmit, canReject);
      && |offered| <= 1
      && (SubmitForReview in offered <==> canSubmit && s == Draft)
      && (Reject in offered <==> canReject && (s == Submitted || s == UnderReview))
      && (s == Approved || s == Rejected || s == Amended ==> offered == {})
  {
    RecordStatusesClosed(s);
  }

  /**
   * Every offered button requests under review or rejected, never approved or submitted: the
   * component has no approve action.
   */
  lemma NoApproveAction(status: string, canSubmit: bool, canReject: bool, a: Action)
    requires a in Offered(status, canSubmit, canReject)
    ensures ParseRecordStatus(Target(a)) == Some(if a == SubmitForReview then UnderReview else Rejected)
    ensures Target(a) != RecordStatusName(Approved) && Target(a) != RecordStatusName(Submitted)
  {
    assert ParseRecordStatus("under_review") == Some(UnderReview);
    assert ParseRecordStatus("rejected") == Some(Rejected);
  }

  /** `reason.trim() || undefined`: the trimmed reason, or nothing when it is blank. */
  function RejectReason(reason: string): (r: Option<string>)
    ensures r.None? <==> IsBlank(reason)
    ensures r.Some? ==> r.value != "" && !IsSpace(r.value[0]) && !IsSpace(r.value[|r.value| - 1])
  {
    TrimEmptyIffBlank(reason);
    var t := Trim(reason);
    if t == "" then None else Some(t)
  }

  /** Normalising a normalised reason changes nothing, and a reason sent is already trimmed. */
  lemma RejectReasonIdempotent(reason: string)
    ensures RejectReason(reason).Some? ==> Trim(RejectReason(reason).value) == RejectReason(reason).value
    ensures RejectReason(Trim(reason)) == RejectReason(reason)
  {
    TrimIdempotent(reason);
    TrimEmptyIffBlank(reason);
    TrimEmptyIffBlank(Trim(reason));
  }

  /** `{ status: newStatus, reason }`: an undefined reason is no member at all. */
  function RequestBody(newStatus: string, reason: Option<string>): Value {
    JObject([Member("status", JStr(newStatus))] + (if reason.Some? then [Member("reason", JStr(reason.value))] else []))
  }

  /**
   * The text posted: with no reason only the status member is written, otherwise the status and
   * then the reason.
   */
  lemma RequestText(newStatus: string, reason: Option<string>)
    ensures Stringify(RequestBody(newStatus, reason)) ==
      if reason.None? then "{" + MemberText("status", Quote(newStatus)) + "}"
      else "{" + MemberText("status", Quote(newStatus)) + "," + MemberText("reason", Quote(reason.value)) + "}"
  {
    var s := Member("status", JStr(newStatus));
    if reason.None? {
      assert RequestBody(newStatus, reason) == JObject([s]);
      ObjectTextOne(s);
    } else {
      var m := Member("reason", JStr(reason.value));
      assert RequestBody(newStatus, reason) == JObject([s, m]);
      ObjectTextTwo(s, m);
    }
  }

  /**
   * What the reject button posts: a blank reason is left out of the body altogether, any other
   * reason is sent trimmed.
   */
  lemma RejectRequestText(reason: string)
    ensures Stringify(RequestBody(Target(Reject), RejectReason(reason))) ==
      if IsBlank(reason) then "{" + MemberText("status", Quote(Target(Reject))) + "}"
      else "{" + MemberText("status", Quote(Target(Reject))) + "," + MemberText("reason", Quote(Trim(reason))) + "}"
  {
    RequestText(Target(Reject), RejectReason(reason));
  }

  /** The component's dialog state. */
  datatype DialogState = DialogState(rejectOpen: bool, reason: string, error: Option<string>, loading: bool)

  /**
   * What the request came back with: accepted; refused with the body's `error` (if it had a
   * non-empty one) and the status text; or failed before a reply was read, with the message of
   * the error thrown when it was an `Error`.
   */
  datatype Reply = Accepted | Refused(bodyError: Option<string>, statusText: string) | Failed(message: Option<string>)

  /** The message a failed request leaves in the dialog. */
  function ErrorOf(reply: Reply): (m: string)
    requires !reply.Accepted?
    ensures reply.Refused? && reply.bodyError.Some? && reply.bodyError.value != "" ==> m == reply.bodyError.value
    ensures reply.Refused? && (reply.bodyError.None? || reply.bodyError.value == "") ==> m == reply.statusText
    ensures reply.Failed? ==> m == reply.message.GetOr(UPDATE_FAILED)
  {
    match reply
    case Refused(bodyError, statusText) =>
      if bodyError.Some? && bodyError.value != "" then bodyError.value else statusText
    case Failed(message) => message.GetOr(UPDATE_FAILED)
  }

  /**
   * The state after `updateStatus` settles: a success clears the reason and closes the dialog,
   * a failure keeps both and shows an error; loading ends either way.
   */
  function AfterUpdate(s: DialogState, reply: Reply): (s': DialogState)
    ensures !s'.loading
    ensures reply.Accepted? ==> !s'.rejectOpen && s'.reason == "" && s'.error.None?
    ensures !reply.Accepted? ==>
      s'.rejectOpen == s.rejectOpen && s'.reason == s.reason && s'.error == Some(ErrorOf(reply))
  {
    if reply.Accepted? then DialogState(false, "", None, false)
    else s.(error := Some(ErrorOf(reply)), loading := false)
  }
}

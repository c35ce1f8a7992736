/**
 * The system-action endpoint (`app/api/system-actions/route.ts`): a signed-in caller asks for an
 * automated action to be logged. Four fields are required; the optional ones are nulled when
 * falsy; the caller's id is written into the metadata; the event is appended as a system event.
 * The action type is passed on without being checked against the audit action names.
 */
module SystemActions {
  import opened Wrappers
  import opened Types
  import opened Json
  import opened Audit

  /** The string fields of the JSON body; `None` is a field that is absent or null. */
  datatype SystemActionBody = SystemActionBody(
    studyId: Option<string>,
    actionType: Option<string>,
    targetEntityType: Option<string>,
    targetEntityId: Option<string>,
    previousStateHash: Option<string>,
    newStateHash: Option<string>,
    systemMetadata: Option<Metadata>)

  datatype Response =
    | Unauthorized                // 401, `{ error: 'Unauthorized' }`
    | BadRequest(error: string)   // 400
    | Logged(eventId: Id)         // 200, `{ success: true, eventId, message }`
    | ServerError(error: string)  // 500

  const MISSING_FIELDS: string := "Missing required fields"
  const INTERNAL_ERROR: string := "Internal server error"
  const REQUESTED_BY: string := "requested_by"

  /** `v || null`. */
  function OrNull(v: Option<string>): (r: Option<string>)
    ensures r.Some? <==> Truthy(v)
    ensures r.Some? ==> r == v
  {
    if Truthy(v) then v else None
  }

  /** `!studyId || !actionType || !targetEntityType || !newStateHash`. */
  predicate MissingRequired(body: SystemActionBody) {
    !Truthy(body.studyId) || !Truthy(body.actionType) || !Truthy(body.targetEntityType) || !Truthy(body.newStateHash)
  }

  /** `{ ...systemMetadata, requested_by: user.id }`: the caller's keys, `requested_by` overwritten. */
  function RequestMetadata(systemMetadata: Option<Metadata>, userId: Id): (m: Metadata)
    ensures m.Keys == systemMetadata.GetOr(map[]).Keys + {REQUESTED_BY}
    ensures m[REQUESTED_BY] == JStr(userId)
    ensures forall k :: k in systemMetadata.GetOr(map[]) && k != REQUESTED_BY ==> m[k] == systemMetadata.GetOr(map[])[k]
  {
    systemMetadata.GetOr(map[])[REQUESTED_BY := JStr(userId)]
  }

  /** `error.message || 'Internal server error'`. */
  function ErrorText(message: string): (t: string)
    ensures t != ""
    ensures message != "" ==> t == message
  {
    if message == "" then INTERNAL_ERROR else message
  }

  /**
   * `POST`. `user` is the signed-in user's id, if any; `body` is the parsed JSON body or the
   * message of the parse failure; `outcome` is what the append did.
   */
  method PostSystemAction(
    ledger: AuditLedger, user: Option<Id>, body: Result<SystemActionBody, string>, outcome: AppendOutcome)
    returns (r: Response)
    modifies ledger
    ensures user.None? ==> r == Unauthorized && ledger.events == old(ledger.events)
    ensures user.Some? && body.Err? ==> r == ServerError(ErrorText(body.error)) && ledger.events == old(ledger.events)
    ensures user.Some? && body.Ok? && MissingRequired(body.value) ==>
      r == BadRequest(MISSING_FIELDS) && ledger.events == old(ledger.events)
    ensures user.Some? && body.Ok? && !MissingRequired(body.value) && outcome.AppendFailed? ==>
      r == ServerError(APPEND_ERROR_PREFIX + outcome.message) && ledger.events == old(ledger.events)
    ensures user.Some? && body.Ok? && !MissingRequired(body.value) && outcome.Appended? ==>
      var b := body.value;
      r == Logged(outcome.id) &&
      ledger.events == old(ledger.events) + [EventRow(outcome, b.studyId, Some(SYSTEM_ACTOR_ID), b.actionType.value,
        b.targetEntityType.value, OrNull(b.targetEntityId), OrNull(b.previousStateHash), b.newStateHash.value,
        SystemMetadata(RequestMetadata(b.systemMetadata, user.value)))]
  {
    if user.None? {
      return Unauthorized;
    }
    if body.Err? {
      return ServerError(ErrorText(body.error));
    }
    var b := body.value;
    if MissingRequired(b) {
      return BadRequest(MISSING_FIELDS);
    }
    var created := ledger.CreateSystemAuditEvent(
      b.studyId, b.actionType.value, b.targetEntityType.value, OrNull(b.targetEntityId),
      OrNull(b.previousStateHash), b.newStateHash.value, RequestMetadata(b.systemMetadata, user.value), outcome);
    match created {
      case Ok(id) => r := Logged(id);
      case Err(message) => r := ServerError(ErrorText(message));
    }
  }

  /**
   * The metadata a logged system action carries: the caller's keys, `requested_by` set to the
   * requesting user whatever the caller sent, and `is_system_action` set to true.
   */
  lemma LoggedMetadata(systemMetadata: Option<Metadata>, userId: Id)
    ensures var m := SystemMetadata(RequestMetadata(systemMetadata, userId));
      && m.Keys == systemMetadata.GetOr(map[]).Keys + {REQUESTED_BY, SYSTEM_FLAG}
      && m[REQUESTED_BY] == JStr(userId)
      && m[SYSTEM_FLAG] == JBool(true)
  {
  }

  /** Validation accepts an action type that is none of the seventeen audit action names. */
  lemma ActionTypeUnchecked(body: SystemActionBody)
    requires Truthy(body.studyId) && Truthy(body.targetEntityType) && Truthy(body.newStateHash)
    requires body.actionType == Some("anything")
    ensures !MissingRequired(body)
    ensures !IsActionName(body.actionType.value)
  {
    forall a: AuditActionType ensures ActionName(a) != "anything" {
      assert |ActionName(a)| >= 9;
    }
  }
}

/**
 * The audit ledger (`lib/supabase/audit.ts`). Events are written only through the
 * `create_audit_event` database function, which appends one row; nothing updates or deletes
 * a row. Reads select by target or by study, order newest first and keep at most `limit` rows.
 * The ledger does not check that `previousStateHash` continues any earlier event.
 */
module Audit {
  import opened Wrappers
  import opened Types
  import opened Json

  /**
   * What `create_audit_event` did: it failed with a message, or it stored the event. The row id,
   * event id, timestamp and the actor's role at that time are filled in by the database.
   */
  datatype AppendOutcome =
    | AppendFailed(message: string)
    | Appended(id: Id, eventId: Id, timestamp: int, actorRoleAtTime: Option<string>)

  const APPEND_ERROR_PREFIX: string := "Failed to create audit event: "
  const TRAIL_ERROR_PREFIX: string := "Failed to fetch audit trail: "
  const ALL_EVENTS_ERROR_PREFIX: string := "Failed to fetch audit events: "
  const DEFAULT_TRAIL_LIMIT: nat := 100
  const DEFAULT_ALL_EVENTS_LIMIT: nat := 200
  const SYSTEM_FLAG: string := "is_system_action"

  /** The event row the append stores for the given arguments. */
  function EventRow(
    outcome: AppendOutcome, studyId: Option<Id>, actorId: Option<Id>, actionType: string,
    targetEntityType: string, targetEntityId: Option<Id>, previousStateHash: Option<string>,
    newStateHash: string, metadata: Metadata): AuditEvent
    requires outcome.Appended?
  {
    AuditEvent(outcome.id, outcome.eventId, studyId, actorId, outcome.actorRoleAtTime, actionType,
      targetEntityType, targetEntityId, previousStateHash, newStateHash, outcome.timestamp, metadata)
  }

  /**
   * `{...systemMetadata, is_system_action: true}`: the caller's keys, plus the system flag,
   * which wins over any value the caller gave it.
   */
  function SystemMetadata(systemMetadata: Metadata): (m: Metadata)
    ensures m.Keys == systemMetadata.Keys + {SYSTEM_FLAG}
    ensures m[SYSTEM_FLAG] == JBool(true)
    ensures forall k :: k in systemMetadata && k != SYSTEM_FLAG ==> m[k] == systemMetadata[k]
  {
    systemMetadata[SYSTEM_FLAG := JBool(true)]
  }

  class AuditLedger {
    /** Every stored event, in the order they were appended. */
    var events: seq<AuditEvent>

    constructor ()
      ensures events == []
    {
      events := [];
    }

    /**
     * `createAuditEvent`: forwards its eight arguments to the append unchanged (metadata
     * defaults to an empty map) and answers the new event's id; a failed append becomes an
     * error whose message starts with "Failed to create audit event: " and stores nothing.
     */
    method CreateAuditEvent(
      studyId: Option<Id>, actorId: Option<Id>, actionType: string, targetEntityType: string,
      targetEntityId: Option<Id>, previousStateHash: Option<string>, newStateHash: string,
      metadata: Option<Metadata>, outcome: AppendOutcome)
      returns (r: Result<Id, string>)
      modifies this
      ensures outcome.AppendFailed? ==>
        r == Err(APPEND_ERROR_PREFIX + outcome.message) && events == old(events)
      ensures outcome.Appended? ==> (r == Ok(outcome.id) &&
        events == old(events) + [EventRow(outcome, studyId, actorId, actionType, targetEntityType,
                                          targetEntityId, previousStateHash, newStateHash, metadata.GetOr(map[]))])
    {
      var m := metadata.GetOr(map[]);
      match outcome {
        case AppendFailed(message) =>
          r := Err(APPEND_ERROR_PREFIX + message);
        case Appended(id, _, _, _) =>
          events := events + [EventRow(outcome, studyId, actorId, actionType, targetEntityType,
                                       targetEntityId, previousStateHash, newStateHash, m)];
          r := Ok(id);
      }
    }

    /**
     * `createSystemAuditEvent`: the same append with the system actor as actor and the system
     * flag set in the metadata; every other argument is forwarded unchanged.
     */
    method CreateSystemAuditEvent(
      studyId: Option<Id>, actionType: string, targetEntityType: string, targetEntityId: Option<Id>,
      previousStateHash: Option<string>, newStateHash: string, systemMetadata: Metadata,
      outcome: AppendOutcome)
      returns (r: Result<Id, string>)
      modifies this
      ensures outcome.AppendFailed? ==>
        r == Err(APPEND_ERROR_PREFIX + outcome.message) && events == old(events)
      ensures outcome.Appended? ==> (r == Ok(outcome.id) &&
        events == old(events) + [EventRow(outcome, studyId, Some(SYSTEM_ACTOR_ID), actionType, targetEntityType,
                                          targetEntityId, previousStateHash, newStateHash, SystemMetadata(systemMetadata))])
    {
      r := CreateAuditEvent(studyId, Some(SYSTEM_ACTOR_ID), actionType, targetEntityType, targetEntityId,
                            previousStateHash, newStateHash, Some(SystemMetadata(systemMetadata)), outcome);
    }
  }

  // ---------------------------------------------------------------------------------------
  // Reads: filter, newest first, at most `limit`.

  predicate NewestFirst(es: seq<AuditEvent>) {
    forall i, j :: 0 <= i < j < |es| ==> es[i].timestamp >= es[j].timestamp
  }

  /** Puts `e` in front of the first event that is not newer than it. */
  function InsertNewestFirst(e: AuditEvent, es: seq<AuditEvent>): seq<AuditEvent> {
    if es == [] || es[0].timestamp <= e.timestamp then [e] + es
    else [es[0]] + InsertNewestFirst(e, es[1..])
  }

  /** Inserting adds exactly `e`. */
  lemma {:induction false} InsertNewestFirstPerm(e: AuditEvent, es: seq<AuditEvent>)
    ensures multiset(InsertNewestFirst(e, es)) == multiset(es) + multiset{e}
  {
    if !(es == [] || es[0].timestamp <= e.timestamp) {
      InsertNewestFirstPerm(e, es[1..]);
      assert es == [es[0]] + es[1..];
    }
  }

  lemma {:induction false} InsertNewestFirstMembers(e: AuditEvent, es: seq<AuditEvent>)
    ensures forall x :: x in InsertNewestFirst(e, es) ==> x == e || x in es
  {
    if !(es == [] || es[0].timestamp <= e.timestamp) {
      InsertNewestFirstMembers(e, es[1..]);
    }
  }

  /** Inserting into a newest-first sequence keeps it newest first. */
  lemma {:induction false} InsertNewestFirstSorted(e: AuditEvent, es: seq<AuditEvent>)
    requires NewestFirst(es)
    ensures NewestFirst(InsertNewestFirst(e, es))
  {
    var r := InsertNewestFirst(e, es);
    if es == [] || es[0].timestamp <= e.timestamp {
      forall i, j | 0 <= i < j < |r| ensures r[i].timestamp >= r[j].timestamp {
        if i == 0 && es != [] {
          assert r[j] == es[j - 1];
        }
      }
    } else {
      var tail := es[1..];
      var rest := InsertNewestFirst(e, tail);
      InsertNewestFirstSorted(e, tail);
      InsertNewestFirstMembers(e, tail);
      assert r == [es[0]] + rest;
      forall i, j | 0 <= i < j < |r| ensures r[i].timestamp >= r[j].timestamp {
        if i == 0 {
          assert r[j] in rest;
          if r[j] != e {
            var k :| 0 <= k < |tail| && tail[k] == r[j];
            assert es[k + 1] == r[j];
          }
        } else {
          assert r[i] == rest[i - 1] && r[j] == rest[j - 1];
        }
      }
    }
  }

  /** `.order('timestamp', { ascending: false })`, stable on equal timestamps. */
  function SortNewestFirst(es: seq<AuditEvent>): seq<AuditEvent> {
    if es == [] then [] else InsertNewestFirst(es[0], SortNewestFirst(es[1..]))
  }

  /** Sorting yields a newest-first permutation of its input. */
  lemma {:induction false} SortNewestFirstCorrect(es: seq<AuditEvent>)
    ensures NewestFirst(SortNewestFirst(es))
    ensures multiset(SortNewestFirst(es)) == multiset(es)
  {
    if es != [] {
      SortNewestFirstCorrect(es[1..]);
      InsertNewestFirstSorted(es[0], SortNewestFirst(es[1..]));
      InsertNewestFirstPerm(es[0], SortNewestFirst(es[1..]));
      assert es == [es[0]] + es[1..];
    }
  }

  function Min(a: nat, b: nat): nat {
    if a <= b then a else b
  }

  /**
   * What a newest-first read of at most `limit` rows out of `source` must answer, whatever
   * order the database gives to rows with equal timestamps: rows of `source`, newest first,
   * as many as `limit` allows, and no row left out that is newer than a row kept.
   */
  ghost predicate IsNewestFirstSelection(source: seq<AuditEvent>, r: seq<AuditEvent>, limit: nat) {
    && multiset(r) <= multiset(source)
    && NewestFirst(r)
    && |r| == Min(limit, |source|)
    && forall e, x :: e in multiset(source) - multiset(r) && x in r ==> e.timestamp <= x.timestamp
  }

  /** `.order('timestamp', { ascending: false }).limit(limit)` over the selected rows. */
  function NewestFirstLimited(source: seq<AuditEvent>, limit: nat): seq<AuditEvent> {
    var sorted := SortNewestFirst(source);
    sorted[..Min(limit, |sorted|)]
  }

  /** What is cut off a sequence at `k` is what remains of it after the first `k` elements. */
  lemma CutMultiset(s: seq<AuditEvent>, k: nat)
    requires k <= |s|
    ensures multiset(s[..k]) <= multiset(s)
    ensures multiset(s) - multiset(s[..k]) == multiset(s[k..])
  {
    assert s == s[..k] + s[k..];
  }

  /** In a newest-first sequence nothing after position `k` is newer than anything before it. */
  lemma CutNewestFirst(s: seq<AuditEvent>, k: nat)
    requires k <= |s| && NewestFirst(s)
    ensures NewestFirst(s[..k])
    ensures forall e, x :: e in s[k..] && x in s[..k] ==> e.timestamp <= x.timestamp
  {
    forall e, x | e in s[k..] && x in s[..k] ensures e.timestamp <= x.timestamp {
      var j :| 0 <= j < |s[k..]| && s[k..][j] == e;
      var i :| 0 <= i < k && s[..k][i] == x;
      assert s[i] == x && s[k + j] == e;
    }
  }

  /** Sorting then cutting at `limit` makes a newest-first selection. */
  lemma NewestFirstLimitedSelects(source: seq<AuditEvent>, limit: nat)
    ensures IsNewestFirstSelection(source, NewestFirstLimited(source, limit), limit)
  {
    var sorted := SortNewestFirst(source);
    SortNewestFirstCorrect(source);
    var k := Min(limit, |sorted|);
    CutMultiset(sorted, k);
    CutNewestFirst(sorted, k);
    forall e | e in multiset(source) - multiset(sorted[..k]) ensures e in sorted[k..] {
    }
  }

  /** Every event of a selection comes from its source. */
  lemma SelectionFromSource(source: seq<AuditEvent>, r: seq<AuditEvent>, limit: nat)
    requires IsNewestFirstSelection(source, r, limit)
    ensures forall e :: e in r ==> e in source
  {
    forall e | e in r ensures e in source {
      assert e in multiset(r);
    }
  }

  predicate IsTrailEvent(e: AuditEvent, targetEntityType: string, targetEntityId: Id) {
    e.targetEntityType == targetEntityType && e.targetEntityId == Some(targetEntityId)
  }

  /**
   * `.eq('target_entity_type', …).eq('target_entity_id', …)`: the events of one target, in
   * ledger order and each as often as the ledger holds it (a null target id never matches).
   */
  function TrailEvents(events: seq<AuditEvent>, targetEntityType: string, targetEntityId: Id): (r: seq<AuditEvent>)
    ensures forall e :: e in r <==> e in events && IsTrailEvent(e, targetEntityType, targetEntityId)
    ensures forall e :: multiset(r)[e] == if IsTrailEvent(e, targetEntityType, targetEntityId) then multiset(events)[e] else 0
  {
    if events == [] then []
    else
      var rest := TrailEvents(events[1..], targetEntityType, targetEntityId);
      assert events == [events[0]] + events[1..];
      if IsTrailEvent(events[0], targetEntityType, targetEntityId) then [events[0]] + rest else rest
  }

  /**
   * `getAuditTrail`: the events of one target, newest first, at most `limit` (default 100);
   * a failed read becomes an error.
   */
  function GetAuditTrail(
    events: seq<AuditEvent>, targetEntityType: string, targetEntityId: Id, limit: Option<nat>,
    readError: Option<string>): (r: Result<seq<AuditEvent>, string>)
    ensures readError.Some? ==> r == Err(TRAIL_ERROR_PREFIX + readError.value)
    ensures readError.None? ==> r.Ok?
    ensures r.Ok? ==> forall e :: e in r.value ==> e in events && IsTrailEvent(e, targetEntityType, targetEntityId)
    ensures r.Ok? ==>
      IsNewestFirstSelection(TrailEvents(events, targetEntityType, targetEntityId), r.value, limit.GetOr(DEFAULT_TRAIL_LIMIT))
  {
    if readError.Some? then Err(TRAIL_ERROR_PREFIX + readError.value)
    else
      var source := TrailEvents(events, targetEntityType, targetEntityId);
      var n := limit.GetOr(DEFAULT_TRAIL_LIMIT);
      NewestFirstLimitedSelects(source, n);
      SelectionFromSource(source, NewestFirstLimited(source, n), n);
      Ok(NewestFirstLimited(source, n))
  }

  /** `if (studyId)`: the study filter applies only to a non-empty study id. */
  predicate InScope(e: AuditEvent, studyId: Option<Id>) {
    studyId.None? || studyId.value == "" || e.studyId == studyId
  }

  /** The events `getAllAuditEvents` reads from: all of them unless a non-empty study id is given. */
  function ScopedEvents(events: seq<AuditEvent>, studyId: Option<Id>): (r: seq<AuditEvent>)
    ensures forall e :: e in r <==> e in events && InScope(e, studyId)
    ensures forall e :: multiset(r)[e] == if InScope(e, studyId) then multiset(events)[e] else 0
    ensures studyId.None? || studyId.value == "" ==> r == events
  {
    if events == [] then []
    else
      var rest := ScopedEvents(events[1..], studyId);
      assert events == [events[0]] + events[1..];
      if InScope(events[0], studyId) then [events[0]] + rest else rest
  }

  /**
   * `getAllAuditEvents`: all events, or those of one study when a non-empty study id is given,
   * newest first, at most `limit` (default 200); a failed read becomes an error.
   */
  function GetAllAuditEvents(
    events: seq<AuditEvent>, studyId: Option<Id>, limit: Option<nat>, readError: Option<string>)
    : (r: Result<seq<AuditEvent>, string>)
    ensures readError.Some? ==> r == Err(ALL_EVENTS_ERROR_PREFIX + readError.value)
    ensures readError.None? ==> r.Ok?
    ensures r.Ok? ==> forall e :: e in r.value ==> e in events && InScope(e, studyId)
    ensures r.Ok? ==>
      IsNewestFirstSelection(ScopedEvents(events, studyId), r.value, limit.GetOr(DEFAULT_ALL_EVENTS_LIMIT))
  {
    if readError.Some? then Err(ALL_EVENTS_ERROR_PREFIX + readError.value)
    else
      var source := ScopedEvents(events, studyId);
      var n := limit.GetOr(DEFAULT_ALL_EVENTS_LIMIT);
      NewestFirstLimitedSelects(source, n);
      SelectionFromSource(source, NewestFirstLimited(source, n), n);
      Ok(NewestFirstLimited(source, n))
  }
}

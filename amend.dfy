/**
 * Amending a record (`handleAmend` in `components/records/amend-record-button.tsx`). A reason
 * is required; the current row is read by id; a new row is inserted one version higher that
 * links back to the row that was read, copies its content and record number, starts as a draft
 * and stores the reason as typed. The row that was read is never updated, and nothing checks
 * that it is the newest version of its record.
 */
module Amend {
  import opened Wrappers
  import opened Text
  import opened Types
  import opened Crypto
  import opened Store

  /** What the insert of the new row did: failed with a message, or stored it under a new id. */
  datatype InsertOutcome = InsertFailed(message: string) | Inserted(id: Id)

  const REASON_REQUIRED: string := "Amendment reason is required"
  const FETCH_FAILED: string := "Failed to fetch current record"
  const AMEND_FAILED: string := "Failed to create amendment"

  /** The row `handleAmend` inserts for an amendment of `current`. */
  function AmendmentRow(p: Primitives, current: Record, studyId: Id, newId: Id, userId: Option<Id>, reason: string)
    : Record
  {
    Record(
      id := newId,
      studyId := studyId,
      recordNumber := current.recordNumber,
      version := current.version + 1,
      previousVersionId := Some(current.id),
      status := Draft,
      createdBy := userId,
      content := current.content,
      contentHash := GenerateHash(p, current.content),
      amendmentReason := Some(reason))
  }

  /** `err.message || 'Failed to create amendment'`. */
  function FailureText(message: string): (t: string)
    ensures t != ""
    ensures message != "" ==> t == message
  {
    if message == "" then AMEND_FAILED else message
  }

  /**
   * `handleAmend`. `fetchFault` says the read of the current row reported an error; the insert's
   * result is `insert`. A returned error is the message the dialog shows; `Ok` carries the id of
   * the new row, which the page navigates to.
   */
  method AmendRecord(
    db: Database, p: Primitives, studyId: Id, recordId: Id, amendmentReason: string,
    fetchFault: bool, userId: Option<Id>, insert: InsertOutcome)
    returns (r: Result<Id, string>)
    requires insert.Inserted? ==> !HasId(db.records, insert.id)  // ids come from the table's generator
    modifies db
    ensures db.studies == old(db.studies) && db.members == old(db.members) && db.signatures == old(db.signatures)
    ensures IsBlank(amendmentReason) ==> r == Err(REASON_REQUIRED) && db.records == old(db.records)
    ensures !IsBlank(amendmentReason) && (fetchFault || FindRecord(old(db.records), recordId).None?) ==>
      r == Err(FETCH_FAILED) && db.records == old(db.records)
    ensures !IsBlank(amendmentReason) && !fetchFault && FindRecord(old(db.records), recordId).Some? && insert.InsertFailed? ==>
      r == Err(FailureText(insert.message)) && db.records == old(db.records)
    ensures !IsBlank(amendmentReason) && !fetchFault && FindRecord(old(db.records), recordId).Some? && insert.Inserted? ==>
      r == Ok(insert.id) &&
      db.records == old(db.records) +
        [AmendmentRow(p, FindRecord(old(db.records), recordId).value, studyId, insert.id, userId, amendmentReason)]
    ensures old(db.Valid()) ==> db.Valid()
  {
    // `!amendmentReason.trim()`
    if Trim(amendmentReason) == "" {
      TrimEmptyIffBlank(amendmentReason);
      return Err(REASON_REQUIRED);
    }
    TrimEmptyIffBlank(amendmentReason);
    var current := FindRecord(db.records, recordId);
    if fetchFault || current.None? {
      return Err(FETCH_FAILED);
    }
    match insert {
      case InsertFailed(message) =>
        r := Err(FailureText(message));
      case Inserted(id) =>
        var row := AmendmentRow(p, current.value, studyId, id, userId, amendmentReason);
        if db.Valid() {
          AmendmentKeepsValid(db.records, current.value, row);
        }
        db.records := db.records + [row];
        r := Ok(id);
    }
  }

  /**
   * Appending a row with a fresh id that links to an existing row of a lower version keeps every
   * chain condition.
   */
  lemma AppendChildValid(records: seq<Record>, c: nat, row: Record)
    requires ValidRecords(records) && c < |records|
    requires !HasId(records, row.id)
    requires row.previousVersionId == Some(records[c].id) && records[c].version < row.version
    ensures ValidRecords(records + [row])
  {
    var rs := records + [row];
    var n := |records|;
    assert rs[n] == row;
    forall i, j | 0 <= i < j < |rs| ensures rs[i].id != rs[j].id {
      if j == n {
        assert records[i].id != row.id;
      }
    }
    forall i | 0 <= i < |rs| && rs[i].previousVersionId.Some? ensures HasId(rs, rs[i].previousVersionId.value) {
      if i == n {
        assert rs[c].id == records[c].id;
      } else {
        var k :| 0 <= k < |records| && records[k].id == records[i].previousVersionId.value;
        assert rs[k].id == records[k].id;
      }
    }
    // no link names the fresh id: stored links resolve to stored rows, and the new row links to `c`
    forall ci | 0 <= ci < |rs| ensures rs[ci].previousVersionId != Some(row.id) {
      if ci < n {
        var link := records[ci].previousVersionId;
        assert link.Some? ==> HasId(records, link.value);
      } else {
        assert records[c].id != row.id;
      }
    }
    forall pi, ci | 0 <= pi < |rs| && 0 <= ci < |rs| && rs[ci].previousVersionId == Some(rs[pi].id)
      ensures rs[pi].version < rs[ci].version
    {
      if ci == n {
        var pId := rs[pi].id;
        assert pi < n ==> records[pi].id == pId;
      }
    }
  }

  /** An amendment of a stored row keeps the store well formed when its id is fresh. */
  lemma AmendmentKeepsValid(records: seq<Record>, current: Record, row: Record)
    requires ValidRecords(records) && current in records && !HasId(records, row.id)
    requires row.previousVersionId == Some(current.id) && row.version == current.version + 1
    ensures ValidRecords(records + [row])
  {
    var c :| 0 <= c < |records| && records[c] == current;
    AppendChildValid(records, c, row);
  }

  /**
   * The new row is the next version of the row that was read: one version higher, linked to it,
   * with the same record number and content, a draft, its hash the hash of that content, and the
   * reason kept untrimmed.
   */
  lemma AmendmentIsNextVersion(
    p: Primitives, current: Record, studyId: Id, newId: Id, userId: Option<Id>, reason: string)
    ensures var row := AmendmentRow(p, current, studyId, newId, userId, reason);
      && row.version == current.version + 1
      && row.previousVersionId == Some(current.id)
      && row.recordNumber == current.recordNumber
      && row.status == Draft
      && row.content == current.content
      && GenerateHash(p, row.content) == row.contentHash
      && row.amendmentReason == Some(reason)
      && row.createdBy == userId
  {
  }

  /**
   * Amending the same stored row twice gives two rows with the same version, record number and
   * parent, and the store stays well formed: the versions of a record can fork.
   */
  lemma AmendTwiceForks(
    p: Primitives, records: seq<Record>, current: Record, studyId: Id,
    id1: Id, id2: Id, user1: Option<Id>, user2: Option<Id>, reason1: string, reason2: string)
    requires ValidRecords(records) && current in records
    requires !HasId(records, id1) && !HasId(records, id2) && id1 != id2
    ensures var a := AmendmentRow(p, current, studyId, id1, user1, reason1);
      var b := AmendmentRow(p, current, studyId, id2, user2, reason2);
      && a.id != b.id
      && a.version == b.version
      && a.recordNumber == b.recordNumber
      && a.previousVersionId == b.previousVersionId == Some(current.id)
      && ValidRecords(records + [a] + [b])
  {
    var a := AmendmentRow(p, current, studyId, id1, user1, reason1);
    var b := AmendmentRow(p, current, studyId, id2, user2, reason2);
    AmendmentKeepsValid(records, current, a);
    var ra := records + [a];
    assert current in ra;
    forall k | 0 <= k < |ra| ensures ra[k].id != id2 {
      if k < |records| {
        assert ra[k] == records[k];
      }
    }
    AmendmentKeepsValid(ra, current, b);
  }
}

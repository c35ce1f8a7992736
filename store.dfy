/**
 * The provenance tables the record components read and write: studies, memberships, record
 * versions and signatures. Record versions form parent-pointer chains through
 * `previousVersionId`; the conditions under which those chains are well formed are stated here.
 */
module Store {
  import opened Wrappers
  import opened Types

  /** No two rows share an id (the primary key). */
  predicate UniqueIds(records: seq<Record>) {
    forall i, j :: 0 <= i < j < |records| ==> records[i].id != records[j].id
  }

  predicate HasId(records: seq<Record>, id: Id) {
    exists k :: 0 <= k < |records| && records[k].id == id
  }

  /** Every link names a row that exists (the foreign key on `previous_version_id`). */
  predicate LinksResolve(records: seq<Record>) {
    forall i :: 0 <= i < |records| && records[i].previousVersionId.Some? ==>
      HasId(records, records[i].previousVersionId.value)
  }

  /** A row's parent always has a smaller version, so following links always ends. */
  predicate LinksDescend(records: seq<Record>) {
    forall p, c :: 0 <= p < |records| && 0 <= c < |records| && records[c].previousVersionId == Some(records[p].id) ==>
      records[p].version < records[c].version
  }

  predicate ValidRecords(records: seq<Record>) {
    UniqueIds(records) && LinksResolve(records) && LinksDescend(records)
  }

  /** `.from('records').select('*').eq('id', id).single()`: the row with that id, if any. */
  function FindRecord(records: seq<Record>, id: Id): (r: Option<Record>)
    ensures r.Some? ==> r.value in records && r.value.id == id
    ensures r.None? <==> !HasId(records, id)
  {
    if records == [] then None
    else if records[0].id == id then Some(records[0])
    else
      var r := FindRecord(records[1..], id);
      assert HasId(records[1..], id) ==> HasId(records, id) by {
        if HasId(records[1..], id) {
          var k :| 0 <= k < |records[1..]| && records[1..][k].id == id;
          assert records[k + 1].id == id;
        }
      }
      assert HasId(records, id) ==> HasId(records[1..], id) by {
        if HasId(records, id) {
          var k :| 0 <= k < |records| && records[k].id == id;
          assert records[1..][k - 1].id == id;
        }
      }
      r
  }

  /** `.update({ status }).eq('id', id)`: every row with that id gets the status; nothing else changes. */
  function SetStatus(records: seq<Record>, id: Id, status: RecordStatus): (r: seq<Record>)
    ensures |r| == |records|
    ensures forall i :: 0 <= i < |records| ==>
      r[i] == if records[i].id == id then records[i].(status := status) else records[i]
    ensures forall i :: 0 <= i < |records| ==>
      r[i].id == records[i].id && r[i].previousVersionId == records[i].previousVersionId && r[i].version == records[i].version
  {
    if records == [] then [] else
      [if records[0].id == id then records[0].(status := status) else records[0]] + SetStatus(records[1..], id, status)
  }

  /** Changing statuses keeps every chain condition: ids, links and versions are untouched. */
  lemma SetStatusValid(records: seq<Record>, id: Id, status: RecordStatus)
    requires ValidRecords(records)
    ensures ValidRecords(SetStatus(records, id, status))
  {
    var r := SetStatus(records, id, status);
    assert UniqueIds(r);
    forall i | 0 <= i < |r| && r[i].previousVersionId.Some? ensures HasId(r, r[i].previousVersionId.value) {
      var k :| 0 <= k < |records| && records[k].id == records[i].previousVersionId.value;
      assert r[k].id == records[k].id;
    }
    assert LinksDescend(r);
  }

  class Database {
    var studies: seq<Study>
    var members: seq<StudyMember>
    var records: seq<Record>
    var signatures: seq<Signature>

    constructor ()
      ensures studies == [] && members == [] && records == [] && signatures == []
    {
      studies, members, records, signatures := [], [], [], [];
    }

    predicate Valid()
      reads this
    {
      ValidRecords(records)
    }

    /** `.from('signatures').insert(row)` that succeeded. */
    method InsertSignature(row: Signature)
      modifies this
      ensures signatures == old(signatures) + [row]
      ensures studies == old(studies) && members == old(members) && records == old(records)
    {
      signatures := signatures + [row];
    }

    /** `.from('studies').insert(row)` that succeeded. */
    method InsertStudy(row: Study)
      modifies this
      ensures studies == old(studies) + [row]
      ensures members == old(members) && records == old(records) && signatures == old(signatures)
    {
      studies := studies + [row];
    }

    /** `.from('study_members').insert(row)` that succeeded. */
    method InsertMember(row: StudyMember)
      modifies this
      ensures members == old(members) + [row]
      ensures studies == old(studies) && records == old(records) && signatures == old(signatures)
    {
      members := members + [row];
    }

    /** `.from('records').update({ status }).eq('id', id)`: keeps the chain conditions. */
    method UpdateStatus(id: Id, status: RecordStatus)
      modifies this
      ensures records == SetStatus(old(records), id, status)
      ensures studies == old(studies) && members == old(members) && signatures == old(signatures)
      ensures old(Valid()) ==> Valid()
    {
      if ValidRecords(records) {
        SetStatusValid(records, id, status);
      }
      records := SetStatus(records, id, status);
    }
  }
}

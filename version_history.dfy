/**
 * The version history of a record (`components/records/record-version-history.tsx`). The page
 * fetches the record and the rows whose `previous_version_id` is the record, indexes them by id,
 * finds the record, and walks parent links backwards, prepending each row it reaches. The walk
 * has no cycle guard: it ends only because, on the data it is given, links lead to smaller
 * versions. Since only the record and its children are fetched, the record's own ancestors are
 * never among the rows, so on a well-formed store the history is the record alone.
 */
module VersionHistory {
  import opened Wrappers
  import opened Types
  import opened Store

  /** `current.previous_version_id ? … : null`: a null or empty link ends the walk. */
  function ParentId(r: Record): (p: Option<Id>)
    ensures p.Some? <==> r.previousVersionId.Some? && r.previousVersionId.value != ""
    ensures p.Some? ==> r.previousVersionId == p
  {
    if r.previousVersionId.Some? && r.previousVersionId.value != "" then r.previousVersionId else None
  }

  /**
   * What the backward walk builds from the fetched rows: nothing when the record is not among
   * them; otherwise a run of fetched rows ending with the record (the first fetched row with its
   * id), each row the parent of the next, starting at a row whose parent link is empty or names
   * no fetched row.
   */
  ghost predicate IsVersionChain(versions: seq<Record>, recordId: Id, chain: seq<Record>) {
    && (chain == [] <==> !HasId(versions, recordId))
    && (forall i :: 0 <= i < |chain| ==> chain[i] in versions)
    && (chain != [] ==> Some(chain[|chain| - 1]) == FindRecord(versions, recordId))
    && (forall i :: 0 <= i < |chain| - 1 ==> ParentId(chain[i + 1]) == Some(chain[i].id))
    && (chain != [] ==> ParentId(chain[0]).None? || !HasId(versions, ParentId(chain[0]).value))
  }

  /** The smallest version among the rows (0 for none); every row's version is at least this. */
  function MinVersion(versions: seq<Record>): (lo: int)
    ensures forall i :: 0 <= i < |versions| ==> lo <= versions[i].version
  {
    if versions == [] then 0
    else
      var rest := MinVersion(versions[1..]);
      if |versions| == 1 || versions[0].version <= rest then versions[0].version else rest
  }

  /** A parent reached through a link inside rows whose links descend has a smaller version. */
  lemma ParentIsOlder(versions: seq<Record>, parent: Record, child: Record)
    requires LinksDescend(versions) && parent in versions && child in versions
    requires child.previousVersionId == Some(parent.id)
    ensures parent.version < child.version
  {
    var p :| 0 <= p < |versions| && versions[p] == parent;
    var c :| 0 <= c < |versions| && versions[c] == child;
  }

  /** Each row is its successor's parent and has a smaller version. */
  ghost predicate Linked(chain: seq<Record>) {
    forall i :: 0 <= i < |chain| - 1 ==>
      ParentId(chain[i + 1]) == Some(chain[i].id) && chain[i].version < chain[i + 1].version
  }

  /** Prepending the parent of a chain's first row, with a smaller version, keeps it linked. */
  lemma PrependLinked(row: Record, chain: seq<Record>)
    requires Linked(chain)
    requires chain != [] ==> ParentId(chain[0]) == Some(row.id) && row.version < chain[0].version
    ensures Linked([row] + chain)
  {
    var c := [row] + chain;
    forall i | 0 <= i < |c| - 1
      ensures ParentId(c[i + 1]) == Some(c[i].id) && c[i].version < c[i + 1].version
    {
      if i > 0 {
        assert c[i] == chain[i - 1] && c[i + 1] == chain[i];
      }
    }
  }

  /** `versionMap` holds, under each id of the rows, a row with that id, and nothing else. */
  ghost predicate Indexes(versions: seq<Record>, versionMap: map<Id, Record>) {
    && (forall k :: k in versionMap ==> versionMap[k].id == k && versionMap[k] in versions)
    && (forall k :: HasId(versions, k) ==> k in versionMap)
  }

  /** What the walk knows about the rows prepended so far and the row it will visit next. */
  ghost predicate Walked(versions: seq<Record>, recordId: Id, versionMap: map<Id, Record>,
                         chain: seq<Record>, current: Option<Record>) {
    && (current.Some? ==> current.value in versions)
    && (chain == [] ==> current == FindRecord(versions, recordId))
    && (chain != [] ==> Some(chain[|chain| - 1]) == FindRecord(versions, recordId))
    && (forall i :: 0 <= i < |chain| ==> chain[i] in versions)
    && Linked(chain)
    && (chain != [] && current.Some? ==>
          ParentId(chain[0]) == Some(current.value.id) && current.value.version < chain[0].version)
    && (chain != [] && current.None? ==>
          ParentId(chain[0]).None? || ParentId(chain[0]).value !in versionMap)
  }

  /** The row the walk moves to from `row`: its parent, when the map holds it. */
  function NextRow(versionMap: map<Id, Record>, row: Record): Option<Record> {
    var parentId := ParentId(row);
    if parentId.Some? && parentId.value in versionMap then Some(versionMap[parentId.value]) else None
  }

  /** Prepending the current row and moving to its parent keeps what the walk knows. */
  lemma WalkStep(versions: seq<Record>, recordId: Id, versionMap: map<Id, Record>,
                 chain: seq<Record>, row: Record)
    requires LinksDescend(versions) && Indexes(versions, versionMap)
    requires Walked(versions, recordId, versionMap, chain, Some(row))
    ensures Walked(versions, recordId, versionMap, [row] + chain, NextRow(versionMap, row))
    ensures NextRow(versionMap, row).Some? ==> NextRow(versionMap, row).value.version < row.version
  {
    PrependLinked(row, chain);
    var c := [row] + chain;
    assert c[|c| - 1] == (if chain == [] then row else chain[|chain| - 1]);
    assert forall i :: 0 <= i < |c| ==> c[i] in versions;
    var next := NextRow(versionMap, row);
    if next.Some? {
      ParentIsOlder(versions, next.value, row);
    }
  }

  /** A finished walk is a version chain whose versions increase. */
  lemma WalkDone(versions: seq<Record>, recordId: Id, versionMap: map<Id, Record>, chain: seq<Record>)
    requires Indexes(versions, versionMap) && Walked(versions, recordId, versionMap, chain, None)
    ensures IsVersionChain(versions, recordId, chain)
    ensures forall i :: 0 <= i < |chain| - 1 ==> chain[i].version < chain[i + 1].version
  {
  }

  /** No row after position `j` and before `end` has the id of row `j`. */
  ghost predicate LastWithId(versions: seq<Record>, j: nat, end: nat)
    requires j < end <= |versions|
  {
    forall j' :: j < j' < end ==> versions[j'].id != versions[j].id
  }

  /**
   * The `new Map(versions.map(v => [v.id, v]))`: a later row with the same id replaces an
   * earlier one, so each id maps to the last row that has it.
   */
  method IndexById(versions: seq<Record>) returns (versionMap: map<Id, Record>)
    ensures Indexes(versions, versionMap)
    ensures forall j :: 0 <= j < |versions| && LastWithId(versions, j, |versions|) ==>
      versionMap[versions[j].id] == versions[j]
  {
    versionMap := map[];
    var i := 0;
    while i < |versions|
      invariant 0 <= i <= |versions|
      invariant forall k :: k in versionMap ==> versionMap[k].id == k && versionMap[k] in versions
      invariant forall j :: 0 <= j < i ==> versions[j].id in versionMap
      invariant forall j :: 0 <= j < i && LastWithId(versions, j, i) ==> versionMap[versions[j].id] == versions[j]
    {
      versionMap := versionMap[versions[i].id := versions[i]];
      i := i + 1;
    }
  }

  /**
   * The `versionMap` build, the `find` and the `while` walk. The walk terminates only when links
   * among the fetched rows lead to smaller versions, which is what the precondition says.
   */
  method VersionChain(versions: seq<Record>, recordId: Id) returns (chain: seq<Record>)
    requires LinksDescend(versions)
    ensures IsVersionChain(versions, recordId, chain)
    ensures forall i :: 0 <= i < |chain| - 1 ==> chain[i].version < chain[i + 1].version
  {
    var versionMap := IndexById(versions);
    var lo := MinVersion(versions);
    var current := FindRecord(versions, recordId);
    chain := [];
    while current.Some?
      invariant Walked(versions, recordId, versionMap, chain, current)
      decreases if current.Some? then current.value.version - lo + 1 else 0
    {
      var row := current.value;
      WalkStep(versions, recordId, versionMap, chain, row);
      chain := [row] + chain;
      // `current.previous_version_id ? versionMap.get(current.previous_version_id) : null`
      current := NextRow(versionMap, row);
    }
    WalkDone(versions, recordId, versionMap, chain);
  }

  /** What the page shows. */
  datatype HistoryView =
    | NoHistory                   // "No version history available"
    | Chain(chain: seq<Record>)   // the versions, oldest first

  /**
   * `RecordVersionHistory`: a failed or empty fetch shows the fallback; otherwise the walk
   * from the record over the fetched rows.
   */
  method RecordVersionHistory(fetched: Result<seq<Record>, string>, recordId: Id) returns (view: HistoryView)
    requires fetched.Ok? ==> LinksDescend(fetched.value)
    ensures fetched.Err? || fetched.value == [] <==> view == NoHistory
    ensures view.Chain? ==> IsVersionChain(fetched.value, recordId, view.chain)
  {
    if fetched.Err? || fetched.value == [] {
      return NoHistory;
    }
    var chain := VersionChain(fetched.value, recordId);
    return Chain(chain);
  }

  /** `.or('id.eq.X,previous_version_id.eq.X')`: the rows fetched for record X, in any order. */
  ghost predicate FetchedFor(records: seq<Record>, recordId: Id, versions: seq<Record>) {
    forall v :: v in versions ==> v in records && (v.id == recordId || v.previousVersionId == Some(recordId))
  }

  /** Rows taken from a store whose links descend keep that property. */
  lemma FetchedLinksDescend(records: seq<Record>, recordId: Id, versions: seq<Record>)
    requires LinksDescend(records) && FetchedFor(records, recordId, versions)
    ensures LinksDescend(versions)
  {
    forall p, c | 0 <= p < |versions| && 0 <= c < |versions| && versions[c].previousVersionId == Some(versions[p].id)
      ensures versions[p].version < versions[c].version
    {
      assert versions[p] in versions && versions[c] in versions;
      var pi :| 0 <= pi < |records| && records[pi] == versions[p];
      var ci :| 0 <= ci < |records| && records[ci] == versions[c];
    }
  }

  /** The parent of a record in a well-formed store is never among the rows fetched for it. */
  lemma ParentNotFetched(records: seq<Record>, recordId: Id, versions: seq<Record>, c: Record)
    requires ValidRecords(records) && FetchedFor(records, recordId, versions)
    requires c in records && c.id == recordId && ParentId(c).Some?
    ensures !HasId(versions, ParentId(c).value)
  {
    var parent := ParentId(c).value;
    var ci :| 0 <= ci < |records| && records[ci] == c;
    forall k | 0 <= k < |versions| ensures versions[k].id != parent {
      var v := versions[k];
      assert v in versions;
      var vi :| 0 <= vi < |records| && records[vi] == v;
      var cv, vv := records[ci].version, records[vi].version;
      var cLink, vLink := records[ci].previousVersionId, records[vi].previousVersionId;
      var cId, vId := records[ci].id, records[vi].id;
      assert cLink == Some(vId) ==> vv < cv;
      assert vLink == Some(cId) ==> cv < vv;
      assert cLink == Some(cId) ==> cv < cv;
      assert vi != ci ==> vId != cId;
    }
  }

  /** A chain longer than one means the record's parent was among the fetched rows. */
  lemma ChainStopsAtRecord(versions: seq<Record>, recordId: Id, chain: seq<Record>)
    requires IsVersionChain(versions, recordId, chain) && chain != []
    ensures |chain| >= 2 ==>
      ParentId(chain[|chain| - 1]).Some? && HasId(versions, ParentId(chain[|chain| - 1]).value)
  {
    if |chain| >= 2 {
      var p := chain[|chain| - 2];
      assert ParentId(chain[|chain| - 1]) == Some(p.id);
      assert p in versions;
      var k :| 0 <= k < |versions| && versions[k] == p;
    }
  }

  /**
   * On a well-formed store the history shows at most one version, the record itself: its
   * ancestors are never fetched, whatever order the rows come in.
   */
  lemma HistoryIsRecordAlone(records: seq<Record>, recordId: Id, versions: seq<Record>, chain: seq<Record>)
    requires ValidRecords(records) && FetchedFor(records, recordId, versions)
    requires IsVersionChain(versions, recordId, chain)
    ensures |chain| <= 1
    ensures chain != [] ==> chain[0] in records && chain[0].id == recordId
  {
    if chain != [] {
      var c := chain[|chain| - 1];
      ChainStopsAtRecord(versions, recordId, chain);
      assert c in versions;
      if ParentId(c).Some? {
        ParentNotFetched(records, recordId, versions, c);
      }
    }
  }

  /**
   * One step of the walk over a map from ids to rows, with a bound on the number of steps:
   * `None` when the bound runs out before the walk stops.
   */
  function Walk(versionMap: map<Id, Record>, current: Option<Record>, chain: seq<Record>, fuel: nat)
    : Option<seq<Record>>
    decreases fuel
  {
    if current.None? then Some(chain)
    else if fuel == 0 then None
    else
      Walk(versionMap, NextRow(versionMap, current.value), [current.value] + chain, fuel - 1)
  }

  /**
   * Without the precondition the walk need not end: two rows that name each other as parent
   * keep it going for any number of steps.
   */
  lemma {:induction false} TwoCycleNeverEnds(a: Record, b: Record, chain: seq<Record>, fuel: nat)
    requires a.id != "" && b.id != "" && a.id != b.id
    requires a.previousVersionId == Some(b.id) && b.previousVersionId == Some(a.id)
    ensures Walk(map[a.id := a, b.id := b], Some(a), chain, fuel).None?
    decreases fuel
  {
    var m := map[a.id := a, b.id := b];
    assert m[a.id] == a && m[b.id] == b;
    if fuel >= 2 {
      TwoCycleNeverEnds(a, b, [b] + ([a] + chain), fuel - 2);
    }
  }
}

/**
 * The records list of a study (`components/records/records-list.tsx`). All versions of the
 * study's records are fetched; a `reduce` over them keeps, per record number, the row with the
 * highest version, replacing the kept row only on a strictly higher version, so that on equal
 * versions the first row seen stays.
 */
module RecordsList {
  import opened Wrappers
  import opened Types

  /**
   * Among the first `n` rows, `records[i]` is the one the fold keeps for record number `k`:
   * no row with that number has a higher version, and every earlier one has a lower version.
   */
  ghost predicate KeptAmong(records: seq<Record>, n: nat, k: string, i: nat)
    requires n <= |records|
  {
    && i < n
    && records[i].recordNumber == k
    && (forall j :: 0 <= j < n && records[j].recordNumber == k ==> records[j].version <= records[i].version)
    && (forall j :: 0 <= j < i && records[j].recordNumber == k ==> records[j].version < records[i].version)
  }

  /** The record numbers among the first `n` rows. */
  ghost function NumbersAmong(records: seq<Record>, n: nat): set<string>
    requires n <= |records|
  {
    set j | 0 <= j < n :: records[j].recordNumber
  }

  lemma NumbersStep(records: seq<Record>, n: nat)
    requires n < |records|
    ensures NumbersAmong(records, n + 1) == NumbersAmong(records, n) + {records[n].recordNumber}
  {
  }

  /** A row with another number leaves the kept row as it is. */
  lemma KeptPastOther(records: seq<Record>, n: nat, k: string, i: nat)
    requires n < |records| && KeptAmong(records, n, k, i) && records[n].recordNumber != k
    ensures KeptAmong(records, n + 1, k, i)
  {
  }

  /** A row with the same number and no higher version leaves the kept row as it is. */
  lemma KeptPastNotHigher(records: seq<Record>, n: nat, k: string, i: nat)
    requires n < |records| && KeptAmong(records, n, k, i)
    requires records[n].recordNumber == k && records[n].version <= records[i].version
    ensures KeptAmong(records, n + 1, k, i)
  {
  }

  /** A row with the same number and a strictly higher version replaces the kept row. */
  lemma KeptReplaced(records: seq<Record>, n: nat, k: string, i: nat)
    requires n < |records| && KeptAmong(records, n, k, i)
    requires records[n].recordNumber == k && records[i].version < records[n].version
    ensures KeptAmong(records, n + 1, k, n)
  {
  }

  /** The first row with a number is kept for it. */
  lemma KeptFirst(records: seq<Record>, n: nat)
    requires n < |records| && records[n].recordNumber !in NumbersAmong(records, n)
    ensures KeptAmong(records, n + 1, records[n].recordNumber, n)
  {
    forall j | 0 <= j < n ensures records[j].recordNumber != records[n].recordNumber {
      assert records[j].recordNumber in NumbersAmong(records, n);
    }
  }

  /**
   * After `n` rows the fold holds one entry per record number seen, the row kept for it, and
   * `at` says where that row sits.
   */
  ghost predicate FoldInvariant(records: seq<Record>, n: nat, latest: map<string, Record>, at: map<string, nat>)
    requires n <= |records|
  {
    && latest.Keys == at.Keys == NumbersAmong(records, n)
    && forall k :: k in at ==> KeptAmong(records, n, k, at[k]) && latest[k] == records[at[k]]
  }

  /** A row leaves the kept rows of every other number as they are. */
  lemma FoldOthers(records: seq<Record>, n: nat, at: map<string, nat>)
    requires n < |records|
    requires forall k :: k in at ==> KeptAmong(records, n, k, at[k])
    ensures forall k :: k in at && k != records[n].recordNumber ==> KeptAmong(records, n + 1, k, at[k])
  {
    forall k | k in at && k != records[n].recordNumber ensures KeptAmong(records, n + 1, k, at[k]) {
      KeptPastOther(records, n, k, at[k]);
    }
  }

  /** A row whose number is new, or whose version is strictly higher, is taken. */
  lemma FoldStepTake(records: seq<Record>, n: nat, latest: map<string, Record>, at: map<string, nat>)
    requires n < |records| && FoldInvariant(records, n, latest, at)
    requires var k := records[n].recordNumber; k !in latest || latest[k].version < records[n].version
    ensures var k := records[n].recordNumber; FoldInvariant(records, n + 1, latest[k := records[n]], at[k := n])
  {
    var k := records[n].recordNumber;
    NumbersStep(records, n);
    FoldOthers(records, n, at);
    if k in latest {
      KeptReplaced(records, n, k, at[k]);
    } else {
      KeptFirst(records, n);
    }
    var latest', at' := latest[k := records[n]], at[k := n];
    forall k' | k' in at' ensures KeptAmong(records, n + 1, k', at'[k']) && latest'[k'] == records[at'[k']] {
    }
  }

  /** A row with a number already held at no lower version is passed over. */
  lemma FoldStepKeep(records: seq<Record>, n: nat, latest: map<string, Record>, at: map<string, nat>)
    requires n < |records| && FoldInvariant(records, n, latest, at)
    requires var k := records[n].recordNumber; k in latest && latest[k].version >= records[n].version
    ensures FoldInvariant(records, n + 1, latest, at)
  {
    var k := records[n].recordNumber;
    NumbersStep(records, n);
    FoldOthers(records, n, at);
    KeptPastNotHigher(records, n, k, at[k]);
  }

  /** Once every row is folded in, each entry holds the row kept for its number. */
  lemma FoldDone(records: seq<Record>, latest: map<string, Record>, at: map<string, nat>)
    requires FoldInvariant(records, |records|, latest, at)
    ensures forall k :: k in latest ==>
      exists i :: 0 <= i < |records| && KeptAmong(records, |records|, k, i) && latest[k] == records[i]
  {
    forall k | k in latest
      ensures exists i :: 0 <= i < |records| && KeptAmong(records, |records|, k, i) && latest[k] == records[i]
    {
      assert KeptAmong(records, |records|, k, at[k]);
    }
  }

  /**
   * `records.reduce((acc, record) => …, {})`: one entry per record number, holding the row
   * with that number's highest version, the earliest such row on ties.
   */
  method LatestVersions(records: seq<Record>) returns (latest: map<string, Record>)
    ensures latest.Keys == NumbersAmong(records, |records|)
    ensures forall k :: k in latest ==>
      exists i :: 0 <= i < |records| && KeptAmong(records, |records|, k, i) && latest[k] == records[i]
  {
    latest := map[];
    ghost var at: map<string, nat> := map[];
    var n := 0;
    while n < |records|
      invariant 0 <= n <= |records|
      invariant FoldInvariant(records, n, latest, at)
    {
      var r := records[n];
      var k := r.recordNumber;
      // `!acc[k] || acc[k].version < record.version`
      if k !in latest || latest[k].version < r.version {
        FoldStepTake(records, n, latest, at);
        latest := latest[k := r];
        at := at[k := n];
      } else {
        FoldStepKeep(records, n, latest, at);
      }
      n := n + 1;
    }
    FoldDone(records, latest, at);
  }

  /** Two rows the fold may keep for the same number are the same row: the kept row is determined. */
  lemma KeptIsUnique(records: seq<Record>, k: string, i: nat, i': nat)
    requires KeptAmong(records, |records|, k, i) && KeptAmong(records, |records|, k, i')
    ensures i == i'
  {
    var v, v' := records[i].version, records[i'].version;
    assert v <= v' && v' <= v;
  }

  /** What the page shows. */
  datatype RecordsView =
    | LoadError(message: string)           // "Error loading records: …"
    | NoRecords                            // the empty state
    | Latest(rows: map<string, Record>)    // one row per record number

  method ShowRecords(fetched: Result<seq<Record>, string>) returns (view: RecordsView)
    ensures fetched.Err? <==> view.LoadError?
    ensures fetched.Err? ==> view.message == fetched.error
    ensures fetched.Ok? && fetched.value == [] <==> view == NoRecords
    ensures view.Latest? ==> fetched.Ok? && view.rows.Keys == NumbersAmong(fetched.value, |fetched.value|)
    ensures view.Latest? ==> forall k :: k in view.rows ==>
      exists i :: 0 <= i < |fetched.value| && KeptAmong(fetched.value, |fetched.value|, k, i) &&
        view.rows[k] == fetched.value[i]
  {
    if fetched.Err? {
      return LoadError(fetched.error);
    }
    if fetched.value == [] {
      return NoRecords;
    }
    var latest := LatestVersions(fetched.value);
    return Latest(latest);
  }
}

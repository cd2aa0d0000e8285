/** One run of the loader after its argument check: staging is truncated, the
    file's rows are normalised and loaded into staging, one row per key is
    promoted to the permanent table, the other rows are exported as
    duplicates, and the permanent table's size is reported. */
module Pipeline {
  import opened Results
  import opened Trips
  import opened Normalise
  import opened Batching
  import opened Dedup

  /** What a completed run leaves behind and prints. */
  datatype Report = Report(
    processed: nat,                  // "Processed {rowCount} rows from CSV."
    staging: seq<TripRecord>,        // Staging_CabTrips after the load
    permanent: seq<TripRecord>,      // CabTrips after the insert
    exported: seq<TripRecord>,       // the rows of duplicates.csv
    duplicateCount: nat,             // "Exported {duplicateCount} duplicate rows"
    finalCount: nat)                 // "Number of rows in CabTrips: {rowCount}"

  /** The engine's reading order of staging: some reordering of its rows. */
  ghost predicate Reorders(tieBreak: seq<TripRecord> -> seq<TripRecord>) {
    forall s :: multiset(tieBreak(s)) == multiset(s)
  }

  /** The run, with the deduplication reading staging in one order for both
      the promotion and the export. A failed final bulk write aborts the run
      before anything is promoted. */
  method RunEtl(permanent: seq<TripRecord>, rows: seq<RawRow>, p: Parsers, batchSize: nat,
                flushOk: nat -> bool, tieBreak: seq<TripRecord> -> seq<TripRecord>)
    returns (r: Result<Report>)
    requires 0 < batchSize
    requires Reorders(tieBreak)
    ensures (forall k: nat :: flushOk(k)) ==> r.Ok?
    ensures r.Err? <==> Load(NormaliseAll(rows, p), batchSize, flushOk).Err?
    ensures r.Ok? ==> r.value.staging == Successes(NormaliseAll(rows, p))
    ensures r.Ok? ==> r.value.processed == |r.value.staging|
    ensures r.Ok? ==> r.value.finalCount == |r.value.permanent| == |permanent| + |KeySet(r.value.staging)|
    ensures r.Ok? ==> r.value.permanent[..|permanent|] == permanent
    ensures r.Ok? ==> multiset(r.value.permanent[|permanent|..]) + multiset(r.value.exported)
                      == multiset(r.value.staging)
    ensures r.Ok? ==> forall k :: CountKey(r.value.permanent[|permanent|..], k)
                                  == (if k in KeySet(r.value.staging) then 1 else 0)
    ensures r.Ok? ==> r.value.duplicateCount == |r.value.exported|
                      == r.value.processed - |KeySet(r.value.staging)|
  {
    var loaded := ProcessCsv(rows, p, batchSize, flushOk);
    if loaded.Err? {
      return Err(loaded.msg);
    }
    var staging := Flatten(loaded.value.batches);
    var scan := tieBreak(staging);
    var split := Deduplicate(staging, scan);
    var permanent' := InsertUniqueRecords(permanent, scan);
    var exported, duplicateCount := ExportDuplicates(scan);
    assert permanent'[|permanent|..] == split.promoted;
    assert exported == split.duplicates;
    r := Ok(Report(loaded.value.rowCount, staging, permanent', exported, duplicateCount, |permanent'|));
  }
}

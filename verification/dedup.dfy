/** Deduplication and promotion. Both statements number the staged rows with
    `ROW_NUMBER() OVER (PARTITION BY pickup, dropoff, passenger_count ORDER BY
    (SELECT NULL))`; the row numbered 1 in each partition is inserted into the
    permanent table and the rows numbered above 1 are exported as duplicates.
    `ORDER BY (SELECT NULL)` leaves the order inside a partition to the
    engine, so the model takes the order in which the engine reads staging
    (`scan`, any reordering of the staged rows) as a parameter: a row's number
    is one more than the rows with its key read before it. Every choice of
    representatives arises from some scan (`AnyRowCanBePromoted`), so nothing
    here depends on which duplicate survives. */
module Dedup {
  import opened Trips

  /** The number of rows of `s` whose key is `k` (the size of a partition). */
  function CountKey(s: seq<TripRecord>, k: TripKey): nat {
    if s == [] then 0
    else CountKey(s[..|s| - 1], k) + (if KeyOf(s[|s| - 1]) == k then 1 else 0)
  }

  /** The keys present in `s` (its partitions). */
  function KeySet(s: seq<TripRecord>): set<TripKey> {
    set r | r in s :: KeyOf(r)
  }

  lemma {:induction false} CountKeyAppend(a: seq<TripRecord>, b: seq<TripRecord>, k: TripKey)
    ensures CountKey(a + b, k) == CountKey(a, k) + CountKey(b, k)
    decreases |b|
  {
    if b == [] {
      assert a + b == a;
    } else {
      assert (a + b)[..|a + b| - 1] == a + b[..|b| - 1];
      CountKeyAppend(a, b[..|b| - 1], k);
    }
  }

  lemma KeySetSnoc(s: seq<TripRecord>, x: TripRecord)
    ensures KeySet(s + [x]) == KeySet(s) + {KeyOf(x)}
  {
    assert forall r :: r in s + [x] <==> r in s || r == x;
  }

  /** A key has a non-empty partition exactly when it is present. */
  lemma {:induction false} CountKeyPositive(s: seq<TripRecord>, k: TripKey)
    ensures CountKey(s, k) > 0 <==> k in KeySet(s)
    decreases |s|
  {
    if s != [] {
      var p := s[..|s| - 1];
      assert s == p + [s[|s| - 1]];
      KeySetSnoc(p, s[|s| - 1]);
      CountKeyPositive(p, k);
    }
  }

  /** ROW_NUMBER of the row at position `i` of the scan within its partition.
      It is 1 exactly when no earlier row of the scan has the same key. */
  function RowNumber(scan: seq<TripRecord>, i: nat): (rn: nat)
    requires i < |scan|
    ensures 1 <= rn <= CountKey(scan, KeyOf(scan[i]))
    ensures rn == 1 <==> KeyOf(scan[i]) !in KeySet(scan[..i])
  {
    var k := KeyOf(scan[i]);
    CountKeyPositive(scan[..i], k);
    assert scan == scan[..i] + scan[i..];
    CountKeyAppend(scan[..i], scan[i..], k);
    assert scan[i..] == [scan[i]] + scan[i + 1..];
    CountKeyAppend([scan[i]], scan[i + 1..], k);
    assert [scan[i]][..0] == [];
    1 + CountKey(scan[..i], k)
  }

  /** Row numbers are a valid numbering of each partition: distinct and
      increasing in scan order within a partition, and (with the bounds of
      `RowNumber`) drawn from 1 to the partition's size. */
  lemma RowNumbersIncrease(scan: seq<TripRecord>, i: nat, j: nat)
    requires i < j < |scan|
    requires KeyOf(scan[i]) == KeyOf(scan[j])
    ensures RowNumber(scan, i) < RowNumber(scan, j)
  {
    var k := KeyOf(scan[i]);
    assert scan[..j] == scan[..i] + [scan[i]] + scan[i + 1..j];
    CountKeyAppend(scan[..i] + [scan[i]], scan[i + 1..j], k);
    CountKeyAppend(scan[..i], [scan[i]], k);
    assert [scan[i]][..0] == [];
  }

  /** The rows numbered 1 (`WHERE rn = 1`), in scan order. */
  function Promoted(scan: seq<TripRecord>): (r: seq<TripRecord>)
    ensures |r| <= |scan|
    ensures scan != [] ==> r != [] && r[0] == scan[0]
  {
    if scan == [] then []
    else
      var p := scan[..|scan| - 1];
      var x := scan[|scan| - 1];
      assert scan == p + [x];
      Promoted(p) + (if RowNumber(scan, |scan| - 1) == 1 then [x] else [])
  }

  /** The rows numbered above 1 (`WHERE rn > 1`), in scan order. */
  function Duplicates(scan: seq<TripRecord>): (r: seq<TripRecord>)
    ensures |r| <= |scan|
    ensures forall i :: 0 <= i < |r| ==> CountKey(scan, KeyOf(r[i])) >= 2
  {
    if scan == [] then []
    else
      var p := scan[..|scan| - 1];
      var x := scan[|scan| - 1];
      assert scan == p + [x];
      var r := Duplicates(p) + (if RowNumber(scan, |scan| - 1) > 1 then [x] else []);
      assert forall k :: CountKey(p, k) <= CountKey(scan, k) by {
        forall k ensures CountKey(p, k) <= CountKey(scan, k) {
          CountKeyAppend(p, [x], k);
        }
      }
      r
  }

  /** The promoted rows are staged rows. */
  lemma PromotedFromScan(scan: seq<TripRecord>)
    ensures multiset(Promoted(scan)) <= multiset(scan)
  {
    PartitionCovers(scan);
  }

  /** The duplicates are staged rows. */
  lemma DuplicatesFromScan(scan: seq<TripRecord>)
    ensures multiset(Duplicates(scan)) <= multiset(scan)
  {
    PartitionCovers(scan);
  }

  /** Every scanned row is either promoted or a duplicate, never both, and
      none is lost: together they are the staged rows. */
  lemma {:induction false} PartitionCovers(scan: seq<TripRecord>)
    ensures multiset(Promoted(scan)) + multiset(Duplicates(scan)) == multiset(scan)
    decreases |scan|
  {
    if scan != [] {
      var p := scan[..|scan| - 1];
      PartitionCovers(p);
      assert scan == p + [scan[|scan| - 1]];
    }
  }

  /** Exactly one row per key present in staging is promoted. */
  lemma PromotedOnePerKey(scan: seq<TripRecord>)
    ensures forall k :: CountKey(Promoted(scan), k) == (if k in KeySet(scan) then 1 else 0)
  {
    forall k ensures CountKey(Promoted(scan), k) == (if k in KeySet(scan) then 1 else 0) {
      PromotedCountKey(scan, k);
    }
  }

  lemma {:induction false} PromotedCountKey(scan: seq<TripRecord>, k: TripKey)
    ensures CountKey(Promoted(scan), k) == (if k in KeySet(scan) then 1 else 0)
    decreases |scan|
  {
    if scan != [] {
      var p := scan[..|scan| - 1];
      var x := scan[|scan| - 1];
      PromotedCountKey(p, k);
      assert scan == p + [x];
      KeySetSnoc(p, x);
      var added := if RowNumber(scan, |scan| - 1) == 1 then [x] else [];
      assert Promoted(scan) == Promoted(p) + added;
      CountKeyAppend(Promoted(p), added, k);
      assert scan[..|scan| - 1] == p;
      assert added != [] <==> KeyOf(x) !in KeySet(p);
      if added != [] {
        assert added == [x] && added[..0] == [];
        assert CountKey(added, k) == (if KeyOf(x) == k then 1 else 0);
      } else {
        assert CountKey(added, k) == 0;
      }
      assert k in KeySet(scan) <==> k in KeySet(p) || k == KeyOf(x);
    }
  }

  /** Each partition contributes its size less one to the duplicates. */
  lemma {:induction false} DuplicatesPerKey(scan: seq<TripRecord>)
    ensures forall k :: CountKey(Duplicates(scan), k)
                        == CountKey(scan, k) - (if k in KeySet(scan) then 1 else 0)
    decreases |scan|
  {
    if scan != [] {
      var p := scan[..|scan| - 1];
      var x := scan[|scan| - 1];
      DuplicatesPerKey(p);
      assert scan == p + [x];
      KeySetSnoc(p, x);
      var added := if RowNumber(scan, |scan| - 1) > 1 then [x] else [];
      forall k ensures CountKey(Duplicates(scan), k)
                       == CountKey(scan, k) - (if k in KeySet(scan) then 1 else 0) {
        CountKeyAppend(Duplicates(p), added, k);
        CountKeyPositive(p, k);
        if added != [] {
          assert added == [x] && added[..0] == [];
        }
      }
    }
  }

  /** One row is promoted per distinct key. */
  lemma {:induction false} PromotedSize(scan: seq<TripRecord>)
    ensures |Promoted(scan)| == |KeySet(scan)|
    decreases |scan|
  {
    if scan != [] {
      var p := scan[..|scan| - 1];
      var x := scan[|scan| - 1];
      PromotedSize(p);
      assert scan == p + [x];
      KeySetSnoc(p, x);
      assert scan[..|scan| - 1] == p;
      if KeyOf(x) in KeySet(p) {
        assert KeySet(scan) == KeySet(p);
      } else {
        assert |KeySet(p) + {KeyOf(x)}| == |KeySet(p)| + 1;
      }
    }
  }

  /** The number of duplicates is the number of staged rows less the number
      of distinct keys. */
  lemma DuplicatesSize(scan: seq<TripRecord>)
    ensures |Duplicates(scan)| == |scan| - |KeySet(scan)|
  {
    PartitionCovers(scan);
    PromotedSize(scan);
    assert |multiset(Promoted(scan))| + |multiset(Duplicates(scan))| == |multiset(scan)|;
  }

  /** The tie-break is the engine's: any staged row is promoted under some
      scan order, so the model promises nothing about which row of a
      partition survives. */
  lemma AnyRowCanBePromoted(staged: seq<TripRecord>, i: nat)
    requires i < |staged|
    ensures var scan := [staged[i]] + staged[..i] + staged[i + 1..];
            multiset(scan) == multiset(staged) && staged[i] in Promoted(scan)
  {
    var scan := [staged[i]] + staged[..i] + staged[i + 1..];
    assert staged == staged[..i] + [staged[i]] + staged[i + 1..];
  }

  /** The keys, and so the counts, depend only on which rows are staged and
      not on the scan order. */
  lemma SameRowsSameKeys(s1: seq<TripRecord>, s2: seq<TripRecord>)
    requires multiset(s1) == multiset(s2)
    ensures KeySet(s1) == KeySet(s2)
    ensures forall k :: CountKey(s1, k) == CountKey(s2, k)
  {
    forall r ensures r in s1 <==> r in s2 {
      assert r in s1 <==> r in multiset(s1);
      assert r in s2 <==> r in multiset(s2);
    }
    forall k ensures CountKey(s1, k) == CountKey(s2, k) {
      CountKeyPermutation(s1, s2, k);
    }
  }

  lemma RemoveAt(s: seq<TripRecord>, j: nat, k: TripKey)
    requires j < |s|
    ensures multiset(s[..j] + s[j + 1..]) == multiset(s) - multiset{s[j]}
    ensures CountKey(s, k) == CountKey(s[..j] + s[j + 1..], k) + (if KeyOf(s[j]) == k then 1 else 0)
  {
    assert s == s[..j] + [s[j]] + s[j + 1..];
    assert multiset(s) == multiset(s[..j]) + multiset{s[j]} + multiset(s[j + 1..]);
    CountKeyAppend(s[..j] + [s[j]], s[j + 1..], k);
    CountKeyAppend(s[..j], [s[j]], k);
    CountKeyAppend(s[..j], s[j + 1..], k);
    assert [s[j]][..0] == [];
  }

  /** Partition sizes are invariant under reordering. */
  lemma {:induction false} CountKeyPermutation(s1: seq<TripRecord>, s2: seq<TripRecord>, k: TripKey)
    requires multiset(s1) == multiset(s2)
    ensures CountKey(s1, k) == CountKey(s2, k)
    decreases |s1|
  {
    if s1 == [] {
      assert |s2| == |multiset(s2)| == 0;
    } else {
      var n := |s1| - 1;
      var x := s1[n];
      assert x in multiset(s2);
      var j :| 0 <= j < |s2| && s2[j] == x;
      RemoveAt(s1, n, k);
      RemoveAt(s2, j, k);
      assert s1[..n] + s1[n + 1..] == s1[..n];
      CountKeyPermutation(s1[..n], s2[..j] + s2[j + 1..], k);
    }
  }

  /** `ROW_NUMBER` as the engine evaluates it: one pass over the scan with a
      running counter per partition. */
  method RowNumbers(scan: seq<TripRecord>) returns (rn: seq<nat>)
    ensures |rn| == |scan|
    ensures forall i :: 0 <= i < |scan| ==> rn[i] == RowNumber(scan, i)
  {
    var seen: map<TripKey, nat> := map[];
    rn := [];
    var i := 0;
    while i < |scan|
      invariant 0 <= i <= |scan| && |rn| == i
      invariant forall j :: 0 <= j < i ==> rn[j] == RowNumber(scan, j)
      invariant forall k :: CountKey(scan[..i], k) == (if k in seen then seen[k] else 0)
    {
      var k := KeyOf(scan[i]);
      var c := if k in seen then seen[k] else 0;
      assert c + 1 == RowNumber(scan, i);
      rn := rn + [c + 1];
      seen := seen[k := c + 1];
      assert scan[..i + 1][..i] == scan[..i];
      i := i + 1;
    }
  }

  /** `InsertUniqueRecords`: the promoted rows are appended to the permanent
      table; rows already there stay, and every key present in staging gains
      exactly one row. */
  function InsertUniqueRecords(permanent: seq<TripRecord>, scan: seq<TripRecord>): (r: seq<TripRecord>)
    ensures |r| == |permanent| + |KeySet(scan)|
    ensures r[..|permanent|] == permanent
    ensures multiset(r[|permanent|..]) <= multiset(scan)
    ensures forall k :: CountKey(r, k) == CountKey(permanent, k) + (if k in KeySet(scan) then 1 else 0)
  {
    PromotedSize(scan);
    PromotedOnePerKey(scan);
    var r := permanent + Promoted(scan);
    assert forall k :: CountKey(r, k) == CountKey(permanent, k) + CountKey(Promoted(scan), k) by {
      forall k ensures CountKey(r, k) == CountKey(permanent, k) + CountKey(Promoted(scan), k) {
        CountKeyAppend(permanent, Promoted(scan), k);
      }
    }
    assert r[|permanent|..] == Promoted(scan);
    PromotedFromScan(scan);
    r
  }

  /** `ExportDuplicates`: the rows numbered above 1 are written out, one
      record each, and counted. The count is the number of staged rows less
      the number of distinct keys. */
  method ExportDuplicates(scan: seq<TripRecord>) returns (exported: seq<TripRecord>, duplicateCount: nat)
    ensures exported == Duplicates(scan)
    ensures duplicateCount == |exported| == |scan| - |KeySet(scan)|
    ensures forall k :: CountKey(exported, k) == CountKey(scan, k) - (if k in KeySet(scan) then 1 else 0)
  {
    var rn := RowNumbers(scan);
    exported := [];
    duplicateCount := 0;
    var i := 0;
    while i < |scan|
      invariant 0 <= i <= |scan|
      invariant exported == Duplicates(scan[..i])
      invariant duplicateCount == |exported|
    {
      assert scan[..i + 1][..i] == scan[..i];
      assert RowNumber(scan[..i + 1], i) == RowNumber(scan, i);
      if rn[i] > 1 {
        exported := exported + [scan[i]];
        duplicateCount := duplicateCount + 1;
      }
      i := i + 1;
    }
    assert scan[..|scan|] == scan;
    DuplicatesSize(scan);
    DuplicatesPerKey(scan);
  }

  /** Promotion and export evaluated over one shared numbering of staging. */
  datatype Split = Split(promoted: seq<TripRecord>, duplicates: seq<TripRecord>)

  /** Deduplication with one numbering shared by promotion and export: the
      promoted rows and the duplicates partition the staged rows, one row per
      key is promoted, and each key's other rows are duplicates. */
  function Deduplicate(staged: seq<TripRecord>, scan: seq<TripRecord>): (r: Split)
    requires multiset(scan) == multiset(staged)
    ensures multiset(r.promoted) + multiset(r.duplicates) == multiset(staged)
    ensures forall k :: CountKey(r.promoted, k) == (if k in KeySet(staged) then 1 else 0)
    ensures forall k :: CountKey(r.duplicates, k) == CountKey(staged, k) - (if k in KeySet(staged) then 1 else 0)
    ensures |r.promoted| == |KeySet(staged)|
    ensures |r.duplicates| == |staged| - |KeySet(staged)|
  {
    PartitionCovers(scan);
    PromotedOnePerKey(scan);
    DuplicatesPerKey(scan);
    PromotedSize(scan);
    DuplicatesSize(scan);
    SameRowsSameKeys(scan, staged);
    assert |scan| == |multiset(scan)| == |staged|;
    Split(Promoted(scan), Duplicates(scan))
  }

  /** The two statements as the loader issues them: each computes its own
      numbering, so each reads staging in its own order. */
  function DedupAsWritten(insertScan: seq<TripRecord>, exportScan: seq<TripRecord>): (r: Split)
    ensures multiset(r.promoted) <= multiset(insertScan)
    ensures multiset(r.duplicates) <= multiset(exportScan)
  {
    PromotedFromScan(insertScan);
    DuplicatesFromScan(exportScan);
    Split(Promoted(insertScan), Duplicates(exportScan))
  }

  /** Even as written, the counts are right: they do not depend on the scan. */
  lemma AsWrittenCountsHold(staged: seq<TripRecord>, insertScan: seq<TripRecord>, exportScan: seq<TripRecord>)
    requires multiset(insertScan) == multiset(staged) && multiset(exportScan) == multiset(staged)
    ensures |DedupAsWritten(insertScan, exportScan).promoted| == |KeySet(staged)|
    ensures |DedupAsWritten(insertScan, exportScan).duplicates| == |staged| - |KeySet(staged)|
  {
    PromotedSize(insertScan);
    DuplicatesSize(exportScan);
    SameRowsSameKeys(insertScan, staged);
    SameRowsSameKeys(exportScan, staged);
    assert |insertScan| == |multiset(insertScan)| == |staged|;
    assert |exportScan| == |multiset(exportScan)| == |staged|;
  }

  /** Two trips with the same key and different fares. */
  const TripA: TripRecord := TripRecord(0, 0, 1, Decimal(0, 0), FlagNo, 1, 1, Decimal(500, 2), Decimal(0, 0))
  const TripB: TripRecord := TripRecord(0, 0, 1, Decimal(0, 0), FlagNo, 1, 1, Decimal(700, 2), Decimal(0, 0))

  /** As written, the two numberings can disagree: with staging [A, B] read
      as [A, B] by the insert and as [B, A] by the export, A is both promoted
      and exported, and B is neither. */
  lemma AsWrittenCanLoseRows()
    ensures DedupAsWritten([TripA, TripB], [TripB, TripA]) == Split([TripA], [TripA])
    ensures multiset(DedupAsWritten([TripA, TripB], [TripB, TripA]).promoted)
            + multiset(DedupAsWritten([TripA, TripB], [TripB, TripA]).duplicates)
            != multiset([TripA, TripB])
  {
    var s1 := [TripA, TripB];
    var s2 := [TripB, TripA];
    assert KeyOf(TripA) == KeyOf(TripB);
    assert s1[..1] == [TripA] && s2[..1] == [TripB];
    assert KeySet([TripA]) == {KeyOf(TripA)} by { KeySetSnoc([], TripA); }
    assert KeySet([TripB]) == {KeyOf(TripB)} by { KeySetSnoc([], TripB); }
    assert [TripA][..0] == [] && [TripB][..0] == [];
    assert Promoted([TripA]) == [TripA];
    assert Promoted(s1) == [TripA];
    assert Duplicates([TripB]) == [];
    assert Duplicates(s2) == [TripA];
    assert TripB !in multiset([TripA]) + multiset([TripA]);
    assert TripB in multiset(s1);
  }
}

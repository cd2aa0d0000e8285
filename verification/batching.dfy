/** The loader loop: normalised rows are buffered in memory, the buffer is
    bulk-written to the staging table each time the number of accepted rows
    reaches a multiple of the batch size, and a non-empty remainder is written
    once after the last row. A bulk write can fail; which of the numbered
    bulk-write calls succeed is a parameter, `flushOk`. */
module Batching {
  import opened Results
  import opened Trips
  import opened Normalise

  /** The batch size the loader is configured with. */
  const BatchSize: nat := 10000

  /** The loader's state between rows: the in-memory data table (`buffer`),
      the count of accepted rows, the batches written to staging so far, in
      order, and the number of bulk-write calls made, successful or not. */
  datatype Acc = Acc(buffer: seq<TripRecord>, rowCount: nat, batches: seq<seq<TripRecord>>, calls: nat)

  const Start: Acc := Acc([], 0, [], 0)

  /** The records of the rows that normalised, in input order. */
  function Successes(os: seq<Result<TripRecord>>): seq<TripRecord> {
    if os == [] then []
    else Successes(os[..|os| - 1]) + (if os[|os| - 1].Ok? then [os[|os| - 1].value] else [])
  }

  /** The rows of a sequence of batches, batch after batch. */
  function Flatten(bs: seq<seq<TripRecord>>): seq<TripRecord> {
    if bs == [] then [] else Flatten(bs[..|bs| - 1]) + bs[|bs| - 1]
  }

  lemma FlattenAppend(bs: seq<seq<TripRecord>>, b: seq<TripRecord>)
    ensures Flatten(bs + [b]) == Flatten(bs) + b
  {
    assert (bs + [b])[..|bs|] == bs;
  }

  /** The normalisation outcome of every decoded row, in input order. */
  function NormaliseAll(rows: seq<RawRow>, p: Parsers): (os: seq<Result<TripRecord>>)
    ensures |os| == |rows|
    ensures forall i :: 0 <= i < |rows| ==> os[i] == NormaliseRow(rows[i], p)
  {
    seq(|rows|, i requires 0 <= i < |rows| => NormaliseRow(rows[i], p))
  }

  /** One pass of the loop body. A failed row leaves the state as it was. An
      accepted row is appended to the buffer and counted; when the count is a
      multiple of the batch size the buffer is bulk-written and cleared. A
      failing bulk write throws inside the per-row `try`: the failure is
      reported as a skipped row, and the buffer keeps its rows. */
  function Step(acc: Acc, o: Result<TripRecord>, batchSize: nat, flushOk: nat -> bool): (r: Acc)
    requires 0 < batchSize
    ensures o.Err? ==> r == acc
    ensures o.Ok? ==> r.rowCount == acc.rowCount + 1
    ensures Flatten(r.batches) + r.buffer
         == Flatten(acc.batches) + acc.buffer + (if o.Ok? then [o.value] else [])
    ensures r.calls == acc.calls + (if o.Ok? && r.rowCount % batchSize == 0 then 1 else 0)
    ensures |acc.batches| <= |r.batches| <= |acc.batches| + 1
    ensures r.batches[..|acc.batches|] == acc.batches
    ensures |r.batches| == |acc.batches| + 1
            <==> o.Ok? && r.rowCount % batchSize == 0 && flushOk(acc.calls)
    ensures |r.batches| > |acc.batches| ==> r.batches[|acc.batches|] == acc.buffer + [o.value] && r.buffer == []
    ensures |r.batches| == |acc.batches| ==> r.buffer == acc.buffer + (if o.Ok? then [o.value] else [])
  {
    match o
    case Err(_) => acc
    case Ok(rec) =>
      var buffer := acc.buffer + [rec];
      var rowCount := acc.rowCount + 1;
      if rowCount % batchSize != 0 then
        acc.(buffer := buffer, rowCount := rowCount)
      else if flushOk(acc.calls) then
        FlattenAppend(acc.batches, buffer);
        Acc([], rowCount, acc.batches + [buffer], acc.calls + 1)
      else
        acc.(buffer := buffer, rowCount := rowCount, calls := acc.calls + 1)
  }

  /** The state after the loop has consumed `os`. */
  function Fold(os: seq<Result<TripRecord>>, batchSize: nat, flushOk: nat -> bool): (r: Acc)
    requires 0 < batchSize
    ensures r.rowCount <= |os|
    ensures |r.batches| <= r.calls <= r.rowCount
  {
    if os == [] then Start
    else Step(Fold(os[..|os| - 1], batchSize, flushOk), os[|os| - 1], batchSize, flushOk)
  }

  /** The write after the loop: a non-empty remainder is bulk-written once; an
      empty one is not. Here a failing write is outside the per-row `try` and
      aborts the run. */
  function Finish(acc: Acc, flushOk: nat -> bool): (r: Result<Acc>)
    ensures r.Err? <==> |acc.buffer| > 0 && !flushOk(acc.calls)
    ensures r.Ok? ==> r.value.buffer == [] && r.value.rowCount == acc.rowCount
    ensures r.Ok? ==> Flatten(r.value.batches) == Flatten(acc.batches) + acc.buffer
    ensures r.Ok? ==> |r.value.batches| == |acc.batches| + (if |acc.buffer| > 0 then 1 else 0)
    ensures r.Ok? ==> r.value.batches[..|acc.batches|] == acc.batches
    ensures r.Ok? && |acc.buffer| > 0 ==> r.value.batches[|acc.batches|] == acc.buffer
  {
    if |acc.buffer| == 0 then
      assert acc.buffer == [];
      Ok(acc)
    else if flushOk(acc.calls) then
      FlattenAppend(acc.batches, acc.buffer);
      Ok(Acc([], acc.rowCount, acc.batches + [acc.buffer], acc.calls + 1))
    else
      Err("bulk write to Staging_CabTrips failed")
  }

  /** `ProcessCsv` on the normalisation outcomes of the input rows. */
  function Load(os: seq<Result<TripRecord>>, batchSize: nat, flushOk: nat -> bool): (r: Result<Acc>)
    requires 0 < batchSize
    ensures (forall k: nat :: flushOk(k)) ==> r.Ok?
    ensures r.Ok? ==> r.value.buffer == []
    ensures r.Ok? ==> Flatten(r.value.batches) == Successes(os) && r.value.rowCount == |Successes(os)|
  {
    FoldInvariant(os, batchSize, flushOk);
    Finish(Fold(os, batchSize, flushOk), flushOk)
  }

  /** Counting the next accepted row: whether it closes a batch, and how the
      quotient and remainder by the batch size move. */
  lemma NextCount(n: nat, batchSize: nat)
    requires 0 < batchSize
    ensures (n + 1) % batchSize == 0 ==> n % batchSize == batchSize - 1 && (n + 1) / batchSize == n / batchSize + 1
    ensures (n + 1) % batchSize != 0 ==> (n + 1) % batchSize == n % batchSize + 1 && (n + 1) / batchSize == n / batchSize
  {
    var q, r := n / batchSize, n % batchSize;
    assert n == batchSize * q + r;
    if r + 1 == batchSize {
      DivModUnique(n + 1, batchSize, q + 1, 0);
    } else {
      DivModUnique(n + 1, batchSize, q, r + 1);
    }
  }

  lemma MulAtLeastOnce(d: int, k: int)
    requires 0 < d && 1 <= k
    ensures d <= d * k
  {
  }

  /** Euclidean division is determined by its defining equation. */
  lemma DivModUnique(n: int, d: int, q: int, r: int)
    requires 0 < d && 0 <= r < d && n == d * q + r
    ensures n / d == q && n % d == r
  {
    var q0, r0 := n / d, n % d;
    assert n == d * q0 + r0 && 0 <= r0 < d;
    var k := q0 - q;
    assert d * k == r - r0;
    if k >= 1 {
      MulAtLeastOnce(d, k);
      assert false;
    } else if k <= -1 {
      MulAtLeastOnce(d, -k);
      assert false;
    }
  }

  /** What the loop keeps true whatever the bulk writes do: the rows written
      so far followed by the buffer are exactly the accepted rows in input
      order, the counter is their number, and a bulk write has been attempted
      once per completed multiple of the batch size. */
  lemma {:induction false} FoldInvariant(os: seq<Result<TripRecord>>, batchSize: nat, flushOk: nat -> bool)
    requires 0 < batchSize
    ensures Flatten(Fold(os, batchSize, flushOk).batches) + Fold(os, batchSize, flushOk).buffer == Successes(os)
    ensures Fold(os, batchSize, flushOk).rowCount == |Successes(os)|
    ensures Fold(os, batchSize, flushOk).calls == |Successes(os)| / batchSize
  {
    if os != [] {
      var init := os[..|os| - 1];
      FoldInvariant(init, batchSize, flushOk);
      NextCount(|Successes(init)|, batchSize);
    }
  }

  /** When every bulk write succeeds, the buffer holds exactly the rows past
      the last multiple of the batch size (so fewer than a batch at the top of
      every iteration), each in-loop write carries exactly one batch, and one
      write happens per completed batch. */
  lemma {:induction false} FoldAllFlushed(os: seq<Result<TripRecord>>, batchSize: nat, flushOk: nat -> bool)
    requires 0 < batchSize
    requires forall k: nat :: flushOk(k)
    ensures |Fold(os, batchSize, flushOk).buffer| == |Successes(os)| % batchSize
    ensures |Fold(os, batchSize, flushOk).batches| == |Successes(os)| / batchSize
    ensures Fold(os, batchSize, flushOk).calls == |Fold(os, batchSize, flushOk).batches|
    ensures forall i :: 0 <= i < |Fold(os, batchSize, flushOk).batches| ==>
              |Fold(os, batchSize, flushOk).batches[i]| == batchSize
  {
    FoldInvariant(os, batchSize, flushOk);
    if os != [] {
      var init := os[..|os| - 1];
      FoldAllFlushed(init, batchSize, flushOk);
      FoldInvariant(init, batchSize, flushOk);
      NextCount(|Successes(init)|, batchSize);
      var before := Fold(init, batchSize, flushOk);
      var o := os[|os| - 1];
      var after := Fold(os, batchSize, flushOk);
      assert after == Step(before, o, batchSize, flushOk);
      if o.Ok? && after.rowCount % batchSize == 0 {
        assert |after.batches| == |before.batches| + 1;
        assert after.batches == before.batches + [before.buffer + [o.value]];
      } else {
        assert after.batches == before.batches;
      }
    }
  }

  /** A failed row is isolated: dropping it from the input changes nothing
      the loop keeps (buffer, counter, staging writes, bulk-write calls). */
  lemma {:induction false} FailureIsolated(a: seq<Result<TripRecord>>, msg: string, b: seq<Result<TripRecord>>,
                                          batchSize: nat, flushOk: nat -> bool)
    requires 0 < batchSize
    ensures Fold(a + [Err(msg)] + b, batchSize, flushOk) == Fold(a + b, batchSize, flushOk)
    decreases |b|
  {
    if b == [] {
      assert a + [Err(msg)] + b == a + [Err(msg)];
      assert (a + [Err(msg)])[..|a|] == a;
      assert a + b == a;
    } else {
      var b' := b[..|b| - 1];
      assert (a + [Err(msg)] + b)[..|a + [Err(msg)] + b| - 1] == a + [Err(msg)] + b';
      assert (a + b)[..|a + b| - 1] == a + b';
      FailureIsolated(a, msg, b', batchSize, flushOk);
    }
  }

  /** ceil(n / batchSize). */
  function FlushCount(n: nat, batchSize: nat): nat
    requires 0 < batchSize
  {
    n / batchSize + (if n % batchSize == 0 then 0 else 1)
  }

  /** When every bulk write succeeds the load completes; there are
      ceil(n / batchSize) writes for n accepted rows, every write but the last
      carries exactly a batch, and the last carries between one row and a
      batch. */
  lemma LoadAllFlushed(os: seq<Result<TripRecord>>, batchSize: nat, flushOk: nat -> bool)
    requires 0 < batchSize
    requires forall k: nat :: flushOk(k)
    ensures var r := Load(os, batchSize, flushOk);
            && r.Ok?
            && Flatten(r.value.batches) == Successes(os)
            && |r.value.batches| == FlushCount(|Successes(os)|, batchSize)
            && r.value.calls == |r.value.batches|
            && (forall i :: 0 <= i < |r.value.batches| - 1 ==> |r.value.batches[i]| == batchSize)
            && (r.value.batches != [] ==> 0 < |r.value.batches[|r.value.batches| - 1]| <= batchSize)
  {
    var a := Fold(os, batchSize, flushOk);
    FoldInvariant(os, batchSize, flushOk);
    FoldAllFlushed(os, batchSize, flushOk);
    var r := Load(os, batchSize, flushOk);
    assert r.value.batches[..|a.batches|] == a.batches;
    if |a.buffer| > 0 {
      assert r.value.calls == a.calls + 1;
    }
  }

  /** The flush boundaries: a batch, a batch and one row, and two batches
      less one row take one, two and two writes. */
  lemma FlushCountBoundaries(batchSize: nat)
    requires 1 < batchSize
    ensures FlushCount(batchSize, batchSize) == 1
    ensures FlushCount(batchSize + 1, batchSize) == 2
    ensures FlushCount(2 * batchSize - 1, batchSize) == 2
  {
    NextCount(batchSize - 1, batchSize);
    NextCount(batchSize, batchSize);
    NextCount(2 * batchSize - 2, batchSize);
    assert (2 * batchSize - 2) == batchSize * 1 + (batchSize - 2);
  }

  /** The loop body of `ProcessCsv` on the source's locals, after the row has
      been normalised. */
  method AcceptRow(buffer: seq<TripRecord>, rowCount: nat, batches: seq<seq<TripRecord>>, calls: nat,
                   o: Result<TripRecord>, batchSize: nat, flushOk: nat -> bool)
    returns (buffer': seq<TripRecord>, rowCount': nat, batches': seq<seq<TripRecord>>, calls': nat)
    requires 0 < batchSize
    ensures Acc(buffer', rowCount', batches', calls')
         == Step(Acc(buffer, rowCount, batches, calls), o, batchSize, flushOk)
  {
    buffer', rowCount', batches', calls' := buffer, rowCount, batches, calls;
    if o.Ok? {
      buffer' := buffer' + [o.value];
      rowCount' := rowCount' + 1;
      if rowCount' % batchSize == 0 {
        if flushOk(calls') {
          batches' := batches' + [buffer'];
          buffer' := [];
        }
        calls' := calls' + 1;
      }
    }
  }

  /** With the configured batch size: 10,000, 10,001 and 19,999 accepted rows
      take one, two and two writes. */
  lemma ConfiguredFlushBoundaries()
    ensures FlushCount(BatchSize, BatchSize) == 1
    ensures FlushCount(BatchSize + 1, BatchSize) == 2
    ensures FlushCount(2 * BatchSize - 1, BatchSize) == 2
  {
    FlushCountBoundaries(BatchSize);
  }

  /** `ProcessCsv` as a loop over the decoded rows, with the state of the
      source's locals: the data table, `rowCount`, the batches written and the
      bulk-write calls made. */
  method ProcessCsv(rows: seq<RawRow>, p: Parsers, batchSize: nat, flushOk: nat -> bool)
    returns (r: Result<Acc>)
    requires 0 < batchSize
    ensures r == Load(NormaliseAll(rows, p), batchSize, flushOk)
    ensures r.Ok? ==> Flatten(r.value.batches) == Successes(NormaliseAll(rows, p))
    ensures r.Ok? ==> r.value.rowCount == |Successes(NormaliseAll(rows, p))|
    ensures (forall k: nat :: flushOk(k)) ==> r.Ok?
  {
    ghost var os := NormaliseAll(rows, p);
    var buffer: seq<TripRecord> := [];
    var rowCount: nat := 0;
    var batches: seq<seq<TripRecord>> := [];
    var calls: nat := 0;
    var i := 0;
    while i < |rows|
      invariant 0 <= i <= |rows|
      invariant Acc(buffer, rowCount, batches, calls) == Fold(os[..i], batchSize, flushOk)
    {
      assert os[..i + 1][..i] == os[..i];
      var o := NormaliseRow(rows[i], p);
      assert o == os[i];
      buffer, rowCount, batches, calls := AcceptRow(buffer, rowCount, batches, calls, o, batchSize, flushOk);
      assert Fold(os[..i + 1], batchSize, flushOk) == Step(Fold(os[..i], batchSize, flushOk), os[i], batchSize, flushOk);
      i := i + 1;
    }
    assert os[..|rows|] == os;
    ghost var last := Acc(buffer, rowCount, batches, calls);
    if |buffer| > 0 {
      if !flushOk(calls) {
        r := Err("bulk write to Staging_CabTrips failed");
        return;
      }
      batches := batches + [buffer];
      buffer := [];
      calls := calls + 1;
    }
    r := Ok(Acc(buffer, rowCount, batches, calls));
    assert r == Finish(last, flushOk);
    if forall k: nat :: flushOk(k) {
      LoadAllFlushed(os, batchSize, flushOk);
    }
  }
}

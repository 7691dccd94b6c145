/** The static row partition of `workerThreadStart` and the dispatch of
    `mandelbrotThread`.

    Threads are not modelled: the workers write disjoint rows of the shared
    buffer, so their bodies are composed one after another, and the lemmas
    below show that the order does not matter. */
module Threads {
  import opened Arith
  import opened Mandelbrot

  /** The thread ceiling of `mandelbrotThread`. */
  const MaxThreads: int := 32

  /** The arguments handed to one worker: the shared frame, its own id, and
      the number of workers. */
  datatype WorkerArgs = WorkerArgs(frame: Frame, threadId: int, numThreads: int)

  /** The outcome of `mandelbrotThread`: the rendered buffer, or the fatal
      error raised when more than MaxThreads workers are requested. */
  datatype Outcome = Rendered(image: seq<int>) | TooManyThreads

  // ---------------------------------------------------------------------------
  // Row partition
  // ---------------------------------------------------------------------------

  /** First row of worker k: k * (height / numThreads). */
  function StartRow(height: int, numThreads: int, k: int): int
    requires numThreads >= 1
  {
    k * (height / numThreads)
  }

  /** Row count of worker k: height / numThreads, except for the last worker,
      which takes the rest of the image. */
  function TotalRows(height: int, numThreads: int, k: int): int
    requires numThreads >= 1
  {
    if k == numThreads - 1 then height - (height / numThreads) * k else height / numThreads
  }

  predicate InRange(height: int, numThreads: int, k: int, row: int)
    requires numThreads >= 1
  {
    StartRow(height, numThreads, k) <= row < StartRow(height, numThreads, k) + TotalRows(height, numThreads, k)
  }

  /** An independent description of the partition: the worker owning a row is
      row / (height / numThreads), capped at the last worker. */
  function Owner(height: int, numThreads: int, row: int): int
    requires numThreads >= 1
  {
    var q := height / numThreads;
    if q == 0 || row / q >= numThreads - 1 then numThreads - 1 else row / q
  }

  /** For q > 0, k*q <= r < k*q + q exactly when r / q == k. */
  lemma DivRange(r: int, q: int, k: int)
    requires q > 0
    ensures k * q <= r < k * q + q <==> r / q == k
  {
    var d, m := r / q, r % q;
    assert r == d * q + m && 0 <= m < q;
    if d < k {
      MulMono(d + 1, k, q);
    } else if d > k {
      MulMono(k + 1, d, q);
    }
  }

  /** The quotient never exceeds its share: numThreads * (height / numThreads) <= height. */
  lemma QuotientFits(height: int, numThreads: int)
    requires height >= 0 && numThreads >= 1
    ensures 0 <= height / numThreads
    ensures (numThreads - 1) * (height / numThreads) + height / numThreads <= height
  {
    var q := height / numThreads;
    assert height == q * numThreads + height % numThreads;
    assert (numThreads - 1) * q + q == numThreads * q;
  }

  /** For width w > 0, index idx is at or past the start of row a exactly when
      its own row idx / w is at least a. */
  lemma RowAtLeast(idx: int, w: int, a: int)
    requires w > 0
    ensures a * w <= idx <==> a <= idx / w
  {
    var d := idx / w;
    assert idx == d * w + idx % w;
    if a <= d {
      MulMono(a, d, w);
    } else {
      MulMono(d + 1, a, w);
    }
  }

  /** The partition for a worker other than the last: its block holds
      exactly the rows r with r / (height / numThreads) == k. */
  lemma PartitionOwnerInner(height: int, numThreads: int, k: int, row: int)
    requires height >= 0 && numThreads >= 1 && 0 <= k < numThreads - 1
    ensures InRange(height, numThreads, k, row) <==> 0 <= row < height && k == Owner(height, numThreads, row)
  {
    var q := height / numThreads;
    QuotientFits(height, numThreads);
    if q > 0 {
      DivRange(row, q, k);
      MulMono(0, k, q);
      MulMono(k + 1, numThreads - 1, q);
    }
  }

  /** The partition for the last worker: its block is [(P-1) * (H/P), H). */
  lemma PartitionOwnerLast(height: int, numThreads: int, row: int)
    requires height >= 0 && numThreads >= 1
    ensures InRange(height, numThreads, numThreads - 1, row)
      <==> 0 <= row < height && numThreads - 1 == Owner(height, numThreads, row)
  {
    var q := height / numThreads;
    QuotientFits(height, numThreads);
    assert StartRow(height, numThreads, numThreads - 1) + TotalRows(height, numThreads, numThreads - 1) == height;
    if q > 0 {
      MulMono(0, numThreads - 1, q);
      RowAtLeast(row, q, numThreads - 1);
    }
  }

  /** Row `row` lies in worker k's range exactly when it is an image row and
      k owns it. So the ranges are pairwise disjoint and together cover
      exactly [0, height). */
  lemma PartitionOwner(height: int, numThreads: int, k: int, row: int)
    requires height >= 0 && numThreads >= 1 && 0 <= k < numThreads
    ensures InRange(height, numThreads, k, row) <==> 0 <= row < height && k == Owner(height, numThreads, row)
  {
    if k < numThreads - 1 {
      PartitionOwnerInner(height, numThreads, k, row);
    } else {
      PartitionOwnerLast(height, numThreads, row);
    }
  }

  /** No row is given to two workers. */
  lemma RangesDisjoint(height: int, numThreads: int, k1: int, k2: int, row: int)
    requires height >= 0 && numThreads >= 1
    requires 0 <= k1 < numThreads && 0 <= k2 < numThreads && k1 != k2
    ensures !(InRange(height, numThreads, k1, row) && InRange(height, numThreads, k2, row))
  {
    PartitionOwner(height, numThreads, k1, row);
    PartitionOwner(height, numThreads, k2, row);
  }

  /** Every image row is given to some worker, and only image rows are given out. */
  lemma RangesCover(height: int, numThreads: int, row: int)
    requires height >= 0 && numThreads >= 1
    ensures 0 <= row < height <==>
      exists k :: 0 <= k < numThreads && InRange(height, numThreads, k, row)
  {
    var o := Owner(height, numThreads, row);
    if 0 <= row < height {
      assert 0 <= o < numThreads by {
        if height / numThreads > 0 {
          assert row / (height / numThreads) >= 0;
        }
      }
      PartitionOwner(height, numThreads, o, row);
    }
    forall k | 0 <= k < numThreads && InRange(height, numThreads, k, row)
      ensures 0 <= row < height
    {
      PartitionOwner(height, numThreads, k, row);
    }
  }

  /** Every range is a sub-range of [0, height), and the last worker absorbs
      the height % numThreads leftover rows. */
  lemma RangeBounds(height: int, numThreads: int, k: int)
    requires height >= 0 && numThreads >= 1 && 0 <= k < numThreads
    ensures 0 <= StartRow(height, numThreads, k)
    ensures 0 <= TotalRows(height, numThreads, k)
    ensures StartRow(height, numThreads, k) + TotalRows(height, numThreads, k) <= height
    ensures k == numThreads - 1 ==>
      TotalRows(height, numThreads, k) == height / numThreads + height % numThreads
      && StartRow(height, numThreads, k) + TotalRows(height, numThreads, k) == height
  {
    var q := height / numThreads;
    QuotientFits(height, numThreads);
    MulMono(0, k, q);
    if k < numThreads - 1 {
      MulMono(k + 1, numThreads - 1, q);
    } else {
      assert height == numThreads * q + height % numThreads;
      assert q * k + q == numThreads * q;
    }
  }

  // ---------------------------------------------------------------------------
  // Workers
  // ---------------------------------------------------------------------------

  predicate ValidArgs(a: WorkerArgs)
  {
    a.numThreads >= 1 && 0 <= a.threadId < a.numThreads
    && a.frame.width >= 0 && a.frame.height >= 0
  }

  /** The functional effect of worker k on the buffer: its rows rendered. */
  function WorkerRender(f: Frame, numThreads: int, k: int, buf: seq<int>): seq<int>
    requires numThreads >= 1
  {
    RenderRows(f, StartRow(f.height, numThreads, k), TotalRows(f.height, numThreads, k), buf)
  }

  /** The pixels of a render of the whole image: index k holds the value of
      row k / width, column k % width when it lies in the image, and is left
      alone otherwise. */
  lemma WholeImage(f: Frame, buf: seq<int>)
    requires f.width >= 0 && f.height >= 0
    ensures forall k :: 0 <= k < |buf| ==>
      RenderRows(f, 0, f.height, buf)[k]
        == if f.width > 0 && k < f.height * f.width then PixelValue(f, k % f.width, k / f.width) else buf[k]
  {
  }

  /** Worker k writes pixel index `idx` exactly when the row of idx is an image
      row that k owns; what it writes there is the pixel's value. */
  lemma WorkerRenderOwned(f: Frame, numThreads: int, k: int, buf: seq<int>, idx: int)
    requires f.width >= 0 && f.height >= 0 && numThreads >= 1 && 0 <= k < numThreads
    requires 0 <= idx < |buf|
    ensures WorkerRender(f, numThreads, k, buf)[idx]
      == if f.width > 0 && idx < f.height * f.width && Owner(f.height, numThreads, idx / f.width) == k
         then PixelValue(f, idx % f.width, idx / f.width) else buf[idx]
  {
    var w := f.width;
    if w > 0 {
      var row := idx / w;
      var s, t := StartRow(f.height, numThreads, k), TotalRows(f.height, numThreads, k);
      PartitionOwner(f.height, numThreads, k, row);
      RowAtLeast(idx, w, s);
      RowAtLeast(idx, w, s + t);
      RowAtLeast(idx, w, f.height);
      RowAtLeast(idx, w, 0);
    }
  }

  /** `workerThreadStart`: render the rows of this worker's range. */
  method WorkerThreadStart(a: WorkerArgs, output: seq<int>) returns (out: seq<int>)
    requires ValidArgs(a)
    requires |output| >= a.frame.height * a.frame.width
    ensures |out| == |output|
    ensures forall idx :: 0 <= idx < |out| ==>
      out[idx] == if a.frame.width > 0 && idx < a.frame.height * a.frame.width
                     && Owner(a.frame.height, a.numThreads, idx / a.frame.width) == a.threadId
                  then PixelValue(a.frame, idx % a.frame.width, idx / a.frame.width) else output[idx]
    ensures out == WorkerRender(a.frame, a.numThreads, a.threadId, output)
  {
    var f := a.frame;
    var totalrows := if a.threadId == a.numThreads - 1
      then f.height - (f.height / a.numThreads) * a.threadId
      else f.height / a.numThreads;
    var startRow := a.threadId * (f.height / a.numThreads);
    RangeBounds(f.height, a.numThreads, a.threadId);
    if f.width > 0 {
      MulMono(startRow + totalrows, f.height, f.width);
    }
    out := MandelbrotSerial(f, startRow, totalrows, output);
    forall idx | 0 <= idx < |out|
      ensures out[idx] == if f.width > 0 && idx < f.height * f.width
                             && Owner(f.height, a.numThreads, idx / f.width) == a.threadId
                          then PixelValue(f, idx % f.width, idx / f.width) else output[idx]
    {
      WorkerRenderOwned(f, a.numThreads, a.threadId, output, idx);
    }
  }

  /** Running the worker bodies with the given ids, in order, on buf. */
  function ApplyWorkers(f: Frame, numThreads: int, ids: seq<int>, buf: seq<int>): seq<int>
    requires numThreads >= 1
  {
    if |ids| == 0 then buf
    else WorkerRender(f, numThreads, ids[|ids| - 1], ApplyWorkers(f, numThreads, ids[..|ids| - 1], buf))
  }

  /** Whatever the order of the worker bodies, and even with repeats, pixel
      idx ends up rendered exactly when its owner is among the ids run. */
  lemma {:induction false} ApplyWorkersAnyOrder(f: Frame, numThreads: int, ids: seq<int>, buf: seq<int>)
    requires f.width >= 0 && f.height >= 0 && numThreads >= 1
    requires forall t :: 0 <= t < |ids| ==> 0 <= ids[t] < numThreads
    ensures |ApplyWorkers(f, numThreads, ids, buf)| == |buf|
    ensures forall idx :: 0 <= idx < |buf| ==>
      ApplyWorkers(f, numThreads, ids, buf)[idx]
        == if f.width > 0 && idx < f.height * f.width && Owner(f.height, numThreads, idx / f.width) in ids
           then PixelValue(f, idx % f.width, idx / f.width) else buf[idx]
  {
    if |ids| > 0 {
      var init := ids[..|ids| - 1];
      var last := ids[|ids| - 1];
      ApplyWorkersAnyOrder(f, numThreads, init, buf);
      var mid := ApplyWorkers(f, numThreads, init, buf);
      forall idx | 0 <= idx < |buf|
        ensures ApplyWorkers(f, numThreads, ids, buf)[idx]
          == if f.width > 0 && idx < f.height * f.width && Owner(f.height, numThreads, idx / f.width) in ids
             then PixelValue(f, idx % f.width, idx / f.width) else buf[idx]
      {
        WorkerRenderOwned(f, numThreads, last, mid, idx);
        if f.width > 0 {
          var o := Owner(f.height, numThreads, idx / f.width);
          assert o in ids <==> o in init || o == last by {
            assert ids == init + [last];
          }
        }
      }
    }
  }

  /** Partition invariance: once every worker 0..numThreads-1 has run, in any
      order, the buffer equals a single render of all rows [0, height). */
  lemma AllWorkersRenderWholeImage(f: Frame, numThreads: int, ids: seq<int>, buf: seq<int>)
    requires f.width >= 0 && f.height >= 0 && numThreads >= 1
    requires forall t :: 0 <= t < |ids| ==> 0 <= ids[t] < numThreads
    requires forall k :: 0 <= k < numThreads ==> k in ids
    ensures ApplyWorkers(f, numThreads, ids, buf) == RenderRows(f, 0, f.height, buf)
  {
    ApplyWorkersAnyOrder(f, numThreads, ids, buf);
    WholeImage(f, buf);
    forall idx | 0 <= idx < |buf| && f.width > 0 && idx < f.height * f.width
      ensures Owner(f.height, numThreads, idx / f.width) in ids
    {
      var row := idx / f.width;
      RowAtLeast(idx, f.width, f.height);
      RangesCover(f.height, numThreads, row);
      var k :| 0 <= k < numThreads && InRange(f.height, numThreads, k, row);
      PartitionOwner(f.height, numThreads, k, row);
    }
  }

  // ---------------------------------------------------------------------------
  // Dispatch
  // ---------------------------------------------------------------------------

  /** The argument block of each worker: all share the frame and the worker
      count, and worker i gets threadId i. */
  method BuildWorkerArgs(numThreads: nat, f: Frame) returns (args: seq<WorkerArgs>)
    ensures |args| == numThreads
    ensures forall i :: 0 <= i < numThreads ==> args[i].threadId == i
    ensures forall i, j :: 0 <= i < numThreads && 0 <= j < numThreads ==>
      args[i].(threadId := args[j].threadId) == args[j]
    ensures forall i :: 0 <= i < numThreads ==> args[i].frame == f && args[i].numThreads == numThreads
  {
    args := [];
    var i := 0;
    while i < numThreads
      invariant 0 <= i <= numThreads && |args| == i
      invariant forall t :: 0 <= t < i ==> args[t] == WorkerArgs(f, t, numThreads)
    {
      args := args + [WorkerArgs(f, i, numThreads)];
      i := i + 1;
    }
  }

  /** The ids 1, 2, ..., n-1: the spawned workers, in creation order. */
  function Spawned(n: int): (ids: seq<int>)
    ensures |ids| == if n > 1 then n - 1 else 0
    ensures forall t :: 0 <= t < |ids| ==> ids[t] == t + 1
  {
    if n <= 1 then [] else Spawned(n - 1) + [n - 1]
  }

  /** Running one more worker extends the composition by that worker. */
  lemma ApplyOneMore(f: Frame, numThreads: int, ids: seq<int>, k: int, buf: seq<int>)
    requires numThreads >= 1
    ensures ApplyWorkers(f, numThreads, ids + [k], buf)
      == WorkerRender(f, numThreads, k, ApplyWorkers(f, numThreads, ids, buf))
  {
    assert (ids + [k])[..|ids|] == ids;
  }

  /** The dispatch order 1, ..., n-1, 0 runs every worker exactly once. */
  lemma DispatchOrderRunsAll(n: int)
    requires n >= 1
    ensures forall t :: 0 <= t < |Spawned(n) + [0]| ==> 0 <= (Spawned(n) + [0])[t] < n
    ensures forall k :: 0 <= k < n ==> k in Spawned(n) + [0]
  {
    var order := Spawned(n) + [0];
    forall k | 0 <= k < n
      ensures k in order
    {
      if k > 0 {
        assert order[k - 1] == k;
      } else {
        assert order[|order| - 1] == 0;
      }
    }
  }

  /** The dispatch order of `mandelbrotThread` renders the whole image. */
  lemma DispatchRendersWholeImage(f: Frame, numThreads: int, buf: seq<int>)
    requires f.width >= 0 && f.height >= 0 && numThreads >= 1
    ensures ApplyWorkers(f, numThreads, Spawned(numThreads) + [0], buf) == RenderRows(f, 0, f.height, buf)
  {
    DispatchOrderRunsAll(numThreads);
    AllWorkersRenderWholeImage(f, numThreads, Spawned(numThreads) + [0], buf);
  }

  /** `mandelbrotThread`: refuse more than MaxThreads workers; otherwise run
      workers 1..numThreads-1 and then worker 0 on the calling thread, leaving
      the buffer as one serial render of all rows would. */
  method MandelbrotThread(numThreads: int, f: Frame, output: seq<int>) returns (r: Outcome)
    requires numThreads <= MaxThreads ==>
      numThreads >= 1 && f.width >= 0 && f.height >= 0 && |output| >= f.height * f.width
    ensures r.TooManyThreads? <==> numThreads > MaxThreads
    ensures r.Rendered? ==> r.image == RenderRows(f, 0, f.height, output)
    ensures r.Rendered? ==> forall j, i {:trigger Index(f.width, j, i)} :: 0 <= j < f.height && 0 <= i < f.width ==>
      0 <= Index(f.width, j, i) < |r.image| && r.image[Index(f.width, j, i)] == PixelValue(f, i, j)
  {
    if numThreads > MaxThreads {
      return TooManyThreads;
    }
    var args := BuildWorkerArgs(numThreads, f);
    var buf := output;
    var i := 1;
    while i < numThreads
      invariant 1 <= i <= numThreads
      invariant buf == ApplyWorkers(f, numThreads, Spawned(i), output)
      invariant |buf| == |output|
    {
      assert ValidArgs(args[i]);
      buf := WorkerThreadStart(args[i], buf);
      ApplyOneMore(f, numThreads, Spawned(i), i, output);
      i := i + 1;
    }
    assert ValidArgs(args[0]);
    buf := WorkerThreadStart(args[0], buf);
    ApplyOneMore(f, numThreads, Spawned(numThreads), 0, output);
    DispatchRendersWholeImage(f, numThreads, output);
    RenderRowsContents(f, 0, f.height, output);
    r := Rendered(buf);
  }
}

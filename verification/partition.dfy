/** The split of the slice indices `[0, N)` over the worker threads
    (lines 187-196): every worker but the last gets `⌊N/W⌋` consecutive
    indices, and the last one takes whatever remains. */
module Partition {
  import opened CppInt

  /** A worker's share: slice indices `start`, …, `start + count - 1`
      (the loop bounds of line 111). */
  datatype Range = Range(start: int, count: int)

  predicate InRange(j: int, r: Range) {
    r.start <= j < r.start + r.count
  }

  /** `numThreads` as line 187 computes it. `hardware_concurrency()` may
      report 0 when the count is unknown, and then so is this. */
  function ThreadCountAsWritten(hardware: nat, slices: nat): nat {
    if hardware <= slices then hardware else slices
  }

  /** When the hardware count is unknown the source's worker count is 0, and
      line 188 then divides `TEXTURE_SLICES` by it. */
  lemma ThreadCountAsWrittenCanBeZero(slices: nat)
    ensures ThreadCountAsWritten(0, slices) == 0
  {
  }

  /** The worker count with the unknown hardware count read as one worker. */
  function ThreadCount(hardware: nat, slices: nat): (w: nat)
    requires slices >= 1
    ensures 1 <= w <= slices
    ensures hardware >= 1 ==> w == ThreadCountAsWritten(hardware, slices)
  {
    if hardware == 0 then 1 else ThreadCountAsWritten(hardware, slices)
  }

  /** The range handed to worker `i` of `w` (lines 193-195). */
  function WorkerRange(n: nat, w: nat, i: nat): Range
    requires 1 <= w && i < w
  {
    var k := n / w;
    var start := i * k;
    Range(start, if i == w - 1 then n - start else k)
  }

  /** Every range lies inside `[0, n)`; the first `w - 1` have `⌊n/w⌋`
      indices each and the last one ends exactly at `n`. */
  lemma WorkerRangeShape(n: nat, w: nat, i: nat)
    requires 1 <= w && i < w
    ensures var r := WorkerRange(n, w, i);
      0 <= r.start && 0 <= r.count && r.start + r.count <= n
      && (i < w - 1 ==> r.count == n / w)
      && (i == w - 1 ==> r.start + r.count == n)
  {
    var k := n / w;
    MulNonNegative(i, k);
    MulMonotone(i + 1, w, k);
    MulMonotone(i, w, k);
    assert (i + 1) * k == i * k + k;
    assert w * k <= n;
  }

  /** The ranges follow each other without gaps: worker 0 starts at 0 and
      worker `i + 1` starts where worker `i` stops. */
  lemma WorkerRangesContiguous(n: nat, w: nat, i: nat)
    requires 1 <= w && i + 1 < w
    ensures WorkerRange(n, w, 0).start == 0
    ensures WorkerRange(n, w, i + 1).start == WorkerRange(n, w, i).start + WorkerRange(n, w, i).count
  {
    assert (i + 1) * (n / w) == i * (n / w) + n / w;
  }

  /** The worker whose range holds slice `j`. */
  function Owner(n: nat, w: nat, j: int): (i: nat)
    requires 1 <= w && 0 <= j < n
    ensures i < w && InRange(j, WorkerRange(n, w, i))
  {
    var k := n / w;
    if k == 0 then
      w - 1
    else
      var q := j / k;
      EuclidBounds(j, k);
      if q < w - 1 then
        assert (q + 1) * k == q * k + k;
        q
      else
        MulMonotone(w - 1, q, k);
        w - 1
  }

  /** No two workers share a slice. */
  lemma WorkerRangesDisjoint(n: nat, w: nat, j: int, i1: nat, i2: nat)
    requires 1 <= w && i1 < w && i2 < w
    requires InRange(j, WorkerRange(n, w, i1)) && InRange(j, WorkerRange(n, w, i2))
    ensures i1 == i2
  {
    var k := n / w;
    if k > 0 {
      // A worker before the last ends at or before the next worker's start.
      MulStrictStep(i1, i2, k);
      MulStrictStep(i2, i1, k);
    }
  }

  /** The ranges together are exactly `[0, n)`: every slice in it belongs to
      some worker, and no worker holds a slice outside it. */
  lemma WorkerRangesCover(n: nat, w: nat, j: int)
    requires 1 <= w
    ensures 0 <= j < n <==> exists i :: 0 <= i < w && InRange(j, WorkerRange(n, w, i))
  {
    if 0 <= j < n {
      var i := Owner(n, w, j);
    }
    if exists i :: 0 <= i < w && InRange(j, WorkerRange(n, w, i)) {
      var i :| 0 <= i < w && InRange(j, WorkerRange(n, w, i));
      WorkerRangeShape(n, w, i);
    }
  }
}

/** The slice cache `worleyTiles` (lines 24, 109-128) and the batch that
    fills it: each worker renders its range of slice indices and stores each
    buffer under its index; afterwards `main` reads the slices back in index
    order and stops at the first empty one (lines 209-216). The threads are
    modelled as the workers' ranges applied one after another in an
    arbitrary order; the lock makes each store atomic. */
module SliceCache {
  import opened Geometry
  import opened Shading
  import opened Render
  import opened Partition
  import opened Config

  type Buffer = seq<Byte>

  /** `worleyTiles`: slice index to pixel buffer. */
  type Cache = map<int, Buffer>

  /** `worleyTiles[i] = buf`: stores `buf`, replacing any earlier entry. */
  function Insert(c: Cache, i: int, buf: Buffer): Cache {
    c[i := buf]
  }

  /** `getWorleyNoiseSlice`: the stored buffer, or an empty one when the
      index was never stored. */
  function Get(c: Cache, i: int): Buffer {
    if i in c then c[i] else []
  }

  /** A lookup after a store sees the stored buffer at that index and the
      old contents everywhere else. */
  lemma GetAfterInsert(c: Cache, i: int, buf: Buffer, j: int)
    ensures Get(Insert(c, i, buf), j) == if j == i then buf else Get(c, j)
  {
  }

  /** A second store at the same index replaces the first. */
  lemma InsertOverwrites(c: Cache, i: int, a: Buffer, b: Buffer)
    ensures Insert(Insert(c, i, a), i, b) == Insert(c, i, b)
  {
  }

  /** A lookup yields the empty buffer exactly when the index was never
      stored or an empty buffer was stored under it. */
  lemma GetEmpty(c: Cache, i: int)
    ensures Get(c, i) == [] <==> i !in c || c[i] == []
  {
  }

  /** The buffer rendered for slice `j` from the points its call draws;
      an index with no draws produces nothing. */
  function SliceOf(draws: seq<seq<Point>>, j: int): Buffer {
    if 0 <= j < |draws| && |draws[j]| > 0 then GenerateTiledWorleyNoise(draws[j]) else []
  }

  /** A slice rendered from a proper draw is a full `192 × 192` RGBA canvas. */
  lemma SliceOfDrawn(draws: seq<seq<Point>>, j: int)
    requires 0 <= j < |draws| && Drawn(draws[j])
    ensures SliceOf(draws, j) == GenerateTiledWorleyNoise(draws[j])
    ensures |SliceOf(draws, j)| == 192 * 192 * 4
  {
    assert TEXTURE_SIZE == 64;
    assert TILED_TEXTURE_SIZE == 192;
  }

  /** `generateWorleyNoiseSlices(index, count)` (lines 109-116): slices
      `index`, …, `index + count - 1` are rendered and stored in turn, slice
      `i` as `render(i)`. */
  function RunWorker(c: Cache, r: Range, render: int -> Buffer): (c': Cache)
    ensures forall j :: j in c' <==> j in c || InRange(j, r)
    ensures forall j :: j in c' ==> c'[j] == if InRange(j, r) then render(j) else c[j]
    decreases r.count
  {
    if r.count <= 0 then c
    else
      RunWorker(Insert(c, r.start, render(r.start)), Range(r.start + 1, r.count - 1), render)
  }

  /** Slice `j` lies in one of the ranges. */
  ghost predicate Covered(rs: seq<Range>, j: int) {
    exists t :: 0 <= t < |rs| && InRange(j, rs[t])
  }

  /** Slice `j` is covered by a non-empty sequence of ranges exactly when it
      is in the first range or covered by the others. */
  lemma CoveredCons(rs: seq<Range>, j: int)
    requires |rs| > 0
    ensures Covered(rs, j) <==> InRange(j, rs[0]) || Covered(rs[1..], j)
  {
    if Covered(rs, j) && !InRange(j, rs[0]) {
      var t :| 0 <= t < |rs| && InRange(j, rs[t]);
      assert InRange(j, rs[1..][t - 1]);
    }
    if Covered(rs[1..], j) {
      var t :| 0 <= t < |rs| - 1 && InRange(j, rs[1..][t]);
      assert InRange(j, rs[t + 1]);
    }
  }

  /** The workers' ranges applied one after another, in the order given. */
  function RunAll(c: Cache, rs: seq<Range>, render: int -> Buffer): (c': Cache)
    ensures forall j :: j in c' <==> j in c || Covered(rs, j)
    ensures forall j :: j in c' ==> c'[j] == if Covered(rs, j) then render(j) else c[j]
    decreases |rs|
  {
    if rs == [] then c
    else
      var c' := RunAll(RunWorker(c, rs[0], render), rs[1..], render);
      forall j
        ensures Covered(rs, j) <==> InRange(j, rs[0]) || Covered(rs[1..], j)
      {
        CoveredCons(rs, j);
      }
      c'
  }

  /** The ranges of the workers in the order `order` lists them: the order
      in which the threads happen to run. */
  function Schedule(n: nat, w: nat, order: seq<nat>): seq<Range>
    requires 1 <= w && forall t :: 0 <= t < |order| ==> order[t] < w
  {
    seq(|order|, t requires 0 <= t < |order| => WorkerRange(n, w, order[t]))
  }

  /** Every one of the `w` workers runs, at least once, in some order. */
  predicate RunsEveryWorker(w: nat, order: seq<nat>) {
    (forall t :: 0 <= t < |order| ==> order[t] < w)
    && (forall i :: 0 <= i < w ==> i in order)
  }

  /** The scheduled ranges cover exactly the slices `[0, n)`. */
  lemma ScheduleCovers(n: nat, w: nat, order: seq<nat>, j: int)
    requires 1 <= w && RunsEveryWorker(w, order)
    ensures Covered(Schedule(n, w, order), j) <==> 0 <= j < n
  {
    var rs := Schedule(n, w, order);
    WorkerRangesCover(n, w, j);
    if 0 <= j < n {
      var i :| 0 <= i < w && InRange(j, WorkerRange(n, w, i));
      assert i in order;
      var t :| 0 <= t < |order| && order[t] == i;
      assert InRange(j, rs[t]);
    }
    if Covered(rs, j) {
      var t :| 0 <= t < |rs| && InRange(j, rs[t]);
      assert InRange(j, WorkerRange(n, w, order[t]));
    }
  }

  /** Whatever order the workers run in, the batch leaves the cache holding
      exactly the slices `[0, n)`, slice `j` as rendered for index `j`. */
  lemma BatchFillsCache(n: nat, w: nat, order: seq<nat>, render: int -> Buffer)
    requires 1 <= w && RunsEveryWorker(w, order)
    ensures var c := RunAll(map[], Schedule(n, w, order), render);
      (forall j :: j in c <==> 0 <= j < n)
      && forall j :: j in c ==> c[j] == render(j)
  {
    forall j
      ensures Covered(Schedule(n, w, order), j) <==> 0 <= j < n
    {
      ScheduleCovers(n, w, order, j);
    }
  }

  /** The threads may run in any order: two schedules of the same workers
      leave the same slices in the cache. */
  lemma BatchOrderIrrelevant(n: nat, w: nat, order1: seq<nat>, order2: seq<nat>, render: int -> Buffer)
    requires 1 <= w && RunsEveryWorker(w, order1) && RunsEveryWorker(w, order2)
    ensures var c1 := RunAll(map[], Schedule(n, w, order1), render);
      var c2 := RunAll(map[], Schedule(n, w, order2), render);
      forall j :: (j in c1 <==> j in c2) && Get(c1, j) == Get(c2, j)
  {
    BatchFillsCache(n, w, order1, render);
    BatchFillsCache(n, w, order2, render);
  }

  /** What `main` makes of the cache: all slices in index order, or the
      first index whose slice is empty, where it prints an error and exits. */
  datatype Collected = AllSlices(buffers: seq<Buffer>) | EmptySlice(index: int)

  /** The loop of lines 209-216 from slice `i` on. */
  function CollectFrom(c: Cache, i: nat, n: nat): (r: Collected)
    requires i <= n
    ensures r.EmptySlice? ==>
      i <= r.index < n && Get(c, r.index) == []
      && forall k :: i <= k < r.index ==> Get(c, k) != []
    ensures r.AllSlices? ==>
      |r.buffers| == n - i
      && forall k :: i <= k < n ==> Get(c, k) != [] && r.buffers[k - i] == Get(c, k)
    decreases n - i
  {
    if i == n then AllSlices([])
    else if Get(c, i) == [] then EmptySlice(i)
    else
      match CollectFrom(c, i + 1, n)
      case EmptySlice(k) => EmptySlice(k)
      case AllSlices(bufs) => AllSlices([Get(c, i)] + bufs)
  }

  function Collect(c: Cache, n: nat): Collected {
    CollectFrom(c, 0, n)
  }

  /** After the batch, the empty-slice error of line 214 cannot happen as
      long as every rendered slice is non-empty: every slice is read back, in
      index order. */
  lemma CollectAfterBatch(n: nat, w: nat, order: seq<nat>, render: int -> Buffer)
    requires 1 <= w && RunsEveryWorker(w, order)
    requires forall j :: 0 <= j < n ==> render(j) != []
    ensures var r := Collect(RunAll(map[], Schedule(n, w, order), render), n);
      r.AllSlices? && |r.buffers| == n
      && forall j :: 0 <= j < n ==> r.buffers[j] == render(j)
  {
    BatchFillsCache(n, w, order, render);
    var c := RunAll(map[], Schedule(n, w, order), render);
    assert forall k :: 0 <= k < n ==> Get(c, k) == render(k);
    var r := Collect(c, n);
    forall j | 0 <= j < n
      ensures r.buffers[j] == render(j)
    {
      assert r.buffers[j - 0] == Get(c, j);
    }
  }

  /** The whole batch of `main` (lines 187-216) with the corrected worker
      count: however the threads are scheduled and whatever the hardware
      reports, every one of the 64 slices is read back, in index order, as
      `generateTiledWorleyNoise` rendered it from its own draws. */
  lemma BatchHasNoEmptySlice(hardware: nat, order: seq<nat>, draws: seq<seq<Point>>)
    requires RunsEveryWorker(ThreadCount(hardware, TEXTURE_SLICES), order)
    requires |draws| == TEXTURE_SLICES && forall j :: 0 <= j < |draws| ==> Drawn(draws[j])
    ensures var w := ThreadCount(hardware, TEXTURE_SLICES);
      var r := Collect(RunAll(map[], Schedule(|draws|, w, order), j => SliceOf(draws, j)), |draws|);
      r.AllSlices? && |r.buffers| == |draws|
      && forall j :: 0 <= j < |draws| ==> r.buffers[j] == SliceOf(draws, j)
  {
    var render := j => SliceOf(draws, j);
    forall j | 0 <= j < |draws|
      ensures render(j) != []
    {
      SliceOfDrawn(draws, j);
    }
    CollectAfterBatch(|draws|, ThreadCount(hardware, TEXTURE_SLICES), order, render);
  }
}

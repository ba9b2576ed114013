/** Feature-point tiling (lines 49-74): the points of one tile are copied
    into each cell of a 3×3 block of tiles, so that the distance field of the
    centre tile sees its neighbours' points and wraps seamlessly. */
module Tiling {
  import opened Geometry

  /** Every point lies in the tile `[0, s-1]²`, the range of the uniform
      distribution that draws them (line 50). */
  predicate InTile(pts: seq<Point>, s: int) {
    forall i :: 0 <= i < |pts| ==> 0 <= pts[i].x < s && 0 <= pts[i].y < s
  }

  /** The tile offsets in the order the loops of lines 61-65 visit them:
      `y` outer, `x` inner. */
  const TileOffsets: seq<Point> := [
    Point(0, 0), Point(1, 0), Point(2, 0),
    Point(0, 1), Point(1, 1), Point(2, 1),
    Point(0, 2), Point(1, 2), Point(2, 2)
  ]

  /** The copy of `p` in the tile at offset `(x, y)` for tiles of side `s`. */
  function Replica(p: Point, s: int, x: int, y: int): Point {
    Translate(p, x * s, y * s)
  }

  /** All points translated by `(dx, dy)`, in their original order. */
  function ShiftAll(pts: seq<Point>, dx: int, dy: int): (r: seq<Point>)
    ensures |r| == |pts|
    ensures forall i :: 0 <= i < |pts| ==> r[i] == Translate(pts[i], dx, dy)
  {
    if pts == [] then [] else [Translate(pts[0], dx, dy)] + ShiftAll(pts[1..], dx, dy)
  }

  /** One full copy of `pts` per offset, block after block. */
  function Replicate(pts: seq<Point>, offsets: seq<Point>, s: int): (r: seq<Point>)
    ensures |r| == |offsets| * |pts|
  {
    if offsets == [] then []
    else
      var rest := Replicate(pts, offsets[1..], s);
      assert |offsets| * |pts| == |pts| + (|offsets| - 1) * |pts|;
      ShiftAll(pts, offsets[0].x * s, offsets[0].y * s) + rest
  }

  lemma MulPred(k: int, n: int)
    ensures k * n == n + (k - 1) * n
  {
  }

  /** `tiledWorleyPoints`: the 9 shifted copies of the tile's points. */
  function Tile(pts: seq<Point>, s: int): (r: seq<Point>)
    ensures |r| == 9 * |pts|
  {
    Replicate(pts, TileOffsets, s)
  }

  /** Where the copy of point `i` for tile offset `(x, y)` is pushed. */
  function TiledIndex(p: nat, x: int, y: int, i: int): int {
    (y * 3 + x) * p + i
  }

  lemma OffsetAt(x: int, y: int)
    requires 0 <= x < 3 && 0 <= y < 3
    ensures 0 <= y * 3 + x < 9 && TileOffsets[y * 3 + x] == Point(x, y)
  {
  }

  /** Block `k` of a replication holds point `i` shifted by offset `k`. */
  lemma {:induction false} ReplicateAt(pts: seq<Point>, offsets: seq<Point>, s: int, k: nat, i: nat)
    requires k < |offsets| && i < |pts|
    ensures k * |pts| + i < |Replicate(pts, offsets, s)|
    ensures Replicate(pts, offsets, s)[k * |pts| + i] == Replica(pts[i], s, offsets[k].x, offsets[k].y)
    decreases k
  {
    if k == 0 {
      ReplicateHead(pts, offsets, s, i);
    } else {
      ReplicateAt(pts, offsets[1..], s, k - 1, i);
      ReplicateTail(pts, offsets, s, (k - 1) * |pts| + i);
      MulPred(k, |pts|);
      assert offsets[1..][k - 1] == offsets[k];
    }
  }

  /** The first block of a replication is the first offset's copy. */
  lemma ReplicateHead(pts: seq<Point>, offsets: seq<Point>, s: int, i: nat)
    requires 0 < |offsets| && i < |pts|
    ensures 0 * |pts| + i < |Replicate(pts, offsets, s)|
    ensures Replicate(pts, offsets, s)[0 * |pts| + i] == Replica(pts[i], s, offsets[0].x, offsets[0].y)
  {
    var head := ShiftAll(pts, offsets[0].x * s, offsets[0].y * s);
    var rest := Replicate(pts, offsets[1..], s);
    assert Replicate(pts, offsets, s) == head + rest;
    assert (head + rest)[i] == head[i];
  }

  /** After the first block, a replication continues with the replication
      over the remaining offsets. */
  lemma ReplicateTail(pts: seq<Point>, offsets: seq<Point>, s: int, j: nat)
    requires 0 < |offsets| && j < |Replicate(pts, offsets[1..], s)|
    ensures |pts| + j < |Replicate(pts, offsets, s)|
    ensures Replicate(pts, offsets, s)[|pts| + j] == Replicate(pts, offsets[1..], s)[j]
  {
    var head := ShiftAll(pts, offsets[0].x * s, offsets[0].y * s);
    var rest := Replicate(pts, offsets[1..], s);
    assert Replicate(pts, offsets, s) == head + rest;
    assert (head + rest)[|pts| + j] == rest[j];
  }

  /** The tiled set holds, at `(y·3 + x)·P + i`, point `i` shifted by
      `(x·s, y·s)`, for every offset and every point. */
  lemma TileAt(pts: seq<Point>, s: int, x: int, y: int, i: int)
    requires 0 <= x < 3 && 0 <= y < 3 && 0 <= i < |pts|
    ensures 0 <= TiledIndex(|pts|, x, y, i) < |Tile(pts, s)|
    ensures Tile(pts, s)[TiledIndex(|pts|, x, y, i)] == Replica(pts[i], s, x, y)
  {
    OffsetAt(x, y);
    ReplicateAt(pts, TileOffsets, s, y * 3 + x, i);
  }

  /** Every point of a replication is a copy of some input point at some
      listed offset. */
  lemma {:induction false} ReplicateMember(pts: seq<Point>, offsets: seq<Point>, s: int, q: Point)
    requires q in Replicate(pts, offsets, s)
    ensures exists k, i ::
              0 <= k < |offsets| && 0 <= i < |pts| && q == Replica(pts[i], s, offsets[k].x, offsets[k].y)
    decreases |offsets|
  {
    var head := ShiftAll(pts, offsets[0].x * s, offsets[0].y * s);
    var rest := Replicate(pts, offsets[1..], s);
    assert Replicate(pts, offsets, s) == head + rest;
    if q in head {
      var i :| 0 <= i < |head| && head[i] == q;
      assert q == Replica(pts[i], s, offsets[0].x, offsets[0].y);
    } else {
      ReplicateMember(pts, offsets[1..], s, q);
      var k, i :| 0 <= k < |offsets| - 1 && 0 <= i < |pts|
        && q == Replica(pts[i], s, offsets[1..][k].x, offsets[1..][k].y);
      assert offsets[1..][k] == offsets[k + 1];
    }
  }

  /** A point is in the tiled set exactly when it is a copy of one of the
      tile's points at one of the nine offsets: no omissions and nothing else. */
  lemma TileMember(pts: seq<Point>, s: int, q: Point)
    ensures q in Tile(pts, s) <==>
      exists x, y, i :: 0 <= x < 3 && 0 <= y < 3 && 0 <= i < |pts| && q == Replica(pts[i], s, x, y)
  {
    if q in Tile(pts, s) {
      ReplicateMember(pts, TileOffsets, s, q);
      var k, i :| 0 <= k < 9 && 0 <= i < |pts|
        && q == Replica(pts[i], s, TileOffsets[k].x, TileOffsets[k].y);
      var x, y := TileOffsets[k].x, TileOffsets[k].y;
      assert 0 <= x < 3 && 0 <= y < 3;
    }
    if exists x, y, i :: 0 <= x < 3 && 0 <= y < 3 && 0 <= i < |pts| && q == Replica(pts[i], s, x, y) {
      var x, y, i :| 0 <= x < 3 && 0 <= y < 3 && 0 <= i < |pts| && q == Replica(pts[i], s, x, y);
      TileAt(pts, s, x, y, i);
    }
  }

  lemma ReplicaInCanvas(p: Point, s: int, x: int, y: int)
    requires 0 <= p.x < s && 0 <= p.y < s
    requires 0 <= x < 3 && 0 <= y < 3
    ensures 0 <= Replica(p, s, x, y).x < 3 * s && 0 <= Replica(p, s, x, y).y < 3 * s
  {
  }

  /** Points drawn inside the tile stay on the `3s × 3s` canvas once tiled. */
  lemma TiledInCanvas(pts: seq<Point>, s: int)
    requires InTile(pts, s)
    ensures forall q :: q in Tile(pts, s) ==> 0 <= q.x < 3 * s && 0 <= q.y < 3 * s
  {
    forall q | q in Tile(pts, s)
      ensures 0 <= q.x < 3 * s && 0 <= q.y < 3 * s
    {
      TileMember(pts, s, q);
      var x, y, i :| 0 <= x < 3 && 0 <= y < 3 && 0 <= i < |pts| && q == Replica(pts[i], s, x, y);
      ReplicaInCanvas(pts[i], s, x, y);
    }
  }
}

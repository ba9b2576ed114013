/** The distance-field renderer, `generateTiledWorleyNoise` (lines 43-107):
    for every pixel of the `3S × 3S` canvas, the colour of its nearest tiled
    feature point, written as RGBA into a flat row-major byte buffer. */
module Render {
  import opened CppInt
  import opened Geometry
  import opened Config
  import opened Shading
  import opened Tiling
  import opened Nearest

  /** The grey level of the pixel at `(x, y)` (lines 85-95). */
  function PixelColour(tiled: seq<Point>, x: int, y: int): Byte
    requires |tiled| > 0
  {
    Shade(NearestDistance(Point(x, y), tiled))
  }

  /** The grey level of every pixel, numbered row-major: pixel `q` is at
      `(q % side, q / side)`, the order in which the loops of lines 80-82
      visit them. */
  function Colours(tiled: seq<Point>, side: nat): (cs: seq<Byte>)
    requires |tiled| > 0
    ensures |cs| == side * side
  {
    if side == 0 then []
    else seq(side * side, q requires 0 <= q < side * side => PixelColour(tiled, q % side, q / side))
  }

  /** Grey levels laid out as RGBA bytes `(c, c, c, 255)`, one pixel after
      another (lines 98-102): byte `j` is channel `j % 4` of pixel `j / 4`. */
  function Rgba(cs: seq<Byte>): (buf: seq<Byte>)
    ensures |buf| == |cs| * 4
  {
    seq(|cs| * 4, j requires 0 <= j < |cs| * 4 => if j % 4 == 3 then 255 else cs[j / 4])
  }

  /** Bytes `(y·side + x)·4 + {0, 1, 2}` hold `c` and byte `+3` is 255. */
  predicate PixelAt(buf: seq<Byte>, side: int, x: int, y: int, c: int) {
    var o := (y * side + x) * 4;
    0 <= o && o + 3 < |buf| && buf[o] == c && buf[o + 1] == c && buf[o + 2] == c && buf[o + 3] == 255
  }

  /** The RGBA bytes of pixel number `y·side + x` are those of `(x, y)`. */
  lemma RgbaPixel(cs: seq<Byte>, side: int, x: int, y: int, q: int, c: int)
    requires q == y * side + x && 0 <= q < |cs| && cs[q] == c
    ensures PixelAt(Rgba(cs), side, x, y, c)
  {
    var o := q * 4;
    assert o / 4 == q && (o + 1) / 4 == q && (o + 2) / 4 == q && (o + 3) / 4 == q;
    assert o % 4 == 0 && (o + 1) % 4 == 1 && (o + 2) % 4 == 2 && (o + 3) % 4 == 3;
  }

  /** Pixel number `y·side + x` lies on the canvas, at column `x` and row `y`. */
  lemma PixelIndex(side: nat, x: int, y: int)
    requires 0 <= x < side && 0 <= y < side
    ensures 0 <= y * side + x < side * side
    ensures (y * side + x) % side == x && (y * side + x) / side == y
  {
    MulNonNegative(y, side);
    MulStrictStep(y, side, side);
    DivModUnique(y * side + x, side, y, x);
  }

  /** Pixel number `y·side + x` is the pixel at `(x, y)`. */
  lemma ColourAt(tiled: seq<Point>, side: nat, x: int, y: int)
    requires |tiled| > 0 && 0 <= x < side && 0 <= y < side
    ensures 0 <= y * side + x < side * side
    ensures Colours(tiled, side)[y * side + x] == PixelColour(tiled, x, y)
  {
    PixelIndex(side, x, y);
    var q := y * side + x;
    assert Colours(tiled, side)[q] == PixelColour(tiled, q % side, q / side);
  }

  /** `tiledPixels`: the `side × side` canvas as RGBA bytes. Every pixel
      carries its own grey level in R, G and B and an opaque alpha. */
  function Render(tiled: seq<Point>, side: nat): (buf: seq<Byte>)
    requires |tiled| > 0
    ensures |buf| == side * side * 4
    ensures forall x, y :: 0 <= x < side && 0 <= y < side ==>
      PixelAt(buf, side, x, y, PixelColour(tiled, x, y))
  {
    var cs := Colours(tiled, side);
    forall x, y | 0 <= x < side && 0 <= y < side
      ensures PixelAt(Rgba(cs), side, x, y, PixelColour(tiled, x, y))
    {
      CanvasPixel(tiled, side, x, y);
    }
    Rgba(cs)
  }

  lemma CanvasPixel(tiled: seq<Point>, side: nat, x: int, y: int)
    requires |tiled| > 0 && 0 <= x < side && 0 <= y < side
    ensures PixelAt(Rgba(Colours(tiled, side)), side, x, y, PixelColour(tiled, x, y))
  {
    var cs := Colours(tiled, side);
    ColourAt(tiled, side, x, y);
    var q := y * side + x;
    RgbaPixel(cs, side, x, y, q, cs[q]);
  }

  /** Pixel number `q` of a `side × side` canvas lies at
      `(q % side, q / side)`, which is on the canvas. */
  lemma PixelCoordinates(side: nat, q: int)
    requires 0 <= q < side * side
    ensures side > 0
    ensures 0 <= q % side < side && 0 <= q / side < side
    ensures q == (q / side) * side + q % side
  {
  }

  /** No byte is left out: in any buffer of `side² · 4` bytes that meets
      the per-pixel contract of `Render`, byte `j` is channel `j % 4` of the
      pixel numbered `j / 4`, at `((j/4) % side, (j/4) / side)`. So the
      buffer holds pixel data and nothing else. */
  lemma PixelsFillBuffer(tiled: seq<Point>, side: nat, buf: seq<Byte>, j: int)
    requires |tiled| > 0 && |buf| == side * side * 4 && 0 <= j < |buf|
    requires forall x, y :: 0 <= x < side && 0 <= y < side ==>
      PixelAt(buf, side, x, y, PixelColour(tiled, x, y))
    ensures side > 0
    ensures buf[j] ==
      if j % 4 == 3 then 255 else PixelColour(tiled, (j / 4) % side, (j / 4) / side)
  {
    var q := j / 4;
    EuclidBounds(j, 4);
    PixelCoordinates(side, q);
    var x, y := q % side, q / side;
    assert PixelAt(buf, side, x, y, PixelColour(tiled, x, y));
    assert (y * side + x) * 4 == j - j % 4;
  }

  /** The feature points one call draws (lines 49-55): `WORLEY_POINTS`
      points, both coordinates uniform in `[0, TEXTURE_SIZE - 1]`. */
  predicate Drawn(points: seq<Point>) {
    |points| == WORLEY_POINTS && InTile(points, TEXTURE_SIZE)
  }

  /** `generateTiledWorleyNoise` once its random draws are made: the tile's
      feature points are tiled 3×3 and the `192 × 192` canvas rendered. */
  function GenerateTiledWorleyNoise(points: seq<Point>): (buf: seq<Byte>)
    requires |points| > 0
    ensures |buf| == TILED_TEXTURE_SIZE * TILED_TEXTURE_SIZE * 4
    ensures forall x, y :: 0 <= x < TILED_TEXTURE_SIZE && 0 <= y < TILED_TEXTURE_SIZE ==>
      PixelAt(buf, TILED_TEXTURE_SIZE, x, y, PixelColour(Tile(points, TEXTURE_SIZE), x, y))
  {
    Render(Tile(points, TEXTURE_SIZE), TILED_TEXTURE_SIZE)
  }

  /** A pixel is white exactly when it sits on a copy of a feature point. */
  lemma WhiteExactlyOnFeaturePoints(points: seq<Point>, s: int, x: int, y: int)
    requires |points| > 0
    ensures PixelColour(Tile(points, s), x, y) == 255 <==>
      exists tx, ty, i ::
        0 <= tx < 3 && 0 <= ty < 3 && 0 <= i < |points|
        && Point(x, y) == Replica(points[i], s, tx, ty)
  {
    NearestDistanceZero(Point(x, y), Tile(points, s));
    TileMember(points, s, Point(x, y));
  }

  /** A pixel is black exactly when every tiled feature point is at least 32
      pixels away (after truncation). */
  lemma BlackExactlyFarFromFeaturePoints(tiled: seq<Point>, x: int, y: int)
    requires |tiled| > 0
    ensures PixelColour(tiled, x, y) == 0 <==>
      forall j :: 0 <= j < |tiled| ==> Distance(Point(x, y), tiled[j]) >= 32
  {
  }

  /** Clamp a tile offset into the rendered 3×3 block. */
  function ClampOffset(a: int): int {
    if a < 0 then 0 else if a > 2 then 2 else a
  }

  /** Along one axis, for a coordinate `c` in the centre tile, the copy of a
      tile coordinate `v` at the clamped offset is no farther than the copy
      at offset `a`. */
  lemma AxisCloser(c: int, v: int, s: int, a: int)
    requires s > 0 && 0 <= v < s && s <= c < 2 * s
    ensures Abs(c - (v + ClampOffset(a) * s)) <= Abs(c - (v + a * s))
  {
    MulStrictStep(a, 0, s);
    MulStrictStep(2, a, s);
  }

  /** Seamlessness: for a pixel of the centre tile (the tile that the
      preview and the spritesheet cut out, lines 155 and 207), the nearest
      distance over the 3×3 block equals the nearest distance over the
      infinite periodic tiling: no copy of any feature point at any tile
      offset is closer, and a copy inside the block attains it. */
  lemma CentreTileSeamless(points: seq<Point>, s: int, p: Point, i: int, a: int, b: int)
    requires s > 0 && |points| > 0 && InTile(points, s)
    requires s <= p.x < 2 * s && s <= p.y < 2 * s
    requires 0 <= i < |points|
    ensures NearestDistance(p, Tile(points, s)) <= Distance(p, Replica(points[i], s, a, b))
    ensures exists tx, ty, k ::
              0 <= tx < 3 && 0 <= ty < 3 && 0 <= k < |points|
              && NearestDistance(p, Tile(points, s)) == Distance(p, Replica(points[k], s, tx, ty))
  {
    var tiled := Tile(points, s);
    var a', b' := ClampOffset(a), ClampOffset(b);
    AxisCloser(p.x, points[i].x, s, a);
    AxisCloser(p.y, points[i].y, s, b);
    DistanceMonotone(p, Replica(points[i], s, a', b'), Replica(points[i], s, a, b));
    TileAt(points, s, a', b', i);
    var j :| 0 <= j < |tiled| && NearestDistance(p, tiled) == Distance(p, tiled[j]);
    assert tiled[j] in tiled;
    TileMember(points, s, tiled[j]);
  }
}

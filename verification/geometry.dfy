/** `Point` and `Point::distanceTo`. The source computes the distance in
    `double` and stores it in a `std::vector<int>`, which truncates it; here
    that composite is the integer square root of the squared distance. */
module Geometry {
  import opened CppInt

  /** A pixel or feature-point coordinate. */
  datatype Point = Point(x: int, y: int)

  /** `p` moved by `(dx, dy)`. */
  function Translate(p: Point, dx: int, dy: int): Point {
    Point(p.x + dx, p.y + dy)
  }

  function Square(a: int): nat {
    MulNonNegative(Abs(a), Abs(a));
    Abs(a) * Abs(a)
  }

  function SquaredDistance(p: Point, q: Point): nat {
    Square(p.x - q.x) + Square(p.y - q.y)
  }

  /** The integer square root: the largest `r` with `r * r <= n`. */
  function Isqrt(n: nat): (r: nat)
    ensures r * r <= n < (r + 1) * (r + 1)
    decreases n
  {
    if n < 4 then
      if n == 0 then 0 else 1
    else
      var h := Isqrt(n / 4);
      IsqrtStep(n, h);
      if (2 * h + 1) * (2 * h + 1) <= n then 2 * h + 1 else 2 * h
  }

  /** From the root of `n / 4`, twice it brackets the root of `n`. */
  lemma IsqrtStep(n: nat, h: nat)
    requires h * h <= n / 4 < (h + 1) * (h + 1)
    ensures (2 * h) * (2 * h) <= n < (2 * h + 2) * (2 * h + 2)
  {
    assert (2 * h) * (2 * h) == 4 * (h * h);
    assert (2 * h + 2) * (2 * h + 2) == 4 * ((h + 1) * (h + 1));
  }

  /** Squaring is monotone on non-negative integers. */
  lemma SquareMonotone(a: int, b: int)
    requires 0 <= a && 0 <= b
    ensures a <= b ==> a * a <= b * b
  {
    if a <= b {
      MulNonNegative(b - a, a);
      MulNonNegative(b - a, b);
      assert b * b - a * a == (b - a) * a + (b - a) * b;
    }
  }

  /** The defining bounds of `Isqrt` pick out exactly one number. */
  lemma IsqrtUnique(n: nat, r: nat)
    requires r * r <= n < (r + 1) * (r + 1)
    ensures r == Isqrt(n)
  {
    var s := Isqrt(n);
    SquareMonotone(r + 1, s);
    SquareMonotone(s + 1, r);
  }

  lemma IsqrtMonotone(m: nat, n: nat)
    requires m <= n
    ensures Isqrt(m) <= Isqrt(n)
  {
    var a, b := Isqrt(m), Isqrt(n);
    SquareMonotone(b + 1, a);
  }

  /** `current.distanceTo(other)` as stored into the `int` vector: the
      truncated Euclidean distance. */
  function Distance(p: Point, q: Point): (d: nat)
    ensures d * d <= SquaredDistance(p, q) < (d + 1) * (d + 1)
    ensures d == 0 <==> p == q
  {
    var d := Isqrt(SquaredDistance(p, q));
    SquareMonotone(1, d);
    d
  }

  lemma DistanceSymmetric(p: Point, q: Point)
    ensures Distance(p, q) == Distance(q, p)
  {
    assert SquaredDistance(p, q) == SquaredDistance(q, p);
  }

  /** A point no farther along either axis is no farther away. */
  lemma DistanceMonotone(p: Point, q: Point, q': Point)
    requires Abs(p.x - q.x) <= Abs(p.x - q'.x)
    requires Abs(p.y - q.y) <= Abs(p.y - q'.y)
    ensures Distance(p, q) <= Distance(p, q')
  {
    SquareMonotone(Abs(p.x - q.x), Abs(p.x - q'.x));
    SquareMonotone(Abs(p.y - q.y), Abs(p.y - q'.y));
    var n, n' := SquaredDistance(p, q), SquaredDistance(p, q');
    var d, d' := Distance(p, q), Distance(p, q');
    SquareMonotone(d' + 1, d);
  }
}

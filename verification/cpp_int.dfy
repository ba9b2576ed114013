/** The pieces of C++ integer semantics the generator relies on: `int`
    division, which truncates toward zero (Dafny's `/` is Euclidean), and the
    32-bit range of `int`, used to show that no intermediate overflows. */
module CppInt {

  function Abs(a: int): int {
    if a < 0 then -a else a
  }

  function Min(a: int, b: int): (m: int)
    ensures m <= a && m <= b
    ensures m == a || m == b
  {
    if a <= b then a else b
  }

  /** True iff `a` is representable as a 32-bit two's-complement `int`. */
  predicate IsInt32(a: int) {
    -0x8000_0000 <= a < 0x8000_0000
  }

  /** C++ `a / b` on `int`: the quotient rounded toward zero, so the
      remainder takes the sign of the dividend. */
  function TruncDiv(a: int, b: int): (q: int)
    requires b != 0
    ensures a >= 0 ==> 0 <= a - q * b < Abs(b)
    ensures a < 0 ==> -Abs(b) < a - q * b <= 0
  {
    var m, d := Abs(a), Abs(b);
    EuclidBounds(m, d);
    NegMul(m / d, d);
    if (a < 0) == (b < 0) then m / d else -(m / d)
  }

  /** The remainder bounds of `TruncDiv` determine the quotient. */
  lemma TruncDivUnique(a: int, b: int, q: int)
    requires b != 0
    requires a >= 0 ==> 0 <= a - q * b < Abs(b)
    requires a < 0 ==> -Abs(b) < a - q * b <= 0
    ensures q == TruncDiv(a, b)
  {
    var t := TruncDiv(a, b);
    // Both remainders lie in one half-open interval of width |b|, so the
    // quotients differ by a multiple of b that is smaller than b.
    MulSubDistrib(t, q, b);
    MulAwayFromZero(t - q, b);
  }

  /** On a non-negative dividend and a positive divisor, truncation and
      Euclidean division agree. */
  lemma TruncDivOfNonNegative(a: int, b: int)
    requires a >= 0 && b > 0
    ensures TruncDiv(a, b) == a / b
  {
    TruncDivUnique(a, b, a / b);
  }

  /** Truncating division is symmetric about zero in the dividend. */
  lemma TruncDivNegate(a: int, b: int)
    requires b != 0
    ensures TruncDiv(-a, b) == -TruncDiv(a, b)
  {
    var q := TruncDiv(a, b);
    assert -a - (-q) * b == -(a - q * b);
    TruncDivUnique(-a, b, -q);
  }

  /** Euclidean division by a positive divisor is monotone in the dividend. */
  lemma DivMonotone(a1: int, a2: int, b: int)
    requires a1 <= a2 && b > 0
    ensures a1 / b <= a2 / b
  {
    var q1, q2 := a1 / b, a2 / b;
    EuclidBounds(a1, b);
    EuclidBounds(a2, b);
    MulStrictStep(q2, q1, b);
  }

  /** C++ `int` division by a positive divisor is monotone in the dividend,
      including across zero, where truncation differs from flooring. */
  lemma TruncDivMonotone(a1: int, a2: int, b: int)
    requires a1 <= a2 && b > 0
    ensures TruncDiv(a1, b) <= TruncDiv(a2, b)
  {
    if a1 >= 0 {
      TruncDivOfNonNegative(a1, b);
      TruncDivOfNonNegative(a2, b);
      DivMonotone(a1, a2, b);
    } else if a2 < 0 {
      TruncDivMonotoneNegative(a1, a2, b);
    } else {
      TruncDivSign(a1, b);
      TruncDivSign(a2, b);
    }
  }

  lemma TruncDivMonotoneNegative(a1: int, a2: int, b: int)
    requires a1 <= a2 < 0 && b > 0
    ensures TruncDiv(a1, b) <= TruncDiv(a2, b)
  {
    TruncDivNegate(-a1, b);
    TruncDivNegate(-a2, b);
    TruncDivOfNonNegative(-a1, b);
    TruncDivOfNonNegative(-a2, b);
    DivMonotone(-a2, -a1, b);
  }

  /** With a positive divisor the quotient has the sign of the dividend. */
  lemma TruncDivSign(a: int, b: int)
    requires b > 0
    ensures a >= 0 ==> TruncDiv(a, b) >= 0
    ensures a <= 0 ==> TruncDiv(a, b) <= 0
  {
    var q := TruncDiv(a, b);
    MulStrictStep(q, 0, b);
    MulStrictStep(0, q, b);
  }

  /** Euclidean division is determined by its quotient-remainder bounds. */
  lemma DivModUnique(n: int, d: int, q: int, r: int)
    requires d > 0 && 0 <= r < d && n == q * d + r
    ensures n / d == q && n % d == r
  {
    var q', r' := n / d, n % d;
    assert n == q' * d + r';
    MulStrictStep(q, q', d);
    MulStrictStep(q', q, d);
  }

  // Small facts of non-linear integer arithmetic, stated separately so that
  // each proof that needs one sees only that fact.

  lemma EuclidBounds(m: int, d: int)
    requires d > 0
    ensures 0 <= m - (m / d) * d < d
  {
  }

  lemma NegMul(x: int, y: int)
    ensures (-x) * y == -(x * y) && x * (-y) == -(x * y)
  {
  }

  lemma MulAtLeast(k: int, b: int)
    requires k >= 1 && b > 0
    ensures k * b >= b
  {
    assert k * b == b + (k - 1) * b;
  }

  lemma MulSubDistrib(x: int, y: int, b: int)
    ensures (x - y) * b == x * b - y * b
  {
  }

  lemma MulAwayFromZero(k: int, b: int)
    ensures k != 0 ==> Abs(k * b) >= Abs(b)
  {
    if k != 0 {
      if b != 0 {
        MulAtLeast(Abs(k), Abs(b));
        assert Abs(k) * Abs(b) == Abs(k * b);
      }
    }
  }

  lemma MulStrictStep(x: int, y: int, b: int)
    requires b > 0
    ensures x < y ==> x * b + b <= y * b
  {
    if x < y {
      MulAtLeast(y - x, b);
      assert (y - x) * b == y * b - x * b;
    }
  }

  lemma MulMonotone(a: int, b: int, k: int)
    requires k >= 0
    ensures a <= b ==> a * k <= b * k
  {
    if a <= b {
      MulNonNegative(b - a, k);
      assert (b - a) * k == b * k - a * k;
    }
  }

  lemma MulNonNegative(x: int, y: int)
    requires x >= 0 && y >= 0
    ensures x * y >= 0
  {
  }
}

/**
 * Go's 64-bit signed integer arithmetic on top of Dafny's unbounded `int`:
 * two's-complement wrap-around, the saturation used by `time.Time.Sub`, and
 * division and remainder that truncate toward zero.
 */
module GoInt {

  const MinInt64: int := -0x8000_0000_0000_0000
  const MaxInt64: int := 0x7fff_ffff_ffff_ffff
  const TwoTo64: int := 0x1_0000_0000_0000_0000

  type Int64 = x: int | MinInt64 <= x <= MaxInt64

  predicate InRange(x: int) {
    MinInt64 <= x <= MaxInt64
  }

  /** The value Go's int64 arithmetic yields for the mathematical result `x`. */
  function Wrap(x: int): (r: Int64)
    ensures InRange(x) ==> r == x
    ensures (r - x) % TwoTo64 == 0
  {
    (x - MinInt64) % TwoTo64 + MinInt64
  }

  /** Clamp `x` into the int64 range, as `time.Time.Sub` does on overflow. */
  function Saturate(x: int): (r: Int64)
    ensures InRange(x) ==> r == x
    ensures x > MaxInt64 ==> r == MaxInt64
    ensures x < MinInt64 ==> r == MinInt64
  {
    if x > MaxInt64 then MaxInt64 else if x < MinInt64 then MinInt64 else x
  }

  function Abs(x: int): nat {
    if x < 0 then -x else x
  }

  /** Go's `/`: the quotient truncated toward zero. */
  function Quo(a: int, b: int): int
    requires b != 0
  {
    var m := Abs(a) / Abs(b);
    if (a < 0) == (b < 0) then m else -m
  }

  /** Go's `%`: the remainder that goes with `Quo`. */
  function Rem(a: int, b: int): int
    requires b != 0
  {
    a - Quo(a, b) * b
  }

  lemma DivBounds(A: nat, B: nat)
    requires B > 0
    ensures A - B < (A / B) * B <= A
  {
    assert A == (A / B) * B + A % B;
  }

  /** The magnitude of the truncated quotient is the quotient of the magnitudes. */
  lemma QuoMagnitude(a: int, b: int)
    requires b != 0
    ensures Abs(Quo(a, b)) == Abs(a) / Abs(b)
  {
  }

  /**
   * The truncated quotient is the largest multiple of the divisor that does
   * not exceed the dividend in magnitude, and it is signed like `a * b`.
   */
  lemma QuoBounds(a: int, b: int)
    requires b != 0
    ensures Abs(a) - Abs(b) < Abs(Quo(a, b)) * Abs(b) <= Abs(a)
    ensures Quo(a, b) > 0 ==> (a > 0) == (b > 0)
    ensures Quo(a, b) < 0 ==> (a > 0) != (b > 0)
  {
    QuoMagnitude(a, b);
    DivBounds(Abs(a), Abs(b));
    QuoSign(a, b);
  }

  /** A non-zero truncated quotient is positive exactly when dividend and divisor agree in sign. */
  lemma QuoSign(a: int, b: int)
    requires b != 0
    ensures Quo(a, b) > 0 ==> (a > 0) == (b > 0)
    ensures Quo(a, b) < 0 ==> (a > 0) != (b > 0)
  {
    NatDiv(Abs(a), Abs(b));
    if a == 0 {
      DivUnique(0, Abs(b), 0, 0);
    }
  }

  lemma NatDiv(A: nat, B: nat)
    requires B > 0
    ensures A / B >= 0
  {
  }

  /** Truncating division commutes with negating the dividend. */
  lemma QuoOdd(a: int, b: int)
    requires b != 0
    ensures Quo(-a, b) == -Quo(a, b)
  {
    if a == 0 {
      assert Abs(a) / Abs(b) == 0;
    } else {
      assert Abs(-a) == Abs(a);
    }
  }

  lemma MulAtLeast(m: nat, B: nat)
    requires B >= 1
    ensures m <= m * B
  {
    assert m * B == m + m * (B - 1);
  }

  /** Dividing by a non-zero integer never increases the magnitude. */
  lemma QuoShrinks(a: int, b: int)
    requires b != 0
    ensures Abs(Quo(a, b)) <= Abs(a)
    ensures b > 0 && InRange(a) ==> InRange(Quo(a, b))
  {
    var A, B := Abs(a), Abs(b);
    NatDiv(A, B);
    DivBounds(A, B);
    MulAtLeast(A / B, B);
    QuoMagnitude(a, b);
    QuoSign(a, b);
  }

  /** Go's remainder by a positive divisor: the remainder of the magnitude, carrying the dividend's sign. */
  lemma RemSign(a: int, b: int)
    requires b > 0
    ensures Rem(a, b) == if a < 0 then -(Abs(a) % b) else Abs(a) % b
  {
    var m := Abs(a) / b;
    assert Abs(a) == m * b + Abs(a) % b;
    if a < 0 {
      assert Quo(a, b) == -m;
      assert Quo(a, b) * b == -(m * b);
    } else {
      assert Quo(a, b) == m;
    }
  }

  /** A quotient is pinned down by its remainder bound. */
  lemma DivUnique(x: nat, m: nat, q: nat, r: nat)
    requires m > 0 && x == q * m + r && r < m
    ensures x / m == q
  {
    DivBounds(x, m);
    var d := x / m;
    assert (d - q) * m == d * m - q * m;
    OnlyZeroFits(d - q, m);
  }

  /** Quotient and remainder are pinned down by the division equation and the remainder bound. */
  lemma DivModOf(n: int, m: int, q: int, r: int)
    requires m > 0 && n == q * m + r && 0 <= r < m
    ensures n / m == q && n % m == r
  {
    var d := n / m;
    assert n == d * m + n % m;
    assert (d - q) * m == d * m - q * m;
    OnlyZeroFits(d - q, m);
  }

  /** Reducing modulo a multiple of `b` first does not change the remainder modulo `b`. */
  lemma ModMod(n: int, a: int, b: int)
    requires a > 0 && b > 0
    ensures n % (a * b) % b == n % b
  {
    var R := n % (a * b);
    var Q := n / (a * b);
    assert n == Q * (a * b) + R;
    var q2, r2 := R / b, R % b;
    assert R == q2 * b + r2;
    assert Q * (a * b) == (Q * a) * b;
    assert n == (Q * a + q2) * b + r2;
    DivModOf(n, b, Q * a + q2, r2);
  }

  lemma OnlyZeroFits(k: int, m: int)
    requires m > 0 && -m < k * m < m
    ensures k == 0
  {
  }

  lemma RegroupProduct(q2: nat, b: nat, a: nat, r2: nat, r1: nat)
    ensures (q2 * b + r2) * a + r1 == q2 * (a * b) + (r2 * a + r1)
  {
  }

  lemma RemainderFits(r2: nat, b: nat, a: nat, r1: nat)
    requires r2 < b && r1 < a
    ensures r2 * a + r1 < a * b
  {
    assert r2 * a <= (b - 1) * a;
  }

  /** Dividing in two steps by positive divisors is dividing once by their product. */
  lemma DivDiv(x: nat, a: nat, b: nat)
    requires a > 0 && b > 0
    ensures x / a / b == x / (a * b)
  {
    var q1, r1 := x / a, x % a;
    var q2, r2 := q1 / b, q1 % b;
    assert x == q1 * a + r1;
    assert q1 == q2 * b + r2;
    RegroupProduct(q2, b, a, r2, r1);
    RemainderFits(r2, b, a, r1);
    DivUnique(x, a * b, q2, r2 * a + r1);
  }

  /** Go's truncating division in two steps by positive divisors is one division by their product. */
  lemma QuoQuo(n: int, a: int, b: int)
    requires a > 0 && b > 0
    ensures Quo(Quo(n, a), b) == Quo(n, a * b)
  {
    DivDiv(Abs(n), a, b);
    assert Abs(Quo(n, a)) == Abs(n) / a;
  }
}

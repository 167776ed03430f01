/** Java `int` arithmetic on unbounded integers: 32-bit two's-complement
    wrap-around and division that truncates toward zero (section 15.17.2 of
    the Java Language Specification). Dafny's own `/` is Euclidean and its
    integers never overflow, so both are written out here. */
module JavaInt {

  const MinInt: int := -0x8000_0000
  const MaxInt: int := 0x7fff_ffff
  const Modulus: int := 0x1_0000_0000

  predicate InRange(x: int) {
    MinInt <= x <= MaxInt
  }

  /** The values of a Java `int`. */
  type Int32 = x: int | MinInt <= x <= MaxInt

  function Abs(x: int): (r: int)
    ensures r >= 0 && (r == x || r == -x)
  {
    if x < 0 then -x else x
  }

  lemma {:induction false} MulNonNegative(x: int, y: int)
    requires x >= 0 && y >= 0
    ensures x * y >= 0
    decreases y
  {
    if y > 0 {
      assert x * y == x * (y - 1) + x;
      MulNonNegative(x, y - 1);
    }
  }

  lemma MulPositive(d: int, k: int)
    requires d > 0 && k >= 1
    ensures d * k >= d
  {
    assert d * k == d * (k - 1) + d;
    MulNonNegative(d, k - 1);
  }

  /** `a % d == r` and `a / d == q` follow from `a == d * q + r` with `0 <= r < d`. */
  lemma DivModUnique(a: int, d: int, q: int, r: int)
    requires d > 0 && 0 <= r < d && a == d * q + r
    ensures a / d == q && a % d == r
  {
    var q', r' := a / d, a % d;
    assert a == d * q' + r';
    if q' < q {
      assert d * q - d * q' == d * (q - q');
      MulPositive(d, q - q');
      assert false;
    } else if q < q' {
      assert d * q' - d * q == d * (q' - q);
      MulPositive(d, q' - q);
      assert false;
    }
  }

  /** The `int` that a Java computation of the exact value `x` produces: the
      unique value in range congruent to `x` modulo 2^32. */
  function Wrap(x: int): (r: Int32)
    ensures InRange(x) ==> r == x
    ensures (x - r) % Modulus == 0
  {
    var m := (x - MinInt) % Modulus;
    DivModUnique(x - MinInt, Modulus, (x - MinInt) / Modulus, m);
    DivModUnique(x - (m + MinInt), Modulus, (x - MinInt) / Modulus, 0);
    if InRange(x) then
      DivModUnique(x - MinInt, Modulus, 0, x - MinInt);
      m + MinInt
    else
      m + MinInt
  }

  /** Two exact values with the same remainder modulo 2^32 wrap to the same `int`. */
  lemma {:induction false} WrapCongruent(x: int, y: int)
    requires (x - y) % Modulus == 0
    ensures Wrap(x) == Wrap(y)
  {
    var k := (x - y) / Modulus;
    DivModUnique(x - y, Modulus, k, 0);
    var qy := (y - MinInt) / Modulus;
    var my := (y - MinInt) % Modulus;
    assert x - MinInt == Modulus * (k + qy) + my;
    DivModUnique(x - MinInt, Modulus, k + qy, my);
  }

  /** Wrapping an intermediate result early changes nothing, so a running
      `int` total equals the wrapped exact total. */
  lemma {:induction false} WrapAddAbsorbs(x: int, y: int)
    ensures Wrap(Wrap(x) + y) == Wrap(x + y)
  {
    var w := Wrap(x);
    var k := (x - w) / Modulus;
    DivModUnique(x - w, Modulus, k, 0);
    assert (x + y) - (w + y) == Modulus * k + 0;
    DivModUnique((x + y) - (w + y), Modulus, k, 0);
    WrapCongruent(w + y, x + y);
  }

  /** Java `a + b` on `int`. */
  function Add(a: Int32, b: Int32): (r: Int32)
    ensures InRange(a + b) ==> r == a + b
    ensures a + b > MaxInt ==> r == a + b - Modulus
    ensures a + b < MinInt ==> r == a + b + Modulus
  {
    var r := Wrap(a + b);
    var k := (a + b - r) / Modulus;
    DivModUnique(a + b - r, Modulus, k, 0);
    assert -2 < k < 2;
    r
  }

  /** Java `a * b` on `int`. */
  function Mul(a: Int32, b: Int32): (r: Int32)
    ensures InRange(a * b) ==> r == a * b
    ensures (a * b - r) % Modulus == 0
  {
    Wrap(a * b)
  }

  /** Division rounding toward zero, on unbounded integers: the remainder
      `a - b * q` takes the sign of the dividend and is smaller than the divisor
      in magnitude. */
  function Quot(a: int, b: int): (q: int)
    requires b != 0
    ensures a >= 0 && b > 0 ==> q == a / b
    ensures a >= 0 ==> 0 <= a - b * q < Abs(b)
    ensures a < 0 ==> -Abs(b) < a - b * q <= 0
    ensures Abs(q) <= Abs(a)
  {
    var q := if (a < 0) == (b < 0) then Abs(a) / Abs(b) else -(Abs(a) / Abs(b));
    QuotFacts(a, b, q);
    q
  }

  lemma QuotFacts(a: int, b: int, q: int)
    requires b != 0
    requires q == if (a < 0) == (b < 0) then Abs(a) / Abs(b) else -(Abs(a) / Abs(b))
    ensures a >= 0 && b > 0 ==> q == a / b
    ensures a >= 0 ==> 0 <= a - b * q < Abs(b)
    ensures a < 0 ==> -Abs(b) < a - b * q <= 0
    ensures Abs(q) <= Abs(a)
  {
    var A, B := Abs(a), Abs(b);
    var q0 := A / B;
    QuotMagnitude(A, B);
    var p := B * q0;
    if b > 0 {
      assert b * q0 == p;
      if a >= 0 {
        assert q == q0;
      } else {
        assert q == -q0;
        assert b * q == -p;
      }
    } else {
      NegatedProducts(B, q0);
      if a >= 0 {
        assert q == -q0;
        assert b * q == p;
      } else {
        assert q == q0;
        assert b * q == -p;
      }
    }
  }

  lemma NegatedProducts(x: int, y: int)
    ensures (-x) * (-y) == x * y && (-x) * y == -(x * y)
  {
  }

  lemma QuotMagnitude(A: int, B: int)
    requires A >= 0 && B > 0
    ensures 0 <= A - B * (A / B) < B
    ensures A / B <= A
  {
    var q0 := A / B;
    if q0 > 0 {
      assert B * q0 == (B - 1) * q0 + q0;
      MulNonNegative(B - 1, q0);
    }
  }

  /** Java `a / b` on `int` (the single overflow, `MinInt / -1`, wraps to `MinInt`). */
  function Div(a: Int32, b: Int32): (r: Int32)
    requires b != 0
    ensures InRange(Quot(a, b)) ==> r == Quot(a, b)
    ensures a >= 0 && b > 0 ==> r == a / b
    ensures !InRange(Quot(a, b)) ==> r == MinInt
  {
    Wrap(Quot(a, b))
  }
}

/** Token modifiers as a bit set in one Java `int`, as the semantic-tokens
    encoding of the Language Server Protocol 3.16 lays them out: modifier `i`
    of the legend is present when bit `i` is set. The test helper reads bit
    `i` as `((encoded >>> i) & 1) == 1`. */
module ModifierBits {
  import opened JavaInt

  function Pow2(n: nat): (p: nat)
    ensures p >= 1
  {
    if n == 0 then 1 else 2 * Pow2(n - 1)
  }

  /** The 32 bits of an `int` read as an unsigned number. */
  function Unsigned(x: Int32): (u: int)
    ensures 0 <= u < Modulus
    ensures (u - x) % Modulus == 0
  {
    if x < 0 then
      DivModUnique(x + Modulus - x, Modulus, 1, 0);
      x + Modulus
    else
      DivModUnique(0, Modulus, 0, 0);
      x
  }

  /** Logical right shift of a non-negative value: `n` halvings. */
  function ShiftRight(u: nat, n: nat): nat {
    if n == 0 then u else ShiftRight(u / 2, n - 1)
  }

  /** `((encoded >>> i) & 1) == 1`: Java's `>>>` shifts the unsigned bits and
      uses only the low five bits of the distance. */
  predicate IsEncoded(encoded: Int32, i: nat) {
    ShiftRight(Unsigned(encoded), i % 32) % 2 == 1
  }

  /** The modifier indices below `count` that `encoded` carries. */
  function Decode(encoded: Int32, count: nat): (s: set<nat>)
    ensures forall i: nat :: i in s <==> i < count && IsEncoded(encoded, i)
  {
    set i: nat | i < count && IsEncoded(encoded, i)
  }

  /** Bits `k` and up of the sum of `2^i` over the indices `i` in `s`. */
  function EncodeFrom(s: set<nat>, k: nat): (u: nat)
    requires k <= 32
    ensures u < Pow2(32 - k)
    decreases 32 - k
  {
    if k == 32 then 0
    else
      var high := EncodeFrom(s, k + 1);
      assert Pow2(32 - k) == 2 * Pow2(32 - (k + 1));
      (if k in s then 1 else 0) + 2 * high
  }

  /** A set of modifier indices below 32 as the sum of their powers of two,
      stored in an `int` (index 31 makes it negative). */
  function Encode(s: set<nat>): (x: Int32)
    requires forall i <- s :: i < 32
  {
    Wrap(EncodeFrom(s, 0))
  }

  lemma Pow2Of32()
    ensures Pow2(32) == Modulus
  {
    assert Pow2(8) == 256;
    Pow2Add(8, 8);
    Pow2Add(16, 16);
  }

  lemma {:induction false} Pow2Add(a: nat, b: nat)
    ensures Pow2(a + b) == Pow2(a) * Pow2(b)
    decreases b
  {
    if b > 0 {
      Pow2Add(a, b - 1);
      assert Pow2(a + b) == 2 * Pow2(a + b - 1);
    }
  }

  /** Reading an unsigned value below 2^32 back through an `int` is lossless. */
  lemma UnsignedWrap(u: int)
    requires 0 <= u < Modulus
    ensures Unsigned(Wrap(u)) == u
  {
    var w := Wrap(u);
    var k := (u - w) / Modulus;
    DivModUnique(u - w, Modulus, k, 0);
    assert -1 < k < 2;
  }

  lemma LowBit(b: int, high: int)
    requires b == 0 || b == 1
    ensures (b + 2 * high) % 2 == b && (b + 2 * high) / 2 == high
  {
    DivModUnique(b + 2 * high, 2, high, b);
  }

  /** Bit `j` of the bits from `k` up is membership of `k + j`. */
  lemma {:induction false} EncodedBit(s: set<nat>, k: nat, j: nat)
    requires k + j < 32
    ensures ShiftRight(EncodeFrom(s, k), j) % 2 == 1 <==> k + j in s
    decreases j
  {
    var b := if k in s then 1 else 0;
    var high := EncodeFrom(s, k + 1);
    assert EncodeFrom(s, k) == b + 2 * high;
    LowBit(b, high);
    if j > 0 {
      EncodedBit(s, k + 1, j - 1);
    }
  }

  /** Encoding a set of indices below 32 and decoding all 32 bits gives the set back. */
  lemma DecodeEncode(s: set<nat>)
    requires forall i <- s :: i < 32
    ensures Decode(Encode(s), 32) == s
  {
    Pow2Of32();
    UnsignedWrap(EncodeFrom(s, 0));
    forall i: nat | i < 32
      ensures IsEncoded(Encode(s), i) <==> i in s
    {
      assert i % 32 == i;
      EncodedBit(s, 0, i);
    }
  }

  lemma {:induction false} ShiftRightSucc(u: nat, n: nat)
    ensures ShiftRight(u, n + 1) == ShiftRight(u, n) / 2
    decreases n
  {
    if n > 0 {
      ShiftRightSucc(u / 2, n - 1);
    }
  }

  lemma {:induction false} ShiftRightVanishes(u: nat, n: nat)
    requires u < Pow2(n)
    ensures ShiftRight(u, n) == 0
    decreases n
  {
    if n > 0 {
      ShiftRightVanishes(u / 2, n - 1);
    }
  }

  /** Re-encoding the decoded bits from `k` up rebuilds the value shifted right by `k`. */
  lemma {:induction false} EncodeDecodedFrom(x: Int32, k: nat)
    requires k <= 32
    ensures EncodeFrom(Decode(x, 32), k) == ShiftRight(Unsigned(x), k)
    decreases 32 - k
  {
    if k == 32 {
      Pow2Of32();
      ShiftRightVanishes(Unsigned(x), 32);
    } else {
      var d := Decode(x, 32);
      EncodeDecodedFrom(x, k + 1);
      ShiftRightSucc(Unsigned(x), k);
      var v := ShiftRight(Unsigned(x), k);
      var high := EncodeFrom(d, k + 1);
      assert high == v / 2;
      assert k % 32 == k;
      assert (k in d) <==> v % 2 == 1;
      var b := if k in d then 1 else 0;
      assert b == v % 2;
      assert EncodeFrom(d, k) == b + 2 * high;
    }
  }

  /** Decoding all 32 bits of any `int` and encoding them again gives it back. */
  lemma EncodeDecode(x: Int32)
    ensures Encode(Decode(x, 32)) == x
  {
    EncodeDecodedFrom(x, 0);
    var u := Unsigned(x);
    assert EncodeFrom(Decode(x, 32), 0) == u;
    WrapCongruent(u, x);
  }
}

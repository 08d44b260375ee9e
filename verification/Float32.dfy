/** IEEE 754 binary32 values as their 32-bit patterns (section 3.4 of IEEE 754-2019). */
module Float32 {
  import opened Machine

  function Pow2(e: int): (p: real)
    ensures p > 0.0
    decreases if e < 0 then -e else e
  {
    if e == 0 then 1.0 else if e > 0 then 2.0 * Pow2(e - 1) else Pow2(e + 1) / 2.0
  }

  function Exponent(bits: u32): (e: int)
    ensures 0 <= e < 0x100
  {
    bits / 0x80_0000 % 0x100
  }

  function Fraction(bits: u32): nat {
    bits % 0x80_0000
  }

  predicate Negative(bits: u32) {
    bits >= 0x8000_0000
  }

  /** `f32::is_finite` */
  predicate IsFinite(bits: u32) {
    Exponent(bits) != 0xFF
  }

  /** The significand as an integer: normal numbers have an implicit leading bit. */
  function Significand(bits: u32): nat {
    Fraction(bits) + if Exponent(bits) == 0 then 0 else 0x80_0000
  }

  /** The power of two of the significand's last bit. */
  function Scale(bits: u32): int {
    (if Exponent(bits) == 0 then 1 else Exponent(bits)) - 150
  }

  function Magnitude(bits: u32): real {
    Significand(bits) as real * Pow2(Scale(bits))
  }

  /** The number a finite pattern stands for. */
  function Value(bits: u32): real {
    if Negative(bits) then -Magnitude(bits) else Magnitude(bits)
  }

  /** `bits == 0.0` as floats compare: both zeros, and no NaN. */
  predicate IsZero(bits: u32) {
    bits == 0 || bits == 0x8000_0000
  }

  /** The finite positive numbers are exactly the patterns from the smallest
      subnormal to the largest normal number. */
  lemma FinitePositive(bits: u32)
    ensures IsFinite(bits) && Value(bits) > 0.0 <==> 1 <= bits <= 0x7F7F_FFFF
  {
    ScaledPositive(Significand(bits), Pow2(Scale(bits)));
    if !Negative(bits) {
      assert bits == Exponent(bits) * 0x80_0000 + Fraction(bits);
    }
  }

  lemma ScaledPositive(n: nat, p: real)
    requires p > 0.0
    ensures n as real * p >= 0.0
    ensures n as real * p > 0.0 <==> n > 0
  {}

  /** The zero test of the code holds of exactly the patterns whose number is zero; the
      non-finite patterns are read as numbers too, and none of them is zero. */
  lemma ZeroExactly(bits: u32)
    ensures IsZero(bits) <==> Value(bits) == 0.0
  {
    ScaledPositive(Significand(bits), Pow2(Scale(bits)));
    assert bits % 0x8000_0000 == Exponent(bits) * 0x80_0000 + Fraction(bits);
  }

  lemma Pow2Doubles(e: int)
    ensures Pow2(e + 1) == 2.0 * Pow2(e)
  {}

  predicate IsProduct(z: real, x: real, y: real) {
    z == x * y
  }

  lemma {:induction false} Pow2Adds(e: int, n: nat)
    ensures IsProduct(Pow2(e + n), Pow2(e), Pow2(n))
  {
    if n == 0 {
    } else {
      Pow2Adds(e, n - 1);
      Pow2Doubles(e + (n - 1));
      Pow2Doubles(n - 1);
      assert e + (n - 1) + 1 == e + n;
      DoubleProduct(Pow2(e), Pow2(n - 1), Pow2(e + (n - 1)), Pow2(n), Pow2(e + n));
    }
  }

  lemma DoubleProduct(x: real, y: real, xy: real, twiceY: real, twiceXy: real)
    requires IsProduct(xy, x, y) && twiceY == 2.0 * y && twiceXy == 2.0 * xy
    ensures IsProduct(twiceXy, x, twiceY)
  {}

  lemma Pow2Of23()
    ensures Pow2(23) == 8388608.0
  {
    assert Pow2(8) == 256.0;
    Pow2Adds(8, 8);
    assert Pow2(16) == 65536.0;
    Pow2Adds(16, 7);
    assert Pow2(7) == 128.0;
  }

  lemma Fields(bits: u32, s: nat, e: nat, f: nat)
    requires s < 2 && e < 256 && f < 0x80_0000 && bits == s * 0x8000_0000 + e * 0x80_0000 + f
    ensures Exponent(bits) == e && Fraction(bits) == f && (Negative(bits) <==> s == 1)
  {
    assert bits / 0x80_0000 == s * 0x100 + e;
  }

  /** The significand is a fraction of 2^23 and the exponent is counted from 23 bits further
      up. */
  lemma MagnitudeExactly(bits: u32)
    ensures var exponent := if Exponent(bits) == 0 then -126 else Exponent(bits) - 127;
      IsProduct(Magnitude(bits), Pow2(exponent), Significand(bits) as real / 8388608.0)
  {
    var exponent := if Exponent(bits) == 0 then -126 else Exponent(bits) - 127;
    Pow2Adds(exponent - 23, 23);
    Pow2Of23();
    Regroup(Significand(bits) as real, Pow2(exponent - 23), 8388608.0, Pow2(exponent));
  }

  lemma Regroup(x: real, p: real, q: real, pq: real)
    requires q != 0.0 && IsProduct(pq, p, q)
    ensures x * p == pq * (x / q)
  {
    assert q * (x / q) == x;
  }

  lemma HiddenBit(f: nat)
    ensures (f + 0x80_0000) as real / 8388608.0 == 1.0 + f as real / 8388608.0
  {}

  /** Section 3.4 of IEEE 754-2019: sign bit s, biased exponent e and fraction f stand for
      (-1)^s * 2^(e - 127) * (1 + f / 2^23), and for (-1)^s * 2^-126 * (f / 2^23) when e is 0. */
  lemma ValueExactly(bits: u32, s: nat, e: nat, f: nat)
    requires s < 2 && e < 256 && f < 0x80_0000 && bits == s * 0x8000_0000 + e * 0x80_0000 + f
    ensures var magnitude := if e == 0 then Pow2(-126) * (f as real / 8388608.0)
        else Pow2(e - 127) * (1.0 + f as real / 8388608.0);
      Value(bits) == if s == 1 then -magnitude else magnitude
    ensures IsFinite(bits) <==> e < 255
  {
    Fields(bits, s, e, f);
    MagnitudeExactly(bits);
    if e == 0 {
      SameFactor(Pow2(-126), Significand(bits) as real / 8388608.0, f as real / 8388608.0);
    } else {
      HiddenBit(f);
      SameFactor(Pow2(e - 127), Significand(bits) as real / 8388608.0, 1.0 + f as real / 8388608.0);
    }
  }

  lemma SameFactor(p: real, x: real, y: real)
    requires x == y
    ensures p * x == p * y
  {}
}

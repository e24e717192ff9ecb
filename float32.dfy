/** Rust's `f32` as far as the renderer uses it: the three comparisons that
    guard the optional lines (`> 0.0`, `!= 1.0`, `!= 0.0`) and the `as i32`
    cast of the rotation. A value is held as its IEEE 754 binary32 bit
    pattern; each comparison is defined on the bits and proved to agree with
    the comparison of the exact value the bits encode. */
module Float32 {
  import opened Primitives

  type Bits32 = b: int | 0 <= b < 0x1_0000_0000

  const FractionUnit: nat := 0x80_0000  // 2^23, the weight of the exponent field's lowest bit

  datatype F32 = F32(bits: Bits32) {

    predicate SignBit() {
      bits >= 0x8000_0000
    }

    function BiasedExponent(): (e: nat)
      ensures e < 0x100
    {
      (bits / FractionUnit) % 0x100
    }

    function Fraction(): (m: nat)
      ensures m < FractionUnit
    {
      bits % FractionUnit
    }

    predicate IsNaN() {
      BiasedExponent() == 0xFF && Fraction() != 0
    }

    predicate IsInfinite() {
      BiasedExponent() == 0xFF && Fraction() == 0
    }

    predicate IsFinite() {
      BiasedExponent() < 0xFF
    }

    /** The integer significand: the fraction with the implicit leading bit
        of a normal number, or the bare fraction of a subnormal one. */
    function Significand(): nat
      requires IsFinite()
    {
      if BiasedExponent() == 0 then Fraction() else Fraction() + FractionUnit
    }

    /** The power of two the significand is scaled by. */
    function Exponent(): int
      requires IsFinite()
    {
      (if BiasedExponent() == 0 then 1 else BiasedExponent()) - 150
    }

    /** |value| = Significand() * 2^Exponent(), exactly. */
    function Magnitude(): (v: real)
      requires IsFinite()
    {
      if Exponent() >= 0 then (Significand() * Pow2(Exponent())) as real
      else Significand() as real / Pow2(-Exponent()) as real
    }

    /** The exact rational number a finite pattern encodes. */
    function Value(): real
      requires IsFinite()
    {
      if SignBit() then -Magnitude() else Magnitude()
    }
  }

  /** Rust's `f > 0.0`. NaN compares false. */
  predicate GreaterThanZero(f: F32) {
    !f.SignBit() && !f.IsNaN() && (f.BiasedExponent() != 0 || f.Fraction() != 0)
  }

  /** Rust's `f != 0.0`. Both +0.0 and -0.0 equal 0.0; NaN differs from it. */
  predicate NotEqualZero(f: F32) {
    f.BiasedExponent() != 0 || f.Fraction() != 0
  }

  /** Rust's `f != 1.0`. The literal 1.0 is the pattern 0x3F80_0000, the only
      pattern of value 1 (NotEqualOneMeaning); NaN differs from it. */
  predicate NotEqualOne(f: F32) {
    f.bits != 0x3F80_0000
  }

  lemma Pow2Values()
    ensures Pow2(23) == FractionUnit && Pow2(24) == 2 * FractionUnit
  {
    assert Pow2(8) == 256;
    Pow2Add(8, 8);
    Pow2Add(16, 7);
    assert Pow2(7) == 128;
  }

  /** A real quotient by a positive divisor inherits the bounds of the
      integer products it lies between. */
  lemma QuotientBounds(n: nat, p: nat, q: nat)
    requires p > 0 && q * p <= n < (q + 1) * p
    ensures q as real <= n as real / p as real < (q + 1) as real
  {
    var v := n as real / p as real;
    assert v * p as real == n as real;
    assert (q as real) * (p as real) <= v * (p as real);
    assert v * (p as real) < ((q + 1) as real) * (p as real);
  }

  lemma QuotientSign(n: nat, p: nat)
    requires p > 0
    ensures n as real / p as real >= 0.0
    ensures n as real / p as real == 0.0 <==> n == 0
  {
    var v := n as real / p as real;
    assert v * p as real == n as real;
  }

  lemma ProductSign(n: nat, p: nat)
    requires p > 0
    ensures n * p == 0 <==> n == 0
  {
    if n > 0 {
      assert n * p >= p;
    }
  }

  lemma MagnitudeSign(f: F32)
    requires f.IsFinite()
    ensures f.Magnitude() >= 0.0
    ensures f.Magnitude() == 0.0 <==> f.Significand() == 0
  {
    if f.Exponent() < 0 {
      QuotientSign(f.Significand(), Pow2(-f.Exponent()));
    } else {
      ProductSign(f.Significand(), Pow2(f.Exponent()));
    }
  }

  /** `> 0.0` on the bits is `> 0` on the value (+infinity included). */
  lemma GreaterThanZeroMeaning(f: F32)
    ensures GreaterThanZero(f) <==> (f.IsFinite() && f.Value() > 0.0) || (f.IsInfinite() && !f.SignBit())
  {
    if f.IsFinite() {
      MagnitudeSign(f);
    }
  }

  /** `!= 0.0` on the bits is `!= 0` on the value (NaN and infinities included). */
  lemma NotEqualZeroMeaning(f: F32)
    ensures NotEqualZero(f) <==> !f.IsFinite() || f.Value() != 0.0
  {
    if f.IsFinite() {
      MagnitudeSign(f);
    }
  }

  /** The literal 1.0 encodes 1. */
  lemma OneEncoding()
    ensures F32(0x3F80_0000).IsFinite() && F32(0x3F80_0000).Value() == 1.0
  {
    var one := F32(0x3F80_0000);
    assert one.BiasedExponent() == 127 && one.Fraction() == 0;
    Pow2Values();
  }

  /** The only power of two with the 24-bit significand width is 2^23. */
  lemma PowerOfSignificandWidth(k: nat)
    requires FractionUnit <= Pow2(k) < 2 * FractionUnit
    ensures k == 23
  {
    Pow2Values();
    if k < 23 {
      Pow2StrictlyIncreasing(k, 23);
    } else if k > 23 {
      if k > 24 {
        Pow2StrictlyIncreasing(24, k);
      }
    }
  }

  /** The bit pattern is the sum of its sign, exponent and fraction fields. */
  lemma FieldsReassemble(f: F32)
    ensures f.bits == (if f.SignBit() then 0x8000_0000 else 0) + f.BiasedExponent() * FractionUnit + f.Fraction()
  {
    var hi := f.bits / FractionUnit;
    assert f.bits == hi * FractionUnit + f.Fraction();
    assert hi == (hi / 0x100) * 0x100 + f.BiasedExponent();
  }

  /** A finite pattern whose exponent is not negative has magnitude at least 2^23. */
  lemma LargeMagnitude(f: F32)
    requires f.IsFinite() && f.Exponent() >= 0
    ensures f.Magnitude() >= FractionUnit as real
  {
    var m, p := f.Significand(), Pow2(f.Exponent());
    assert m >= FractionUnit;
    assert m * p >= m;
    assert f.Magnitude() == (m * p) as real;
  }

  /** A subnormal pattern has magnitude below 1. */
  lemma SubnormalMagnitude(f: F32)
    requires f.IsFinite() && f.BiasedExponent() == 0
    ensures f.Magnitude() < 1.0
  {
    var m, p := f.Significand(), Pow2(149);
    Pow2Values();
    Pow2StrictlyIncreasing(23, 149);
    QuotientBounds(m, p, 0);
    assert f.Magnitude() == m as real / p as real;
  }

  lemma QuotientOne(n: nat, p: nat)
    requires p > 0
    ensures n as real / p as real == 1.0 ==> n == p
  {
    var v := n as real / p as real;
    assert v * p as real == n as real;
  }

  /** A normal pattern of magnitude 1 has exponent field 127 and fraction 0. */
  lemma NormalMagnitudeOne(f: F32)
    requires f.IsFinite() && f.BiasedExponent() != 0 && f.Exponent() < 0
    ensures f.Magnitude() == 1.0 ==> f.BiasedExponent() == 127 && f.Fraction() == 0
  {
    var m, k := f.Significand(), -f.Exponent();
    var p := Pow2(k);
    assert f.Magnitude() == m as real / p as real;
    QuotientOne(m, p);
    if m == p {
      PowerOfSignificandWidth(k);
      Pow2Values();
    }
  }

  /** No other finite pattern encodes 1. */
  lemma ValueOneEncoding(f: F32)
    requires f.IsFinite()
    ensures f.Value() == 1.0 ==> f.bits == 0x3F80_0000
  {
    MagnitudeSign(f);
    FieldsReassemble(f);
    if f.Exponent() >= 0 {
      LargeMagnitude(f);
    } else if f.BiasedExponent() == 0 {
      SubnormalMagnitude(f);
    } else {
      NormalMagnitudeOne(f);
    }
  }

  /** `!= 1.0` on the bits is `!= 1` on the value (NaN and infinities included). */
  lemma NotEqualOneMeaning(f: F32)
    ensures NotEqualOne(f) <==> !f.IsFinite() || f.Value() != 1.0
  {
    OneEncoding();
    if f.IsFinite() {
      ValueOneEncoding(f);
    }
  }

  /** The integer part of the magnitude. */
  function TruncatedMagnitude(f: F32): nat
    requires f.IsFinite()
  {
    if f.Exponent() >= 0 then f.Significand() * Pow2(f.Exponent())
    else f.Significand() / Pow2(-f.Exponent())
  }

  lemma DivisionBounds(n: nat, p: nat)
    requires p > 0
    ensures (n / p) * p <= n < (n / p + 1) * p
  {
    var q, r := n / p, n % p;
    assert n == q * p + r;
    assert (q + 1) * p == q * p + p;
  }

  lemma FloorQuotient(n: nat, p: nat)
    requires p > 0
    ensures (n / p) as real <= n as real / p as real < (n / p + 1) as real
  {
    DivisionBounds(n, p);
    QuotientBounds(n, p, n / p);
  }

  lemma TruncatedMagnitudeBounds(f: F32)
    requires f.IsFinite()
    ensures TruncatedMagnitude(f) as real <= f.Magnitude() < (TruncatedMagnitude(f) + 1) as real
  {
    var m, e := f.Significand(), f.Exponent();
    if e < 0 {
      var p := Pow2(-e);
      FloorQuotient(m, p);
      assert f.Magnitude() == m as real / p as real;
      assert TruncatedMagnitude(f) == m / p;
    } else {
      var t := m * Pow2(e);
      assert f.Magnitude() == t as real;
      assert TruncatedMagnitude(f) == t;
    }
  }

  function Saturate(n: int): I32 {
    if n < I32Min then I32Min else if n > I32Max then I32Max else n
  }

  /** Rust's `f as i32`. */
  function TruncToI32(f: F32): I32 {
    if f.IsNaN() then 0
    else if f.IsInfinite() then (if f.SignBit() then I32Min else I32Max)
    else
      var t := TruncatedMagnitude(f);
      Saturate(if f.SignBit() then -(t as int) else t)
  }

  /** The cast rounds toward zero within the i32 range, saturates outside
      it, and sends NaN to 0. */
  lemma TruncToI32Meaning(f: F32)
    ensures f.IsNaN() ==> TruncToI32(f) == 0
    ensures f.IsInfinite() ==> TruncToI32(f) == if f.SignBit() then I32Min else I32Max
    ensures f.IsFinite() && 0.0 <= f.Value() < 0x8000_0000 as real ==>
      TruncToI32(f) as real <= f.Value() < (TruncToI32(f) + 1) as real
    ensures f.IsFinite() && -0x8000_0000 as real < f.Value() < 0.0 ==>
      (TruncToI32(f) - 1) as real < f.Value() <= TruncToI32(f) as real
    ensures f.IsFinite() && f.Value() >= 0x8000_0000 as real ==> TruncToI32(f) == I32Max
    ensures f.IsFinite() && f.Value() <= -0x8000_0000 as real ==> TruncToI32(f) == I32Min
  {
    if f.IsFinite() {
      MagnitudeSign(f);
      TruncatedMagnitudeBounds(f);
    }
  }

  /** 0.5 is not equal to 0.0, yet casts to the i32 0. */
  lemma HalfTruncatesToZero()
    ensures F32(0x3F00_0000).IsFinite() && F32(0x3F00_0000).Value() == 0.5
    ensures NotEqualZero(F32(0x3F00_0000)) && TruncToI32(F32(0x3F00_0000)) == 0
  {
    var r := F32(0x3F00_0000);
    assert r.BiasedExponent() == 126 && r.Fraction() == 0;
    Pow2Values();
    assert r.Magnitude() == FractionUnit as real / (2 * FractionUnit) as real;
    TruncToI32Meaning(r);
  }
}

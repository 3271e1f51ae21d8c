/**
  What the eight bytes of a widened float stand for. The numbers of the two binary formats are
  given as real numbers, IEEE 754, section 3.4, apart from the widening.
*/
module Ieee {
  import opened MsgpackFormat
  import opened MsgpackTable

  /** A sign and a size, so that there are two zeros. */
  datatype Reading = NotANumber | Infinite(negative: bool) | Finite(negative: bool, size: real)

  /** Two to the power of any integer. */
  function Power(n: int): (p: real)
    ensures p > 0.0
    decreases if n < 0 then -n else n
  {
    if n == 0 then 1.0 else if n > 0 then 2.0 * Power(n - 1) else Power(n + 1) / 2.0
  }

  /**
    The size of a finite number: the fraction counts in units of 1 / `whole`, above 1 unless the
    exponent is 0, and the scale is two to the power of the exponent less the bias.
  */
  function Size(exponent: nat, fraction: nat, bias: nat, whole: real): real
    requires whole > 0.0
  {
    if exponent == 0 then fraction as real / whole * Power(1 - bias)
    else (1.0 + fraction as real / whole) * Power(exponent - bias)
  }

  /** 8 bits of exponent with bias 127, 23 bits of fraction. */
  function SingleFields(negative: bool, exponent: nat, fraction: nat): Reading {
    if exponent < 255 then Finite(negative, Size(exponent, fraction, 127, 8388608.0))
    else if fraction == 0 then Infinite(negative)
    else NotANumber
  }

  /** 11 bits of exponent with bias 1023, 52 bits of fraction. */
  function DoubleFields(negative: bool, exponent: nat, fraction: nat): Reading {
    if exponent < 2047 then Finite(negative, Size(exponent, fraction, 1023, 4503599627370496.0))
    else if fraction == 0 then Infinite(negative)
    else NotANumber
  }

  /** The sign bit, the exponent and the fraction, from the top. */
  function SingleOf(u: nat): Reading {
    SingleFields(u / 0x8000_0000 == 1, u / 0x80_0000 % 0x100, u % 0x80_0000)
  }

  function DoubleOf(u: nat): Reading {
    DoubleFields(u / 0x8000_0000_0000_0000 == 1, u / 0x10_0000_0000_0000 % 0x800, u % 0x10_0000_0000_0000)
  }

  function Single(s: Bytes): Reading
    requires |s| == 4
  {
    SingleOf(Number(s, 0, |s|))
  }

  function Double(s: Bytes): Reading
    requires |s| == 8
  {
    DoubleOf(Number(s, 0, |s|))
  }

  // ----- powers of two -----

  lemma PowerNext(n: int)
    ensures Power(n + 1) == 2.0 * Power(n)
  {
  }

  lemma {:induction false} PowerUp(a: nat, b: int)
    ensures Power(a + b) == Pow2(a) as real * Power(b)
  {
    if a > 0 {
      PowerUp(a - 1, b);
      PowerNext(a - 1 + b);
    }
  }

  lemma {:induction false} Pow2Add(a: nat, b: nat)
    ensures Pow2(a + b) == Pow2(a) * Pow2(b)
  {
    if a > 0 {
      Pow2Add(a - 1, b);
    }
  }

  lemma {:induction false} Pow2Values()
    ensures Pow2(23) == 0x80_0000 && Pow2(29) == 0x2000_0000 && Pow2(52) == 0x10_0000_0000_0000
  {
    assert Pow2(3) == 8 && Pow2(6) == 64;
    Pow2Add(3, 3);
    Pow2Add(6, 6);
    Pow2Add(12, 6);
    Pow2Add(12, 12);
    Pow2Add(18, 3);
    Pow2Add(21, 2);
    Pow2Add(23, 6);
    Pow2Add(23, 29);
    assert Pow2(2) == 4;
  }

  lemma {:induction false} TopBitBounds(m: nat)
    requires m > 0
    ensures Pow2(TopBit(m)) <= m < 2 * Pow2(TopBit(m))
  {
    if m > 1 {
      TopBitBounds(m / 2);
    }
  }

  lemma {:induction false} Pow2Monotone(a: nat, b: nat)
    requires a <= b
    ensures Pow2(a) <= Pow2(b)
  {
    if a < b {
      Pow2Monotone(a, b - 1);
    }
  }

  // ----- fields -----

  lemma {:induction false} NumberOf(s: Bytes)
    requires |s| in {4, 8}
    ensures Number(s, 0, |s|) == FromBigEndian(s)
  {
    NumberIsRead(s, 0, |s|);
    assert s[0..|s|] == s;
  }

  lemma {:induction false} BytesOfNumber(u: nat)
    requires u < 0x1_0000_0000_0000_0000
    ensures Number(BigEndian(u, 8), 0, 8) == u
  {
    NumberOf(BigEndian(u, 8));
    BigEndianRoundTrip(u, 8);
    Pow256Values();
    SmallMod(u, 0x1_0000_0000_0000_0000);
  }

  lemma Fields(u: nat, sign: nat, exponent: nat, fraction: nat)
    requires sign < 2 && exponent < 0x800 && fraction < 0x10_0000_0000_0000
    requires u == sign * 0x8000_0000_0000_0000 + exponent * 0x10_0000_0000_0000 + fraction
    ensures u / 0x8000_0000_0000_0000 == sign && u % 0x10_0000_0000_0000 == fraction
    ensures u / 0x10_0000_0000_0000 % 0x800 == exponent
  {
    DivModUnique(u, 0x8000_0000_0000_0000, sign, exponent * 0x10_0000_0000_0000 + fraction);
    DivModUnique(u, 0x10_0000_0000_0000, sign * 0x800 + exponent, fraction);
    DivModUnique(sign * 0x800 + exponent, 0x800, sign, exponent);
  }

  /** A number made of these fields is written as bytes that have them. */
  lemma FieldsWritten(sign: nat, exponent: nat, fraction: nat, magnitude: int)
    requires sign < 2 && exponent < 0x800 && fraction < 0x10_0000_0000_0000
    requires magnitude == exponent * 0x10_0000_0000_0000 + fraction
    ensures Double(BigEndian(sign * TWO_63 + magnitude, 8)) == DoubleFields(sign == 1, exponent, fraction)
  {
    var u := sign * TWO_63 + magnitude;
    Fields(u, sign, exponent, fraction);
    BytesOfNumber(u);
  }

  // ----- the widening -----

  /** Exponent and fraction of the double for a single's. */
  function WideExponent(exponent: nat, fraction: nat): nat {
    if exponent == 255 then 2047
    else if exponent > 0 then exponent + 896
    else if fraction == 0 then 0
    else TopBit(fraction) + 874
  }

  function WideFraction(exponent: nat, fraction: nat): int {
    if exponent > 0 then fraction * 0x2000_0000
    else if fraction == 0 then 0
    else (fraction - Pow2(TopBit(fraction))) * (Pow2(52) / Pow2(TopBit(fraction)))
  }

  /** The bits that a subnormal single is moved up by. */
  lemma {:induction false} MovedUp(fraction: nat) returns (top: nat, up: nat)
    requires 0 < fraction < 0x80_0000
    ensures top == TopBit(fraction) <= 22 && Pow2(top) <= fraction < 2 * Pow2(top)
    ensures up == Pow2(52 - top) && Pow2(top) * up == 0x10_0000_0000_0000 && Pow2(52) / Pow2(top) == up
  {
    top := TopBit(fraction);
    TopBitBounds(fraction);
    Pow2Values();
    if top > 22 {
      Pow2Monotone(23, top);
    }
    up := Pow2(52 - top);
    Pow2Add(top, 52 - top);
    DivModUnique(Pow2(52), Pow2(top), up, 0);
  }

  lemma MulBelow(a: nat, b: nat, c: nat)
    requires a < b && c > 0
    ensures 0 <= a * c < b * c
  {
  }

  lemma {:induction false} WideInRange(exponent: nat, fraction: nat)
    requires exponent < 256 && fraction < 0x80_0000
    ensures WideExponent(exponent, fraction) < 0x800 && 0 <= WideFraction(exponent, fraction) < 0x10_0000_0000_0000
  {
    if exponent == 0 && fraction > 0 {
      var top, up := MovedUp(fraction);
      MulBelow(fraction - Pow2(top), Pow2(top), up);
    }
  }

  lemma {:induction false} WideParts(exponent: nat, fraction: nat)
    requires exponent < 256
    ensures WideMagnitude(exponent, fraction)
         == WideExponent(exponent, fraction) * 0x10_0000_0000_0000 + WideFraction(exponent, fraction)
  {
    Pow2Values();
  }

  // ----- the value -----

  lemma NormalSize(exponent: nat, fraction: nat)
    requires 0 < exponent < 255
    ensures Size(exponent + 896, fraction * 0x2000_0000, 1023, 4503599627370496.0)
         == Size(exponent, fraction, 127, 8388608.0)
  {
    assert (fraction * 0x2000_0000) as real / 4503599627370496.0 == fraction as real / 8388608.0;
  }

  /** The numbers of a subnormal single and of the double for it. */
  lemma SubnormalValue(fraction: nat, low: nat, up: nat, p: real)
    requires low <= fraction && low > 0 && low * up == 0x10_0000_0000_0000
    ensures (1.0 + ((fraction - low) * up) as real / 4503599627370496.0) * (low as real * p)
         == fraction as real / 8388608.0 * (8388608.0 * p)
  {
    var f, l, x := fraction as real, low as real, up as real;
    ProductsAgree(fraction - low, up);
    ProductsAgree(low, up);
    Cancel(f, l, x, 4503599627370496.0);
    Regroup(1.0 + (f - l) * x / 4503599627370496.0, l, p);
  }

  lemma ProductsAgree(a: nat, b: nat)
    ensures (a * b) as real == a as real * b as real
  {
  }

  lemma Regroup(a: real, b: real, c: real)
    ensures a * (b * c) == a * b * c
  {
  }

  lemma Cancel(f: real, l: real, x: real, n: real)
    requires n > 0.0 && l * x == n
    ensures (1.0 + (f - l) * x / n) * l == f
  {
    assert (f - l) * x * l == (f - l) * n;
    assert (f - l) * x / n * l == f - l;
  }

  lemma {:induction false} SubnormalScales(top: nat, bias: nat, wide: nat)
    requires bias == 127 && wide == 1023
    ensures Power(top + 874 - wide) == Pow2(top) as real * Power(1 - bias - 23)
    ensures Power(1 - bias) == 8388608.0 * Power(1 - bias - 23)
  {
    PowerUp(top, 1 - bias - 23);
    PowerUp(23, 1 - bias - 23);
    Pow2Values();
  }

  lemma SubnormalSizes(fraction: nat, low: nat, up: nat, moved: nat, exponent: nat, bias: nat, wide: nat, p: real)
    requires low <= fraction && low > 0 && low * up == 0x10_0000_0000_0000 && exponent > 0
    requires moved == (fraction - low) * up
    requires Power(exponent - wide) == low as real * p && Power(1 - bias) == 8388608.0 * p
    ensures Size(exponent, moved, wide, 4503599627370496.0) == Size(0, fraction, bias, 8388608.0)
  {
    SubnormalValue(fraction, low, up, p);
  }

  /** The fields of the double for a subnormal single. */
  lemma {:induction false} MovedFields(fraction: nat) returns (top: nat, up: nat)
    requires 0 < fraction < 0x80_0000
    ensures 0 < Pow2(top) <= fraction && Pow2(top) * up == 0x10_0000_0000_0000
    ensures WideExponent(0, fraction) == top + 874 && WideFraction(0, fraction) == (fraction - Pow2(top)) * up >= 0
  {
    top, up := MovedUp(fraction);
    WideInRange(0, fraction);
  }

  lemma {:induction false} SubnormalSize(fraction: nat, bias: nat, wide: nat)
    requires 0 < fraction < 0x80_0000 && bias == 127 && wide == 1023
    ensures WideFraction(0, fraction) >= 0
    ensures Size(WideExponent(0, fraction), WideFraction(0, fraction), wide, 4503599627370496.0)
         == Size(0, fraction, bias, 8388608.0)
  {
    var top, up := MovedFields(fraction);
    SubnormalSizeAt(fraction, top, up, WideExponent(0, fraction), WideFraction(0, fraction), bias, wide);
  }

  lemma {:induction false} SubnormalSizeAt(fraction: nat, top: nat, up: nat, exponent: nat, moved: nat, bias: nat,
      wide: nat)
    requires Pow2(top) <= fraction && Pow2(top) * up == 0x10_0000_0000_0000 && bias == 127 && wide == 1023
    requires exponent == top + 874 && moved == (fraction - Pow2(top)) * up
    ensures Size(exponent, moved, wide, 4503599627370496.0) == Size(0, fraction, bias, 8388608.0)
  {
    SubnormalScales(top, bias, wide);
    SubnormalSizes(fraction, Pow2(top), up, moved, exponent, bias, wide, Power(1 - bias - 23));
  }

  lemma {:induction false} ZeroSize(bias: nat, whole: real)
    requires whole > 0.0
    ensures Size(0, 0, bias, whole) == 0.0
  {
  }

  /** The widened fields stand for the same number, infinity or NaN. */
  lemma {:induction false} WideFieldsAgree(negative: bool, exponent: nat, fraction: nat)
    requires exponent < 256 && fraction < 0x80_0000
    ensures WideFraction(exponent, fraction) >= 0
    ensures DoubleFields(negative, WideExponent(exponent, fraction), WideFraction(exponent, fraction))
         == SingleFields(negative, exponent, fraction)
  {
    WideInRange(exponent, fraction);
    if 0 < exponent < 255 {
      NormalSize(exponent, fraction);
    } else if exponent == 0 && fraction > 0 {
      SubnormalSize(fraction, 127, 1023);
      var top, up := MovedUp(fraction);
    } else if exponent == 0 {
      ZeroSize(127, 8388608.0);
      ZeroSize(1023, 4503599627370496.0);
    }
  }

  lemma {:induction false} WidenFields(sign: nat, exponent: nat, fraction: nat, magnitude: int)
    requires sign < 2 && exponent < 256 && fraction < 0x80_0000 && magnitude == WideMagnitude(exponent, fraction)
    ensures Double(BigEndian(sign * TWO_63 + magnitude, 8)) == SingleFields(sign == 1, exponent, fraction)
  {
    WideInRange(exponent, fraction);
    WideParts(exponent, fraction);
    WideFieldsAgree(sign == 1, exponent, fraction);
    FieldsWrittenAs(sign, WideExponent(exponent, fraction), WideFraction(exponent, fraction), magnitude,
                    SingleFields(sign == 1, exponent, fraction));
  }

  lemma FieldsWrittenAs(sign: nat, exponent: nat, fraction: nat, magnitude: int, reading: Reading)
    requires sign < 2 && exponent < 0x800 && fraction < 0x10_0000_0000_0000
    requires magnitude == exponent * 0x10_0000_0000_0000 + fraction
    requires DoubleFields(sign == 1, exponent, fraction) == reading
    ensures Double(BigEndian(sign * TWO_63 + magnitude, 8)) == reading
  {
    FieldsWritten(sign, exponent, fraction, magnitude);
  }

  lemma {:induction false} WidenedAs(s: Bytes, u: nat, sign: nat, exponent: nat, fraction: nat)
    requires |s| == 4 && u == FromBigEndian(s) && sign == u / 0x8000_0000
    requires exponent == u / 0x80_0000 % 0x100 && fraction == u % 0x80_0000
    ensures WidenSingle(s) == BigEndian(sign * TWO_63 + WideMagnitude(exponent, fraction), 2 * |s|)
    ensures Single(s) == SingleFields(sign == 1, exponent, fraction) && sign < 2
  {
    NumberOf(s);
    FromBigEndianBound(s);
    Pow256Values();
  }

  lemma {:induction false} PartsOf(s: Bytes) returns (sign: nat, exponent: nat, fraction: nat)
    requires |s| == 4
    ensures sign < 2 && exponent < 256 && fraction < 0x80_0000
    ensures WidenSingle(s) == BigEndian(sign * TWO_63 + WideMagnitude(exponent, fraction), 2 * |s|)
    ensures Single(s) == SingleFields(sign == 1, exponent, fraction)
  {
    var u := FromBigEndian(s);
    sign, exponent, fraction := u / 0x8000_0000, u / 0x80_0000 % 0x100, u % 0x80_0000;
    WidenedAs(s, u, sign, exponent, fraction);
  }

  lemma {:induction false} WidenedReads(s: Bytes, wide: Bytes, sign: nat, exponent: nat, fraction: nat, magnitude: int)
    requires |s| == 4 && sign < 2 && exponent < 256 && fraction < 0x80_0000
    requires magnitude == WideMagnitude(exponent, fraction)
    requires wide == BigEndian(sign * TWO_63 + magnitude, 2 * |s|)
    requires Single(s) == SingleFields(sign == 1, exponent, fraction)
    ensures |wide| == 8 && Double(wide) == Single(s)
  {
    WidenFields(sign, exponent, fraction, magnitude);
  }

  /**
    A 32-bit float is read as the 64-bit float with the same sign and size: normal, subnormal, zero
    or infinite; and a NaN as a NaN.
  */
  lemma {:induction false} WidenKeepsReading(s: Bytes)
    requires |s| == 4
    ensures |WidenSingle(s)| == 8 && Double(WidenSingle(s)) == Single(s)
  {
    var sign, exponent, fraction := PartsOf(s);
    WidenedReads(s, WidenSingle(s), sign, exponent, fraction, WideMagnitude(exponent, fraction));
  }

  /** `3f 80 00 00` is 1.0. */
  lemma {:induction false} OneIsOne(s: Bytes)
    requires s == [0x3f, 0x80, 0x00, 0x00]
    ensures Double(WidenSingle(s)) == Finite(false, 1.0)
  {
    WidenKeepsReading(s);
    NumberOfOne(s);
    ReadingOfOne(0x3f80_0000, 127);
  }

  lemma {:induction false} NumberOfOne(s: Bytes)
    requires s == [0x3f, 0x80, 0x00, 0x00]
    ensures Number(s, 0, |s|) == 0x3f80_0000
  {
    assert Number(s, 0, 2) == 0x3f80 && Number(s, 2, 2) == 0;
  }

  lemma {:induction false} ReadingOfOne(u: nat, bias: nat)
    requires u == 0x3f80_0000 && bias == 127
    ensures SingleOf(u) == Finite(false, 1.0)
  {
    assert u / 0x8000_0000 == 0 && u / 0x80_0000 % 0x100 == bias && u % 0x80_0000 == 0;
    SizeOfOne(bias);
  }

  lemma {:induction false} SizeOfOne(bias: nat)
    requires bias > 0
    ensures Size(bias, 0, bias, 8388608.0) == 1.0
  {
  }
}

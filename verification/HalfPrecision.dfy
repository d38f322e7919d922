/**
 The host-side FP32 <-> FP16 and FP32 <-> BF16 conversions on bit patterns. Shifts and masks by constants
 are written as division and remainder by powers of two, and OR of disjoint fields as addition.
 */
module HalfPrecision {
  import opened Shifts
  import opened FloatRounding

  type Bits32 = x: nat | x < 0x1_0000_0000
  type Bits16 = x: nat | x < 0x1_0000
  type Exp8 = e: nat | e < 0x100
  type Frac23 = m: nat | m < 0x80_0000

  const INF32: nat := 0x7F80_0000
  const INF16: nat := 0x7C00
  const INF_BF16: nat := 0x7F80

  /** Values are counted in FP32 subnormal units of 2^-149; the smallest FP16 and BF16 subnormals are these powers of two of them. */
  const UNIT16: nat := 149 - 24
  const UNIT_BF16: nat := 16

  function Sign32(x: Bits32): (s: nat)
    ensures s < 2
  {
    x / 0x8000_0000
  }

  function Exponent32(x: Bits32): Exp8 { x / 0x80_0000 % 0x100 }
  function Fraction32(x: Bits32): Frac23 { x % 0x80_0000 }
  function Magnitude32(x: Bits32): nat { x % 0x8000_0000 }
  function Sign16(h: Bits16): nat { h / 0x8000 }
  function Magnitude16(h: Bits16): nat { h % 0x8000 }

  function Value32(x: Bits32): nat { ValueOf(23, 0, Magnitude32(x)) }

  /** The value of the magnitude with these fields. */
  function FieldValue(e: Exp8, mant: Frac23): nat { ValueOf(23, 0, e * 0x80_0000 + mant) }

  lemma Split32(x: Bits32)
    ensures Magnitude32(x) == Exponent32(x) * 0x80_0000 + Fraction32(x)
    ensures x == Sign32(x) * 0x8000_0000 + Magnitude32(x)
    ensures Value32(x) == FieldValue(Exponent32(x), Fraction32(x))
  {
  }

  lemma {:induction false} Fields32(e: Exp8, m: Frac23)
    ensures FieldValue(e, m) == if e == 0 then m else Shl(0x80_0000 + m, e - 1)
  {
    Shl23(1);
    Shl23(e);
    Fields(23, 0, e, m, e * 0x80_0000 + m);
  }

  lemma Fields16(e: nat, m: nat)
    requires m < 0x400
    ensures ValueOf(10, UNIT16, e * 0x400 + m) == if e == 0 then Shl(m, 125) else Shl(0x400 + m, e + 124)
    ensures Gap(10, UNIT16, e * 0x400 + m) == if e == 0 then Pow2(125) else Pow2(e + 124)
  {
    Shl10(1);
    Shl10(e);
    Fields(10, UNIT16, e, m, e * 0x400 + m);
  }

  lemma {:induction false} FieldsBf16(e: nat, m: nat)
    requires m < 0x80
    ensures ValueOf(7, UNIT_BF16, e * 0x80 + m) == if e == 0 then 0x1_0000 * m else Shl(0x80 + m, e + 15)
    ensures Gap(7, UNIT_BF16, e * 0x80 + m) == if e == 0 then 0x1_0000 else Pow2(e + 15)
  {
    Shl7(1);
    Shl7(e);
    Shl16(m);
    Fields(7, UNIT_BF16, e, m, e * 0x80 + m);
  }

  // ---- FP32 to FP16 ----

  /** The bits below the sign of `fp32_to_fp16_bits`, from the exponent and fraction fields. */
  function HalfMagnitude(e: Exp8, mant: Frac23): (h: nat)
    ensures h < 0x8000
  {
    var exp := e - 127 + 15;
    if e == 0xFF then
      if mant != 0 then 0x7C00 + 0x0200 else 0x7C00
    else if exp >= 0x1F then
      0x7C00
    else if exp <= 0 then
      if exp < -10 then 0
      else
        SubnormalBounded(mant + 0x80_0000, 14 - exp);
        RneShift(mant + 0x80_0000, 14 - exp)
    else
      var rMant := (mant + (0x1000 + mant / 0x2000 % 2 - 1)) / 0x2000;
      if rMant / 0x400 % 2 == 1 then
        if exp + 1 >= 0x1F then 0x7C00 else (exp + 1) * 0x400
      else
        exp * 0x400 + rMant
  }

  function Fp32ToFp16(x: Bits32): Bits16
  {
    Sign32(x) * 0x8000 + HalfMagnitude(Exponent32(x), Fraction32(x))
  }

  lemma Parts16(x: Bits32)
    ensures Sign16(Fp32ToFp16(x)) == Sign32(x)
    ensures Magnitude16(Fp32ToFp16(x)) == HalfMagnitude(Exponent32(x), Fraction32(x))
  {
  }

  lemma SubnormalBounded(m: nat, s: nat)
    requires m < 0x100_0000 && s >= 14
    ensures RneShift(m, s) <= 0x400
  {
    var f := SubnormalQuotient(m, s);
    RneShiftPicks(Shr(m, s), f, s, m);
  }

  lemma SubnormalQuotient(m: nat, s: nat) returns (f: nat)
    requires m < 0x100_0000 && s >= 14
    ensures Shr(m, s) < 0x400 && m == Shl(Shr(m, s), s) + f && f < Pow2(s)
  {
    Shl13(0x400);
    ShlGrows(0x400, 14, s);
    ShrBelow(m, s, 0x400);
    f := ShrSplit(m, s);
  }

  /** The two-field significand step is the shared idiom on the rebiased code, carry into the exponent included. */
  lemma NormalCode(e: Exp8, q: nat, f: nat)
    requires 113 <= e <= 142 && q < 0x400 && f < 0x2000
    ensures HalfMagnitude(e, q * 0x2000 + f) == RneShift((e - 112) * 0x80_0000 + q * 0x2000 + f, 13)
  {
    var lo := (e - 112) * 0x400 + q;
    Shl13(1);
    Shl13(lo);
    RneShiftPicks(lo, f, 13, lo * 0x2000 + f);
  }

  ghost predicate HalfNearest(e: Exp8, mant: Frac23, code: nat)
  {
    NearestEven(10, UNIT16, INF16, FieldValue(e, mant), code)
  }

  /** An FP32 value lies f / 2^13 of the way between two neighbouring normal halves. */
  lemma NormalBetween(e: Exp8, q: nat, f: nat)
    requires 113 <= e <= 142 && q < 0x400 && f < 0x2000
    ensures var lo := (e - 112) * 0x400 + q;
      && FieldValue(e, q * 0x2000 + f) == ValueOf(10, UNIT16, lo) + Shl(f, e - 1)
      && Gap(10, UNIT16, lo) == Pow2(13 + (e - 1))
  {
    var sig := 0x400 + q;
    Shl13(sig);
    Fields32(e, q * 0x2000 + f);
    Fields16(e - 112, q);
    ShlAdd(Shl(sig, 13), f, e - 1);
    ShlTwice(sig, 13, e - 1);
  }

  lemma HalfNearestNormal(e: Exp8, q: nat, f: nat)
    requires 113 <= e <= 142 && q < 0x400 && f < 0x2000
    ensures HalfNearest(e, q * 0x2000 + f, RneShift((e - 112) * 0x80_0000 + q * 0x2000 + f, 13))
  {
    var lo := (e - 112) * 0x400 + q;
    NormalBetween(e, q, f);
    Shl13(1);
    Shl13(lo);
    ShiftNearest(10, UNIT16, INF16, FieldValue(e, q * 0x2000 + f), lo, f, 13, e - 1, lo * 0x2000 + f);
  }

  lemma HalfNearestSubnormal(e: Exp8, mant: Frac23)
    requires 102 <= e <= 112
    ensures HalfNearest(e, mant, RneShift(mant + 0x80_0000, 126 - e))
  {
    var m, s := mant + 0x80_0000, 126 - e;
    var lo := Shr(m, s);
    var f := SubnormalQuotient(m, s);
    Fields32(e, mant);
    Fields16(0, lo);
    ShlAdd(Shl(lo, s), f, e - 1);
    ShlTwice(lo, s, e - 1);
    ShiftNearest(10, UNIT16, INF16, FieldValue(e, mant), lo, f, s, e - 1, m);
  }

  lemma {:induction false} BelowShifted(x: nat, p: nat, a: nat, b: nat)
    requires x < Pow2(p) && a <= b
    ensures Shl(x, a) < Pow2(p + b)
  {
    ShlGrows(x, a, b);
    ShlMonotone(x, Pow2(p), b);
    ShlTwice(1, p, b);
  }

  /** A number below half of the first positive code's value. */
  lemma NearestIsZero(v: nat, half: nat)
    requires v < half && ValueOf(10, UNIT16, 0) == 0 && ValueOf(10, UNIT16, 1) == 2 * half
    ensures NearestEven(10, UNIT16, INF16, v, 0)
  {
    BracketNearest(10, UNIT16, INF16, v, 0, 0);
  }

  lemma FirstHalves()
    ensures ValueOf(10, UNIT16, 0) == 0 && ValueOf(10, UNIT16, 1) == 2 * Pow2(124)
  {
    Fields16(0, 0);
    ShlZero(UNIT16);
    Fields16(0, 1);
  }

  /** Below half the smallest subnormal the nearest half is zero. */
  lemma HalfNearestTiny(e: Exp8, mant: Frac23)
    requires e < 102
    ensures HalfNearest(e, mant, 0)
  {
    Fields32(e, mant);
    Shl23(1);
    BelowShifted(if e == 0 then mant else 0x80_0000 + mant, 24, if e == 0 then 0 else e - 1, 100);
    FirstHalves();
    NearestIsZero(FieldValue(e, mant), Pow2(124));
  }

  lemma {:induction false} AboveShifted(x: nat, y: nat, a: nat, b: nat)
    requires x <= y && a <= b
    ensures Shl(x, a) <= Shl(y, b)
  {
    ShlGrows(x, a, b);
    ShlMonotone(x, y, b);
  }

  lemma InfinityValue()
    ensures ValueOf(10, UNIT16, INF16) == Shl(0x80_0000, 142)
  {
    Fields16(31, 0);
    Shl13(0x400);
    ShlTwice(0x400, 13, 142);
  }

  lemma HalfNearestHuge(e: Exp8, mant: Frac23)
    requires 143 <= e < 0xFF
    ensures HalfNearest(e, mant, INF16)
  {
    Fields32(e, mant);
    InfinityValue();
    AboveShifted(0x80_0000, 0x80_0000 + mant, 142, e - 1);
    TopNearest(10, UNIT16, INF16, FieldValue(e, mant));
  }

  lemma HalfNearestFinite(e: Exp8, mant: Frac23)
    requires e < 0xFF
    ensures HalfNearest(e, mant, HalfMagnitude(e, mant))
  {
    if e < 102 {
      HalfNearestTiny(e, mant);
    } else if e <= 112 {
      HalfNearestSubnormal(e, mant);
    } else if e <= 142 {
      NormalCode(e, mant / 0x2000, mant % 0x2000);
      HalfNearestNormal(e, mant / 0x2000, mant % 0x2000);
    } else {
      HalfNearestHuge(e, mant);
    }
  }

  /** IEEE 754-2019 section 4.3.1: every finite input goes to its nearest half, ties to even, 65520 and up to infinity. */
  lemma Fp16IsNearestEven(x: Bits32)
    requires Magnitude32(x) < INF32
    ensures NearestEven(10, UNIT16, INF16, Value32(x), Magnitude16(Fp32ToFp16(x)))
    ensures Sign16(Fp32ToFp16(x)) == Sign32(x)
  {
    Split32(x);
    Parts16(x);
    HalfNearestFinite(Exponent32(x), Fraction32(x));
  }

  /** Infinities and NaNs keep their class and sign; every NaN becomes the quiet one without payload. */
  lemma Fp16NonFinite(x: Bits32)
    requires Magnitude32(x) >= INF32
    ensures Sign16(Fp32ToFp16(x)) == Sign32(x)
    ensures Magnitude16(Fp32ToFp16(x)) == if Magnitude32(x) == INF32 then INF16 else INF16 + 0x200
  {
    Split32(x);
    Parts16(x);
  }

  /** What narrowing a magnitude that is not a NaN gives: the nearest code, or infinity's. */
  ghost predicate Narrows(mag: nat, a: nat)
  {
    if mag < INF32 then NearestEven(10, UNIT16, INF16, ValueOf(23, 0, mag), a) else a == INF16
  }

  lemma Fp16Narrows(x: Bits32)
    requires Magnitude32(x) <= INF32
    ensures Narrows(Magnitude32(x), Magnitude16(Fp32ToFp16(x)))
  {
    if Magnitude32(x) < INF32 { Fp16IsNearestEven(x); } else { Fp16NonFinite(x); }
  }

  lemma NarrowedInOrder(m: nat, n: nat, a: nat, b: nat)
    requires m <= n && Narrows(m, a) && Narrows(n, b)
    ensures a <= b
  {
    if n < INF32 {
      ValueMonotone(23, 0, m, n);
      NearestMonotone(10, UNIT16, INF16, ValueOf(23, 0, m), ValueOf(23, 0, n), a, b);
    }
  }

  /** Narrowing keeps the order of magnitudes, infinity included. */
  lemma Fp16Monotone(x: Bits32, y: Bits32)
    requires Magnitude32(x) <= Magnitude32(y) <= INF32
    ensures Magnitude16(Fp32ToFp16(x)) <= Magnitude16(Fp32ToFp16(y))
  {
    Fp16Narrows(x);
    Fp16Narrows(y);
    NarrowedInOrder(Magnitude32(x), Magnitude32(y), Magnitude16(Fp32ToFp16(x)), Magnitude16(Fp32ToFp16(y)));
  }

  // ---- FP16 to FP32 ----

  /** A subnormal significand doubled until its hidden bit shows, after `i` doublings so far; the exponent field is then 113 - i. */
  function Normalised(mant: nat, i: nat): nat
    requires Pow2(i) <= mant < 0x800 && i <= 10
    decreases 0x800 - mant
  {
    Pow2Positive(i);
    DoublingsLeft(mant, i);
    if mant >= 0x400 then (113 - i) * 0x80_0000 + (mant - 0x400) * 0x2000
    else Normalised(2 * mant, i + 1)
  }

  lemma DoublingsLeft(mant: nat, i: nat)
    requires Pow2(i) <= mant && i <= 10
    ensures mant < 0x400 ==> i < 10
  {
    Shl10(1);
  }

  function Fp16ToFp32(h: Bits16): (x: Bits32)
    ensures Sign32(x) == Sign16(h)
  {
    var sign := Sign16(h) * 0x8000_0000;
    var exp, mant := h / 0x400 % 0x20, h % 0x400;
    if exp == 0 then
      if mant == 0 then sign
      else
        NormalisedRange(mant, 0);
        sign + Normalised(mant, 0)
    else if exp == 0x1F then sign + 0x7F80_0000 + mant * 0x2000
    else sign + (exp + 112) * 0x80_0000 + mant * 0x2000
  }

  lemma {:induction false} NormalisedRange(mant: nat, i: nat)
    requires Pow2(i) <= mant < 0x800 && i <= 10
    ensures Normalised(mant, i) < 0x3900_0000
    decreases 0x800 - mant
  {
    if mant < 0x400 {
      Pow2Positive(i);
      DoublingsLeft(mant, i);
      NormalisedRange(2 * mant, i + 1);
    }
  }

  /** The normalising loop, its exponent counter wrapping below zero as an unsigned word does. */
  method ShiftUp(m: nat) returns (mant: nat, exp: Bits32)
    requires 0 < m < 0x400
    ensures 0x400 <= mant < 0x800
    ensures Normalised(m, 0) == WrappedExponent(exp) * 0x80_0000 + (mant - 0x400) * 0x2000
  {
    mant, exp := m, 0;
    ghost var i := 0;
    while mant / 0x400 % 2 == 0
      invariant Pow2(i) <= mant < 0x800 && i <= 10
      invariant exp == if i == 0 then 0 else 0x1_0000_0000 - i
      invariant Normalised(mant, i) == Normalised(m, 0)
      decreases 0x800 - mant
    {
      Pow2Positive(i);
      DoublingsLeft(mant, i);
      mant, exp, i := 2 * mant, (exp + 0xFFFF_FFFF) % 0x1_0000_0000, i + 1;
    }
    assert WrappedExponent(exp) == 113 - i;
  }

  function WrappedExponent(exp: Bits32): Exp8
  {
    (exp + (127 - 15) + 1) % 0x1_0000_0000 % 0x100
  }

  /** The subnormal branch: the exponent field from the counter, the hidden bit dropped. */
  method DecodeSubnormal(sign: Bits32, m: nat) returns (x: nat)
    requires 0 < m < 0x400
    ensures Pow2(0) <= m && x == sign + Normalised(m, 0)
  {
    var mant, exp := ShiftUp(m);
    x := sign + WrappedExponent(exp) * 0x80_0000 + mant % 0x400 * 0x2000;
  }

  method DecodeFp16(h: Bits16) returns (x: Bits32)
    ensures x == Fp16ToFp32(h)
  {
    var sign := h / 0x8000 * 0x8000_0000;
    var exp, mant := h / 0x400 % 0x20, h % 0x400;
    if exp == 0 {
      if mant == 0 {
        x := sign;
      } else {
        NormalisedRange(mant, 0);
        x := DecodeSubnormal(sign, mant);
      }
    } else if exp == 0x1F {
      x := sign + 0x7F80_0000 + mant * 0x2000;
    } else {
      x := sign + (exp + (127 - 15)) * 0x80_0000 + mant * 0x2000;
    }
  }

  lemma {:induction false} NormalisedValue(mant: nat, i: nat)
    requires Pow2(i) <= mant < 0x800 && i <= 10
    ensures ValueOf(23, 0, Normalised(mant, i)) == Shl(mant, 125 - i)
    decreases 0x800 - mant
  {
    if mant >= 0x400 {
      Fields32(113 - i, (mant - 0x400) * 0x2000);
      Shl13(mant);
      ShlTwice(mant, 13, 112 - i);
    } else {
      Pow2Positive(i);
      DoublingsLeft(mant, i);
      NormalisedValue(2 * mant, i + 1);
      assert Shl(mant, 1) == 2 * mant;
      ShlTwice(mant, 1, 124 - i);
    }
  }

  /** The fields of a half, and the value and magnitude of what it widens to. */
  lemma {:induction false} WideNormal(e: nat, mant: nat)
    requires 1 <= e < 0x1F && mant < 0x400
    ensures FieldValue(e + 112, mant * 0x2000) == ValueOf(10, UNIT16, e * 0x400 + mant)
  {
    Fields16(e, mant);
    Fields32(e + 112, mant * 0x2000);
    Shl13(0x400 + mant);
    ShlTwice(0x400 + mant, 13, e + 111);
  }

  lemma {:induction false} WideSubnormal(mant: nat)
    requires Pow2(0) <= mant < 0x400
    ensures Normalised(mant, 0) < INF32 && ValueOf(23, 0, Normalised(mant, 0)) == ValueOf(10, UNIT16, mant)
  {
    Fields16(0, mant);
    NormalisedRange(mant, 0);
    NormalisedValue(mant, 0);
  }

  lemma WideZero()
    ensures ValueOf(23, 0, 0) == 0 == ValueOf(10, UNIT16, 0)
  {
    Fields32(0, 0);
    FirstHalves();
  }

  /** Widening is exact: the FP32 result has the half's value. */
  lemma Fp16DecodeExact(h: Bits16)
    requires Magnitude16(h) < INF16
    ensures Magnitude32(Fp16ToFp32(h)) < INF32
    ensures Value32(Fp16ToFp32(h)) == ValueOf(10, UNIT16, Magnitude16(h))
  {
    var exp, mant := h / 0x400 % 0x20, h % 0x400;
    WideMagnitude(h);
    if exp > 0 {
      WideNormal(exp, mant);
    } else if mant > 0 {
      WideSubnormal(mant);
    } else {
      WideZero();
    }
  }

  lemma WideMagnitude(h: Bits16)
    requires Magnitude16(h) < INF16
    ensures var exp, mant := h / 0x400 % 0x20, h % 0x400;
            && Magnitude16(h) == exp * 0x400 + mant
            && (exp == 0 && mant == 0 ==> Magnitude32(Fp16ToFp32(h)) == 0)
            && (exp == 0 && mant > 0 ==> Pow2(0) <= mant && Magnitude32(Fp16ToFp32(h)) == Normalised(mant, 0))
            && (exp > 0 ==> Magnitude32(Fp16ToFp32(h)) == (exp + 112) * 0x80_0000 + mant * 0x2000)
  {
    if h / 0x400 % 0x20 == 0 && h % 0x400 > 0 {
      NormalisedRange(h % 0x400, 0);
    }
  }

  lemma InfinityWidens(h: Bits16)
    requires Magnitude16(h) == INF16
    ensures Magnitude32(Fp16ToFp32(h)) == INF32
  {
  }

  /** A pattern of an all-ones exponent by its parts. */
  lemma HighParts(s: nat, mant: nat, h: nat, x: nat)
    requires s < 2 && mant < 0x400 && h == s * 0x8000 + 0x7C00 + mant
    requires x == s * 0x8000_0000 + 0x7F80_0000 + mant * 0x2000
    ensures h < 0x1_0000 && Magnitude16(h) == INF16 + mant && h / 0x400 % 0x20 == 0x1F && h % 0x400 == mant && Sign16(h) == s
    ensures x < 0x1_0000_0000 && Sign32(x) == s && Exponent32(x) == 0xFF && Fraction32(x) == mant * 0x2000
  {
    assert h / 0x400 == s * 0x20 + 0x1F;
    assert x / 0x80_0000 == s * 0x100 + 0xFF;
  }

  /** Widening a half that is no number: an infinity or NaN of the same sign, its fraction at the top of the longer one. */
  lemma Fp16WidensNonFinite(h: Bits16)
    requires Magnitude16(h) >= INF16
    ensures var x := Fp16ToFp32(h);
      Sign32(x) == Sign16(h) && Exponent32(x) == 0xFF && Fraction32(x) == (Magnitude16(h) - INF16) * 0x2000
  {
    var s, mant := Sign16(h), Magnitude16(h) - INF16;
    HighParts(s, mant, h, s * 0x8000_0000 + 0x7F80_0000 + mant * 0x2000);
  }

  /** Widening keeps the class of every half: finite, infinite or NaN. */
  lemma Fp16WidensClass(h: Bits16)
    ensures Magnitude16(h) == INF16 <==> Magnitude32(Fp16ToFp32(h)) == INF32
    ensures Magnitude16(h) > INF16 <==> Magnitude32(Fp16ToFp32(h)) > INF32
  {
    Split32(Fp16ToFp32(h));
    if Magnitude16(h) < INF16 { Fp16DecodeExact(h); } else { Fp16WidensNonFinite(h); }
  }

  /** A NaN half narrowed again is the quiet NaN of its sign. */
  lemma Fp16NanReturns(h: Bits16)
    requires Magnitude16(h) > INF16
    ensures Fp32ToFp16(Fp16ToFp32(h)) == Sign16(h) * 0x8000 + 0x7E00
  {
    var x := Fp16ToFp32(h);
    Fp16WidensNonFinite(h);
    Fp16WidensClass(h);
    Fp16NonFinite(x);
  }

  /** Two codes nearest to the value of one of them are that one. */
  lemma {:induction false} NearestToItself(m: nat, a: nat, v: nat)
    requires m < INF16 && v == ValueOf(10, UNIT16, m) && NearestEven(10, UNIT16, INF16, v, a)
    ensures a == m
  {
    ExactNearest(10, UNIT16, INF16, m);
    NearestMonotone(10, UNIT16, INF16, v, v, m, a);
    NearestMonotone(10, UNIT16, INF16, v, v, a, m);
  }

  lemma SameParts(h: Bits16, r: Bits16)
    requires Sign16(h) == Sign16(r) && Magnitude16(h) == Magnitude16(r)
    ensures h == r
  {
  }

  lemma Fp16MagnitudeBack(h: Bits16, x: Bits32)
    requires x == Fp16ToFp32(h) && Magnitude16(h) <= INF16
    ensures Magnitude16(Fp32ToFp16(x)) == Magnitude16(h)
  {
    if Magnitude16(h) < INF16 {
      Fp16DecodeExact(h);
      Fp16IsNearestEven(x);
      NearestToItself(Magnitude16(h), Magnitude16(Fp32ToFp16(x)), Value32(x));
    } else {
      InfinityWidens(h);
      Fp16NonFinite(x);
    }
  }

  /** Narrowing undoes widening on every pattern that is not a NaN. */
  lemma Fp16RoundTrip(h: Bits16)
    requires Magnitude16(h) <= INF16
    ensures Fp32ToFp16(Fp16ToFp32(h)) == h
  {
    var x := Fp16ToFp32(h);
    Fp16MagnitudeBack(h, x);
    Parts16(x);
    SameParts(h, Fp32ToFp16(x));
  }

  // ---- BF16 ----

  function Fp32ToBf16(x: Bits32): Bits16
  {
    if Exponent32(x) == 0xFF && Fraction32(x) != 0 then
      if x / 0x40_0000 % 2 == 1 then x / 0x1_0000 else x / 0x1_0000 + 0x0040
    else
      RoundToHighHalf(x)
  }

  /** Add the rounding bias, wrapping at 32 bits, and keep the high half. */
  function RoundToHighHalf(x: Bits32): Bits16
  {
    (x + (0x7FFF + x / 0x1_0000 % 2)) % 0x1_0000_0000 / 0x1_0000
  }

  function Bf16ToFp32(h: Bits16): Bits32 { h * 0x1_0000 }

  lemma WordQuotient(n: nat, f: nat, x: nat)
    requires f < 0x1_0000 && x == n * 0x1_0000 + f
    ensures x / 0x1_0000 == n
  {
  }

  /** The rounding step on the word with high half `n` and low half `f`, the sum staying below 2^32. */
  lemma HighHalfPicks(n: nat, f: nat, x: Bits32)
    requires n < 0xFFFF && f < 0x1_0000 && x == n * 0x1_0000 + f
    ensures RoundToHighHalf(x) == PickNearer(n, f, 0x1_0000 - f)
  {
    WordQuotient(n, f, x);
    var t := f + (0x7FFF + n % 2);
    if t < 0x1_0000 {
      WordQuotient(n, t, x + (0x7FFF + n % 2));
    } else {
      WordQuotient(n + 1, t - 0x1_0000, x + (0x7FFF + n % 2));
    }
  }

  lemma WordRneShift(q: nat, f: nat)
    requires f < 0x1_0000
    ensures RneShift(q * 0x1_0000 + f, 16) == PickNearer(q, f, 0x1_0000 - f)
  {
    Shl16(1);
    Shl16(q);
    RneShiftPicks(q, f, 16, q * 0x1_0000 + f);
  }

  /** Rounding the whole word rounds the magnitude and leaves the sign alone. */
  lemma HighHalfRounds(s: nat, q: nat, f: nat)
    requires s < 2 && f < 0x1_0000 && (q < INF_BF16 || (q == INF_BF16 && f == 0))
    ensures RoundToHighHalf(s * 0x8000_0000 + q * 0x1_0000 + f) == s * 0x8000 + RneShift(q * 0x1_0000 + f, 16)
    ensures RneShift(q * 0x1_0000 + f, 16) == PickNearer(q, f, 0x1_0000 - f)
  {
    var n := s * 0x8000 + q;
    HighHalfPicks(n, f, n * 0x1_0000 + f);
    WordRneShift(q, f);
    EvenOffset(s * 0x4000, q, f);
  }

  /** An even offset does not change which neighbour is picked. */
  lemma EvenOffset(half: nat, q: nat, f: nat)
    ensures PickNearer(2 * half + q, f, 0x1_0000 - f) == 2 * half + PickNearer(q, f, 0x1_0000 - f)
  {
  }

  lemma Bf16Code(x: Bits32)
    requires Magnitude32(x) <= INF32
    ensures Sign16(Fp32ToBf16(x)) == Sign32(x)
    ensures Magnitude16(Fp32ToBf16(x)) == RneShift(Magnitude32(x), 16)
  {
    var q, f := Magnitude32(x) / 0x1_0000, Magnitude32(x) % 0x1_0000;
    Split32(x);
    HighHalfRounds(Sign32(x), q, f);
    assert x == Sign32(x) * 0x8000_0000 + q * 0x1_0000 + f;
  }

  /** An FP32 value lies f / 2^16 of the way between two neighbouring bfloat16 values. */
  lemma Bf16Bracket(e: Exp8, q: nat, f: nat)
    requires q < 0x80 && f < 0x1_0000
    ensures var lo, g := e * 0x80 + q, if e == 0 then 0 else e - 1;
            && FieldValue(e, q * 0x1_0000 + f) == ValueOf(7, UNIT_BF16, lo) + Shl(f, g)
            && Gap(7, UNIT_BF16, lo) == Pow2(16 + g)
  {
    Fields32(e, q * 0x1_0000 + f);
    FieldsBf16(e, q);
    Shl16(1);
    Shl16(0x80 + q);
    if e > 0 {
      ShlAdd(Shl(0x80 + q, 16), f, e - 1);
      ShlTwice(0x80 + q, 16, e - 1);
    }
  }

  /** Every finite FP32, subnormals included, goes to its nearest bfloat16, ties to even, overflow to infinity. */
  lemma Bf16IsNearestEven(x: Bits32)
    requires Magnitude32(x) < INF32
    ensures NearestEven(7, UNIT_BF16, INF_BF16, Value32(x), Magnitude16(Fp32ToBf16(x)))
    ensures Sign16(Fp32ToBf16(x)) == Sign32(x)
  {
    var e, q, f := Exponent32(x), Fraction32(x) / 0x1_0000, Fraction32(x) % 0x1_0000;
    Split32(x);
    Bf16Code(x);
    Bf16Bracket(e, q, f);
    Shl16(1);
    Shl16(e * 0x80 + q);
    ShiftNearest(7, UNIT_BF16, INF_BF16, Value32(x), e * 0x80 + q, f, 16, if e == 0 then 0 else e - 1, Magnitude32(x));
  }

  /** A pattern whose exponent is all ones, by its fields. */
  lemma HighHalfOfNan(s: nat, q: nat, f: nat, x: nat)
    requires s < 2 && q < 0x80 && f < 0x1_0000 && x == s * 0x8000_0000 + (INF_BF16 + q) * 0x1_0000 + f
    ensures x / 0x1_0000 == s * 0x8000 + (INF_BF16 + q)
    ensures x / 0x40_0000 % 2 == 1 <==> q >= 0x40
  {
    assert x / 0x40_0000 == s * 0x200 + 0x1FE + q / 0x40;
  }

  lemma CodeParts(s: nat, m: nat, h: nat)
    requires s < 2 && m < 0x8000 && h == s * 0x8000 + m
    ensures Sign16(h) == s && Magnitude16(h) == m
  {
  }

  /** Infinities and NaNs keep their class and sign; a NaN keeps the seven high bits of its payload, made quiet. */
  lemma Bf16NonFinite(x: Bits32)
    requires Magnitude32(x) >= INF32
    ensures Sign16(Fp32ToBf16(x)) == Sign32(x)
    ensures var q := Fraction32(x) / 0x1_0000;
      Magnitude16(Fp32ToBf16(x))
      == if Magnitude32(x) == INF32 then INF_BF16 else INF_BF16 + if q >= 0x40 then q else q + 0x40
  {
    var s, q, f := Sign32(x), Fraction32(x) / 0x1_0000, Fraction32(x) % 0x1_0000;
    Split32(x);
    HighHalfOfNan(s, q, f, x);
    if Magnitude32(x) == INF32 {
      HighHalfRounds(s, INF_BF16, 0);
      CodeParts(s, INF_BF16, Fp32ToBf16(x));
    } else {
      CodeParts(s, INF_BF16 + if q >= 0x40 then q else q + 0x40, Fp32ToBf16(x));
    }
  }

  /** What narrowing a magnitude that is not a NaN to bfloat16 gives. */
  ghost predicate NarrowsBf16(mag: nat, a: nat)
  {
    if mag < INF32 then NearestEven(7, UNIT_BF16, INF_BF16, ValueOf(23, 0, mag), a) else a == INF_BF16
  }

  lemma Bf16Narrows(x: Bits32)
    requires Magnitude32(x) <= INF32
    ensures NarrowsBf16(Magnitude32(x), Magnitude16(Fp32ToBf16(x)))
  {
    if Magnitude32(x) < INF32 { Bf16IsNearestEven(x); } else { Bf16NonFinite(x); }
  }

  lemma NarrowedBf16InOrder(m: nat, n: nat, a: nat, b: nat)
    requires m <= n && NarrowsBf16(m, a) && NarrowsBf16(n, b)
    ensures a <= b
  {
    if n < INF32 {
      ValueMonotone(23, 0, m, n);
      NearestMonotone(7, UNIT_BF16, INF_BF16, ValueOf(23, 0, m), ValueOf(23, 0, n), a, b);
    }
  }

  lemma Bf16Monotone(x: Bits32, y: Bits32)
    requires Magnitude32(x) <= Magnitude32(y) <= INF32
    ensures Magnitude16(Fp32ToBf16(x)) <= Magnitude16(Fp32ToBf16(y))
  {
    Bf16Narrows(x);
    Bf16Narrows(y);
    NarrowedBf16InOrder(Magnitude32(x), Magnitude32(y), Magnitude16(Fp32ToBf16(x)), Magnitude16(Fp32ToBf16(y)));
  }

  lemma WidenedParts(h: Bits16)
    ensures Sign32(Bf16ToFp32(h)) == Sign16(h) && Magnitude32(Bf16ToFp32(h)) == Magnitude16(h) * 0x1_0000
  {
    assert h * 0x1_0000 == Sign16(h) * 0x8000_0000 + Magnitude16(h) * 0x1_0000;
  }

  /** Narrowing undoes widening on every pattern that is not a NaN. */
  lemma Bf16RoundTrip(h: Bits16)
    requires Magnitude16(h) <= INF_BF16
    ensures Fp32ToBf16(Bf16ToFp32(h)) == h
  {
    var x := Bf16ToFp32(h);
    WidenedParts(h);
    Bf16Code(x);
    HighHalfRounds(0, Magnitude16(h), 0);
    SameParts(h, Fp32ToBf16(x));
  }

  /** Widening appends sixteen zero bits, so sign, class and payload are kept whatever the pattern. */
  lemma Bf16WidensClass(h: Bits16)
    ensures var x := Bf16ToFp32(h);
      && Sign32(x) == Sign16(h) && Fraction32(x) == h % 0x80 * 0x1_0000
      && (Magnitude16(h) == INF_BF16 <==> Magnitude32(x) == INF32)
      && (Magnitude16(h) > INF_BF16 <==> Magnitude32(x) > INF32)
  {
    WidenedParts(h);
    assert h * 0x1_0000 == h / 0x80 * 0x80_0000 + h % 0x80 * 0x1_0000;
  }

  lemma QuietParts(h: Bits16, q: nat, r: nat)
    requires Magnitude16(h) > INF_BF16 && q == h % 0x80 && r == if q >= 0x40 then h else h + 0x40
    ensures r < 0x1_0000 && Sign16(r) == Sign16(h) && Magnitude16(r) == INF_BF16 + if q >= 0x40 then q else q + 0x40
  {
    assert Magnitude16(h) == INF_BF16 + q;
  }

  /** A NaN narrowed again keeps sign and payload, and is quiet. */
  lemma Bf16NanReturns(h: Bits16)
    requires Magnitude16(h) > INF_BF16
    ensures Fp32ToBf16(Bf16ToFp32(h)) == if h % 0x80 >= 0x40 then h else h + 0x40
  {
    var q := h % 0x80;
    var r := if q >= 0x40 then h else h + 0x40;
    Bf16WidensClass(h);
    Bf16NonFinite(Bf16ToFp32(h));
    QuietParts(h, q, r);
    assert q * 0x1_0000 / 0x1_0000 == q;
    SameParts(r, Fp32ToBf16(Bf16ToFp32(h)));
  }

  /** Widening a bfloat16 is exact. */
  lemma Bf16DecodeExact(h: Bits16)
    requires Magnitude16(h) < INF_BF16
    ensures Value32(Bf16ToFp32(h)) == ValueOf(7, UNIT_BF16, Magnitude16(h))
  {
    var m := Magnitude16(h);
    assert Magnitude32(Bf16ToFp32(h)) == m * 0x1_0000;
    Bf16Bracket(m / 0x80, m % 0x80, 0);
    ShlZero(if m / 0x80 == 0 then 0 else m / 0x80 - 1);
  }
}

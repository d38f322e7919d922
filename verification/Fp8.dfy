/**
 FP8 E4M3 (OCP OFP8 rev 1.0: no infinities, largest finite 448). The encoder brackets the magnitude by
 binary search over the codes and rounds to the nearer end. The two differences it compares are FP32
 subtractions, so they are modelled with their own rounding.
 */
module Fp8 {
  import opened Shifts
  import opened FloatRounding
  import opened HalfPrecision

  type Bits8 = b: nat | b < 0x100

  const TOP8: nat := 126

  /** The smallest subnormal, 2^-9, in FP32 units of 2^-149. */
  const UNIT8: nat := 149 - 9

  /** The magnitude of a code that is not a NaN; both `ldexp` calls are exact. */
  function Fp8Magnitude(code: nat): nat
    requires code <= TOP8
  {
    var e, m := code / 8 % 16, code % 8;
    if e == 0 then Shl(m, 149 - 9) else Shl(8 + m, e - 7 - 3 + 149)
  }

  // ---- FP32 subtraction ----

  /** The exponent by which `x` overflows a 24-bit significand. */
  function Excess(x: nat): nat
  {
    if x < 0x100_0000 then 0 else 1 + Excess(x / 2)
  }

  /** The FP32 magnitude code nearest to `x`, the exponent being unbounded above. */
  function RoundFp32(x: nat): nat
  {
    if x < 0x100_0000 then x
    else Excess(x) * 0x80_0000 + RneShift(x, Excess(x))
  }

  lemma {:induction false} LeadingQuotient(x: nat)
    requires x >= 0x100_0000
    ensures Excess(x) >= 1 && 0x80_0000 <= Shr(x, Excess(x)) < 0x100_0000
  {
    if x / 2 >= 0x100_0000 {
      LeadingQuotient(x / 2);
    } else {
      assert Excess(x) == 1 && Shr(x, 1) == x / 2;
    }
  }

  lemma {:induction false} LongCode(q: nat, s: nat)
    requires s >= 1 && 0x80_0000 <= q < 0x100_0000
    ensures ValueOf(23, 0, s * 0x80_0000 + q) == Shl(q, s) && Gap(23, 0, s * 0x80_0000 + q) == Pow2(s)
  {
    Shl23(1);
    Shl23(s + 1);
    Fields(23, 0, s + 1, q - 0x80_0000, s * 0x80_0000 + q);
  }

  lemma PickNearerMoved(half: nat, lo: nat, dl: int, dh: int)
    ensures PickNearer(2 * half + lo, dl, dh) == 2 * half + PickNearer(lo, dl, dh)
  {
  }

  lemma {:induction false} LongRounds(x: nat, top: nat, s: nat, q: nat, f: nat, lo: nat, code: nat)
    requires s >= 1 && 0x80_0000 <= q < 0x100_0000 && f < Pow2(s) && x == Shl(q, s) + f
    requires lo == s * 0x80_0000 + q && code == s * 0x80_0000 + RneShift(x, s) && code < top
    ensures NearestEven(23, 0, top, x, code)
  {
    LongCode(q, s);
    ValueStep(23, 0, lo);
    RneShiftPicks(q, f, s, x);
    PickNearerMoved(s * 0x40_0000, q, f, Pow2(s) - f);
    assert code == PickNearer(lo, f, Pow2(s) - f);
    BracketNearest(23, 0, top, x, lo, code);
  }

  /** Every integer number of smallest subnormals rounds to its nearest FP32, ties to even. */
  lemma RoundFp32Nearest(x: nat, top: nat)
    requires RoundFp32(x) < top
    ensures NearestEven(23, 0, top, x, RoundFp32(x))
  {
    if x < 0x100_0000 {
      Shl23(1);
      ExactNearest(23, 0, top, x);
    } else {
      LeadingQuotient(x);
      var f := ShrSplit(x, Excess(x));
      var s, q := Excess(x), Shr(x, Excess(x));
      LongRounds(x, top, s, q, f, s * 0x80_0000 + q, RoundFp32(x));
    }
  }

  /** The FP32 result of a subtraction whose exact difference is `x`. */
  function Rounded(x: nat): nat
  {
    ValueOf(23, 0, RoundFp32(x))
  }

  lemma RoundedMonotone(x: nat, y: nat)
    requires x <= y
    ensures Rounded(x) <= Rounded(y)
  {
    var top := RoundFp32(x) + RoundFp32(y) + 1;
    RoundFp32Nearest(x, top);
    RoundFp32Nearest(y, top);
    NearestMonotone(23, 0, top, x, y, RoundFp32(x), RoundFp32(y));
    ValueMonotone(23, 0, RoundFp32(x), RoundFp32(y));
  }

  lemma {:induction false} RoundedExact(c: nat)
    ensures Rounded(ValueOf(23, 0, c)) == ValueOf(23, 0, c)
  {
    var x := ValueOf(23, 0, c);
    var top := RoundFp32(x) + c + 1;
    RoundFp32Nearest(x, top);
    ExactNearest(23, 0, top, c);
    NearestMonotone(23, 0, top, x, x, RoundFp32(x), c);
    NearestMonotone(23, 0, top, x, x, c, RoundFp32(x));
  }

  /** A 24-bit significand times a power of two is an FP32 value, so subtraction does not round it. */
  lemma {:induction false} ShortIsExact(q: nat, j: nat)
    requires q < 0x100_0000
    ensures Rounded(Shl(q, j)) == Shl(q, j)
    decreases j
  {
    if j == 0 {
      Shl23(1);
      RoundedExact(q);
    } else if q < 0x80_0000 {
      assert Shl(q, 1) == 2 * q;
      ShlTwice(q, 1, j - 1);
      ShortIsExact(2 * q, j - 1);
    } else {
      LongCode(q, j);
      RoundedExact(j * 0x80_0000 + q);
    }
  }

  /** Below half of the bracket the far difference stays above the near one after rounding. */
  lemma {:induction false} HalfwayRounds(dl: nat, dh: nat, t: nat, j: nat)
    requires t > 0 && dl + dh == Pow2(t) && dl < dh
    ensures Shl(dl, j) < Rounded(Shl(dh, j))
  {
    var half := Pow2(t - 1);
    ShlMonotone(dl, half, j);
    ShlMonotone(half, dh, j);
    RoundedMonotone(Shl(half, j), Shl(dh, j));
    ShlTwice(1, t - 1, j);
    ShortIsExact(1, t - 1 + j);
  }

  /**
   Rounding the two differences never changes which end of a power-of-two bracket is nearer: the near one
   is exact when it fits a significand, and the far one can round only when it is much the larger.
   */
  lemma {:induction false} RoundedPick(lo: nat, dl: nat, dh: nat, t: nat, j: nat)
    requires dl < 0x100_0000 && dl + dh == Pow2(t)
    ensures PickNearer(lo, Rounded(Shl(dl, j)), Rounded(Shl(dh, j))) == PickNearer(lo, Shl(dl, j), Shl(dh, j))
  {
    ShortIsExact(dl, j);
    if dh < 0x100_0000 {
      ShortIsExact(dh, j);
    } else {
      HalfwayRounds(dl, dh, t, j);
      ShlMonotone(dl, dh, j);
    }
  }

  // ---- The encoder ----

  lemma Fp8Fields(e: nat, m: nat)
    requires m < 8
    ensures ValueOf(3, UNIT8, e * 8 + m) == if e == 0 then Shl(m, UNIT8) else Shl(8 + m, e - 1 + UNIT8)
    ensures Gap(3, UNIT8, e * 8 + m) == if e == 0 then Pow2(UNIT8) else Pow2(e - 1 + UNIT8)
  {
    Shl3(1);
    Shl3(e);
    Fields(3, UNIT8, e, m, e * 8 + m);
  }

  /** The decoded magnitudes are the E4M3 codes' values. */
  lemma {:induction false} Fp8Value(code: nat)
    requires code <= TOP8
    ensures Fp8Magnitude(code) == ValueOf(3, UNIT8, code)
  {
    var e, m := code / 8 % 16, code % 8;
    assert code == e * 8 + m;
    Fp8Fields(e, m);
  }

  /** An E4M3 bracket as consecutive multiples of a power of two no finer than the unit. */
  lemma Fp8Bracket(lo: nat) returns (n: nat, g: nat)
    requires lo < TOP8
    ensures n < 16 && g >= UNIT8
    ensures Fp8Magnitude(lo) == Shl(n, g) && Fp8Magnitude(lo + 1) == Shl(n, g) + Pow2(g)
  {
    var e, m := lo / 8, lo % 8;
    Fp8Value(lo);
    Fp8Value(lo + 1);
    ValueStep(3, UNIT8, lo);
    assert lo == e * 8 + m;
    Fp8Fields(e, m);
    if e == 0 {
      n, g := m, UNIT8;
    } else {
      n, g := 8 + m, e - 1 + UNIT8;
    }
  }

  /** An FP32 magnitude as a significand and the exponent of its last bit. */
  lemma Fp32Parts(mag: nat) returns (sig: nat, j: nat)
    requires mag < INF32
    ensures sig < 0x100_0000 && ValueOf(23, 0, mag) == Shl(sig, j)
    ensures j > 0 ==> sig >= 0x80_0000
  {
    var e, m := mag / 0x80_0000, mag % 0x80_0000;
    Fields32(e, m);
    assert mag == e * 0x80_0000 + m;
    if e == 0 {
      sig, j := m, 0;
    } else {
      sig, j := 0x80_0000 + m, e - 1;
    }
  }

  lemma {:induction false} GridIsFiner(sig: nat, j: nat, n: nat, g: nat)
    requires n < 16 && g >= UNIT8
    requires j > 0 ==> sig >= 0x80_0000
    requires Shl(sig, j) < Shl(n, g) + Pow2(g)
    ensures j <= g
  {
    if j > g {
      ShlMonotone(16, sig, j);
      ShlGrows(16, g, j);
      ShlAdd(n, 1, g);
      ShlMonotone(n + 1, 16, g);
    }
  }

  /** The two distances in units of the significand's last bit. */
  lemma OnGrid(sig: nat, j: nat, n: nat, g: nat) returns (dl: nat, dh: nat)
    requires j <= g && Shl(n, g) <= Shl(sig, j) < Shl(n, g) + Pow2(g)
    ensures dl <= sig && dl + dh == Pow2(g - j)
    ensures Shl(dl, j) == Shl(sig, j) - Shl(n, g) && Shl(dh, j) == Shl(n, g) + Pow2(g) - Shl(sig, j)
  {
    var low, r := Shl(n, g - j), Pow2(g - j);
    ShlTwice(n, g - j, j);
    ShlTwice(1, g - j, j);
    ShlReflects(low, sig, j);
    ShlAdd(low, r, j);
    ShlReflects(sig, low + r, j);
    dl, dh := sig - low, low + r - sig;
    ShlAdd(low, dl, j);
    ShlAdd(sig, dh, j);
  }

  /** The encoder's float comparison decides as the exact distances do; `a` lies between the codes' values `l` and `h`. */
  lemma {:induction false} ComparisonExact(mag: nat, lo: nat, a: nat, l: nat, h: nat)
    requires mag < INF32 && lo < TOP8
    requires a == ValueOf(23, 0, mag) && l == Fp8Magnitude(lo) && h == Fp8Magnitude(lo + 1) && l <= a < h
    ensures PickNearer(lo, Rounded(a - l), Rounded(h - a)) == PickNearer(lo, a - l, h - a)
  {
    var sig, j := Fp32Parts(mag);
    var n, g := Fp8Bracket(lo);
    GridIsFiner(sig, j, n, g);
    var dl, dh := OnGrid(sig, j, n, g);
    RoundedPick(lo, dl, dh, g - j, j);
  }

  lemma {:induction false} BracketDecides(mag: nat, lo: nat, code: nat, a: nat, l: nat, h: nat)
    requires mag < INF32 && lo < TOP8
    requires a == ValueOf(23, 0, mag) && l == Fp8Magnitude(lo) && h == Fp8Magnitude(lo + 1) && l <= a < h
    requires code == PickNearer(lo, Rounded(a - l), Rounded(h - a))
    ensures NearestEven(3, UNIT8, TOP8, a, code)
  {
    ComparisonExact(mag, lo, a, l, h);
    Fp8Value(lo);
    Fp8Value(lo + 1);
    BracketNearest(3, UNIT8, TOP8, a, lo, code);
  }

  lemma LargestFinite()
    ensures Fp8Magnitude(TOP8) == Shl(448, 149)
  {
    assert Shl(14, 5) == 448;
    ShlTwice(14, 5, 149);
  }

  /** Infinity lies beyond the largest finite code. */
  lemma {:induction false} InfinitySaturates(mag: nat)
    requires mag / 0x80_0000 == 255
    ensures NearestEven(3, UNIT8, TOP8, ValueOf(23, 0, mag), TOP8)
  {
    var e, m := mag / 0x80_0000, mag % 0x80_0000;
    Fields32(e, m);
    assert mag == e * 0x80_0000 + m;
    LargestFinite();
    ShlGrows(448, 149, e - 1);
    ShlMonotone(448, 0x80_0000 + m, e - 1);
    Fp8Value(TOP8);
    TopNearest(3, UNIT8, TOP8, ValueOf(23, 0, mag));
  }

  /** The saturation test, the binary search and the rounding, for a magnitude that is not a NaN. */
  method MagnitudeCode(mag: nat) returns (code: nat)
    requires mag < INF32
    ensures NearestEven(3, UNIT8, TOP8, ValueOf(23, 0, mag), code)
  {
    var a := ValueOf(23, 0, mag);
    LargestFinite();
    if a >= Shl(448, 149) {
      Fp8Value(TOP8);
      TopNearest(3, UNIT8, TOP8, a);
      return TOP8;
    }
    ShlZero(UNIT8);
    code := SearchCode(mag, a);
  }

  /** The binary search for the two codes around the magnitude, and the choice between them. */
  method SearchCode(mag: nat, a: nat) returns (code: nat)
    requires mag < INF32 && a == ValueOf(23, 0, mag) && Fp8Magnitude(0) <= a < Fp8Magnitude(TOP8)
    ensures NearestEven(3, UNIT8, TOP8, a, code)
  {
    var lo, hi := 0, TOP8;
    while hi - lo > 1
      invariant 0 <= lo < hi <= TOP8
      invariant Fp8Magnitude(lo) <= a < Fp8Magnitude(hi)
    {
      var mid := (lo + hi) / 2;
      if Fp8Magnitude(mid) <= a {
        lo := mid;
      } else {
        hi := mid;
      }
    }
    var l, h := Fp8Magnitude(lo), Fp8Magnitude(hi);
    code := PickNearer(lo, Rounded(a - l), Rounded(h - a));
    BracketDecides(mag, lo, code, a, l, h);
  }

  /** NaN becomes 0x7F whatever its sign; every other input, infinities included, keeps its sign and takes the nearest code. */
  ghost predicate Encodes(x: Bits32, b: Bits8)
  {
    && (Magnitude32(x) > INF32 ==> b == 0x7F)
    && (Magnitude32(x) <= INF32 ==> b / 0x80 == Sign32(x) && NearestEven(3, UNIT8, TOP8, Value32(x), b % 0x80))
  }

  method EncodeFp8(x: Bits32) returns (b: Bits8)
    ensures Encodes(x, b)
  {
    var mag := Magnitude32(x);
    var code;
    if mag > INF32 {
      return 0x7F;
    } else if mag == INF32 {
      InfinitySaturates(mag);
      code := TOP8;
    } else {
      code := MagnitudeCode(mag);
    }
    b := Sign32(x) * 0x80 + code;
  }

  /** Whatever the encoder may answer for a decoded value, it is the code that was decoded. */
  lemma Fp8RoundTrip(code: nat, answer: nat)
    requires code <= TOP8 && NearestEven(3, UNIT8, TOP8, Fp8Magnitude(code), answer)
    ensures answer == code
  {
    Fp8Value(code);
    ExactNearest(3, UNIT8, TOP8, code);
    NearestMonotone(3, UNIT8, TOP8, Fp8Magnitude(code), Fp8Magnitude(code), code, answer);
    NearestMonotone(3, UNIT8, TOP8, Fp8Magnitude(code), Fp8Magnitude(code), answer, code);
  }

  // ---- The decoder ----

  lemma {:induction false} RoundFp32Of(c: nat)
    ensures RoundFp32(ValueOf(23, 0, c)) == c
  {
    RoundedExact(c);
    ValueMonotone(23, 0, c, RoundFp32(ValueOf(23, 0, c)));
    ValueMonotone(23, 0, RoundFp32(ValueOf(23, 0, c)), c);
  }

  lemma RoundFp32Monotone(x: nat, y: nat)
    requires x <= y
    ensures RoundFp32(x) <= RoundFp32(y)
  {
    RoundedMonotone(x, y);
    ValueMonotone(23, 0, RoundFp32(y), RoundFp32(x));
  }

  /** 448 as an FP32. */
  lemma LargestAsFp32()
    ensures RoundFp32(Shl(448, 149)) == 135 * 0x80_0000 + 0x60_0000
  {
    Fields32(135, 0x60_0000);
    Shl13(0x700);
    assert Shl(448, 2) == 0x700;
    ShlTwice(0x700, 13, 134);
    ShlTwice(448, 2, 147);
    RoundFp32Of(135 * 0x80_0000 + 0x60_0000);
  }

  lemma DecodedFits(code: nat)
    requires code <= TOP8
    ensures RoundFp32(Fp8Magnitude(code)) < INF32
  {
    Fp8Value(code);
    Fp8Value(TOP8);
    ValueMonotone(3, UNIT8, code, TOP8);
    LargestFinite();
    LargestAsFp32();
    RoundFp32Monotone(Fp8Magnitude(code), Shl(448, 149));
  }

  lemma DecodedExact(code: nat)
    requires code <= TOP8
    ensures Rounded(Fp8Magnitude(code)) == Fp8Magnitude(code)
  {
    var e, m := code / 8 % 16, code % 8;
    if e == 0 { ShortIsExact(m, 149 - 9); } else { ShortIsExact(8 + m, e - 7 - 3 + 149); }
  }

  /** `fp8_e4m3_bits_to_fp32`: the NaN codes of either sign give the NaN, the others the FP32 of their magnitude and sign. */
  function Fp8ToFp32(b: Bits8): Bits32
  {
    if b % 0x80 > TOP8 then 0x7FC0_0000
    else
      DecodedFits(b % 0x80);
      b / 0x80 * 0x8000_0000 + RoundFp32(Fp8Magnitude(b % 0x80))
  }

  lemma WordParts(s: nat, m: nat, x: nat)
    requires s < 2 && m < 0x8000_0000 && x == s * 0x8000_0000 + m
    ensures x < 0x1_0000_0000 && Sign32(x) == s && Magnitude32(x) == m
  {
  }

  /** Decoding is exact: the E4M3 value of the code, its sign, and NaN for nothing but the two NaN codes. */
  lemma {:induction false} Fp8DecodeExact(b: Bits8)
    ensures b % 0x80 == 0x7F <==> Magnitude32(Fp8ToFp32(b)) > INF32
    ensures b % 0x80 != 0x7F ==>
      Sign32(Fp8ToFp32(b)) == b / 0x80 && Value32(Fp8ToFp32(b)) == ValueOf(3, UNIT8, b % 0x80)
  {
    var s, code := b / 0x80, b % 0x80;
    if code <= TOP8 {
      DecodedFits(code);
      DecodedExact(code);
      Fp8Value(code);
      WordParts(s, RoundFp32(Fp8Magnitude(code)), Fp8ToFp32(b));
    } else {
      WordParts(0, 0x7FC0_0000, 0x7FC0_0000);
    }
  }

  /** What decoding and encoding again gives: every byte back that is not a NaN, and the one NaN for those that are. */
  lemma Fp8Returns(b: Bits8, r: Bits8)
    requires Encodes(Fp8ToFp32(b), r)
    ensures r == if b % 0x80 == 0x7F then 0x7F else b
  {
    Fp8DecodeExact(b);
    if b % 0x80 <= TOP8 {
      DecodedFits(b % 0x80);
      Fp8Value(b % 0x80);
      assert Magnitude32(Fp8ToFp32(b)) <= INF32;
      Fp8RoundTrip(b % 0x80, r % 0x80);
    }
  }
}

/**
 Binary floating-point magnitudes as integers. The code of a magnitude is its bit pattern without the
 sign bit. Values of different formats are counted in one common small unit, so every value and every
 distance is an exact integer and no float arithmetic is needed to say what "nearest" means.
 */
module FloatRounding {
  import opened Shifts

  /**
   The value of magnitude code `c` in a format with `p` explicit significand bits whose smallest subnormal
   is 2^u units. Subnormals and the first binade count up evenly; each later binade is the one before it, doubled.
   */
  function ValueOf(p: nat, u: nat, c: nat): nat
    decreases c
  {
    if c < 2 * Pow2(p) then Shl(c, u)
    else
      Pow2Positive(p);
      2 * ValueOf(p, u, c - Pow2(p))
  }

  /** The distance from code `c` to the next one. */
  function Gap(p: nat, u: nat, c: nat): nat
    decreases c
  {
    if c < 2 * Pow2(p) then Pow2(u)
    else
      Pow2Positive(p);
      2 * Gap(p, u, c - Pow2(p))
  }

  function Distance(x: int, y: int): nat
  {
    if x < y then y - x else x - y
  }

  /** IEEE 754-2019 section 4.3.1, over the codes 0..top: no other code is closer to `x`, and a tie goes to an even code. */
  ghost predicate NearestEven(p: nat, u: nat, top: nat, x: nat, code: nat)
  {
    && code <= top
    && forall k: nat | k <= top && k != code ::
         var d, d' := Distance(x, ValueOf(p, u, code)), Distance(x, ValueOf(p, u, k));
         d < d' || (d == d' && code % 2 == 0)
  }

  /** Value and gap from the exponent and fraction fields: the hidden bit is absent in subnormals. */
  lemma {:induction false} Fields(p: nat, u: nat, e: nat, m: nat, c: nat)
    requires m < Pow2(p) && c == Shl(e, p) + m
    ensures Gap(p, u, c) == if e == 0 then Pow2(u) else Pow2(e - 1 + u)
    ensures ValueOf(p, u, c) == if e == 0 then Shl(m, u) else Shl(Pow2(p) + m, e - 1 + u)
    decreases e
  {
    if e == 0 {
      ShlZero(p);
    } else {
      ShlAdd(e - 1, 1, p);
      if e > 1 {
        ShlMonotone(1, e - 1, p);
        Fields(p, u, e - 1, m, c - Pow2(p));
      } else {
        ShlZero(p);
      }
    }
  }

  lemma {:induction false} ValueStep(p: nat, u: nat, c: nat)
    ensures ValueOf(p, u, c + 1) == ValueOf(p, u, c) + Gap(p, u, c)
    decreases c
  {
    var n := Pow2(p);
    Pow2Positive(p);
    if c >= 2 * n {
      ValueStep(p, u, c - n);
    } else {
      ShlAdd(c, 1, u);
      if c + 1 == 2 * n {
        ShlAdd(n, n, u);
      }
    }
  }

  lemma {:induction false} GapPositive(p: nat, u: nat, c: nat)
    ensures Gap(p, u, c) > 0
    decreases c
  {
    Pow2Positive(p);
    if c >= 2 * Pow2(p) {
      GapPositive(p, u, c - Pow2(p));
    } else {
      Pow2Positive(u);
    }
  }

  lemma {:induction false} ValueMonotone(p: nat, u: nat, a: nat, b: nat)
    ensures a < b ==> ValueOf(p, u, a) < ValueOf(p, u, b)
    ensures a <= b ==> ValueOf(p, u, a) <= ValueOf(p, u, b)
    decreases b
  {
    if a < b {
      ValueStep(p, u, b - 1);
      GapPositive(p, u, b - 1);
      ValueMonotone(p, u, a, b - 1);
    }
  }

  /** The closer of two neighbouring codes given the distances to them, the even one on a tie. */
  function PickNearer(lo: nat, dl: int, dh: int): nat
  {
    if dl < dh then lo else if dh < dl then lo + 1 else if lo % 2 == 1 then lo + 1 else lo
  }

  /** Rounding inside the bracket [lo, lo + 1] is rounding among all codes. */
  lemma BracketNearest(p: nat, u: nat, top: nat, x: nat, lo: nat, code: nat)
    requires lo < top
    requires ValueOf(p, u, lo) <= x <= ValueOf(p, u, lo + 1)
    requires code == PickNearer(lo, x - ValueOf(p, u, lo), ValueOf(p, u, lo + 1) - x)
    ensures NearestEven(p, u, top, x, code)
  {
    forall k: nat
      ensures k < lo ==> ValueOf(p, u, k) < ValueOf(p, u, lo)
      ensures k > lo + 1 ==> ValueOf(p, u, lo + 1) < ValueOf(p, u, k)
    {
      ValueMonotone(p, u, k, lo);
      ValueMonotone(p, u, lo + 1, k);
    }
  }

  /** At or beyond the largest code, the largest code is nearest. */
  lemma {:induction false} TopNearest(p: nat, u: nat, top: nat, x: nat)
    requires ValueOf(p, u, top) <= x
    ensures NearestEven(p, u, top, x, top)
  {
    forall k: nat
      ensures k < top ==> ValueOf(p, u, k) < ValueOf(p, u, top)
    {
      ValueMonotone(p, u, k, top);
    }
  }

  /** A representable value is its own nearest value. */
  lemma {:induction false} ExactNearest(p: nat, u: nat, top: nat, c: nat)
    requires c <= top
    ensures NearestEven(p, u, top, ValueOf(p, u, c), c)
  {
    forall k: nat | k != c
      ensures ValueOf(p, u, k) != ValueOf(p, u, c)
    {
      ValueMonotone(p, u, k, c);
      ValueMonotone(p, u, c, k);
    }
  }

  /** Round-to-nearest-even is monotone; taking x == y, it has a single answer. */
  lemma NearestMonotone(p: nat, u: nat, top: nat, x: nat, y: nat, a: nat, b: nat)
    requires x <= y
    requires NearestEven(p, u, top, x, a) && NearestEven(p, u, top, y, b)
    ensures a <= b
  {
    if b < a {
      ValueMonotone(p, u, b, a);
      ValueMonotone(p, u, b, b + 1);
      ValueMonotone(p, u, b + 1, a);
    }
  }

  /** The shared idiom: add (half - 1 + low bit of the result), then shift right by `s`. */
  function RneShift(m: nat, s: nat): nat
    requires s >= 1
  {
    Pow2Positive(s - 1);
    Shr(m + (Pow2(s - 1) - 1 + Shr(m, s) % 2), s)
  }

  /** For every significand and every shift the idiom picks the nearer quotient, the even one on a tie. */
  lemma {:induction false} RneShiftPicks(q: nat, f: nat, s: nat, m: nat)
    requires s >= 1 && f < Pow2(s) && m == Shl(q, s) + f
    ensures RneShift(m, s) == PickNearer(q, f, Pow2(s) - f)
  {
    Pow2Positive(s - 1);
    ShrShl(q, f, s);
    var t := f + (Pow2(s - 1) - 1 + q % 2);
    if t < Pow2(s) {
      ShrShl(q, t, s);
    } else {
      ShlAdd(q, 1, s);
      ShrShl(q + 1, t - Pow2(s), s);
    }
  }

  lemma {:induction false} PickNearerScales(lo: nat, dl: nat, dh: nat, g: nat)
    ensures PickNearer(lo, Shl(dl, g), Shl(dh, g)) == PickNearer(lo, dl, dh)
  {
    ShlMonotone(dl, dh, g);
    ShlMonotone(dh, dl, g);
  }

  /** If `x` lies f / 2^s of the way from code `lo` to the next, the idiom on m == lo * 2^s + f rounds it correctly. */
  lemma ShiftNearest(p: nat, u: nat, top: nat, x: nat, lo: nat, f: nat, s: nat, g: nat, m: nat)
    requires s >= 1 && lo < top && f < Pow2(s) && m == Shl(lo, s) + f
    requires x == ValueOf(p, u, lo) + Shl(f, g)
    requires Gap(p, u, lo) == Pow2(s + g)
    ensures NearestEven(p, u, top, x, RneShift(m, s))
  {
    var d := Pow2(s) - f;
    ValueStep(p, u, lo);
    ShlTwice(1, s, g);
    ShlAdd(f, d, g);
    PickNearerScales(lo, f, d, g);
    RneShiftPicks(lo, f, s, m);
    BracketNearest(p, u, top, x, lo, RneShift(m, s));
  }
}

/** Left and right shifts of the naturals. Products and quotients by powers of two are written with them, which keeps the arithmetic linear. */
module Shifts {

  function Shl(x: nat, s: nat): nat
    decreases s, x
  {
    if s == 0 then x else 2 * Shl(x, s - 1)
  }

  function Shr(x: nat, s: nat): nat
    decreases s, x
  {
    if s == 0 then x else Shr(x / 2, s - 1)
  }

  function Pow2(s: nat): nat
  {
    Shl(1, s)
  }

  lemma {:induction false} ShlAdd(x: nat, y: nat, s: nat)
    ensures Shl(x + y, s) == Shl(x, s) + Shl(y, s)
  {
    if s > 0 { ShlAdd(x, y, s - 1); }
  }

  lemma {:induction false} ShlTwice(x: nat, a: nat, b: nat)
    ensures Shl(Shl(x, a), b) == Shl(x, a + b)
    decreases b
  {
    if b > 0 { ShlTwice(x, a, b - 1); }
  }

  lemma {:induction false} ShlMonotone(x: nat, y: nat, s: nat)
    ensures x < y ==> Shl(x, s) < Shl(y, s)
    ensures x <= y ==> Shl(x, s) <= Shl(y, s)
  {
    if s > 0 { ShlMonotone(x, y, s - 1); }
  }

  lemma {:induction false} ShlReflects(x: nat, y: nat, s: nat)
    requires Shl(x, s) <= Shl(y, s)
    ensures x <= y
  {
    ShlMonotone(y, x, s);
  }

  lemma {:induction false} ShlGrows(x: nat, a: nat, b: nat)
    requires a <= b
    ensures Shl(x, a) <= Shl(x, b)
    decreases b
  {
    if a < b { ShlGrows(x, a, b - 1); }
  }

  lemma {:induction false} ShlZero(s: nat)
    ensures Shl(0, s) == 0
  {
    if s > 0 { ShlZero(s - 1); }
  }

  lemma {:induction false} Pow2Positive(s: nat)
    ensures Pow2(s) >= 1
  {
    if s > 0 { Pow2Positive(s - 1); }
  }

  /** Shifting right undoes shifting left, low bits dropped. */
  lemma {:induction false} ShrShl(q: nat, f: nat, s: nat)
    requires f < Pow2(s)
    ensures Shr(Shl(q, s) + f, s) == q
    decreases s
  {
    if s > 0 {
      ShrShl(q, f / 2, s - 1);
      assert (Shl(q, s) + f) / 2 == Shl(q, s - 1) + f / 2;
    }
  }

  /** Every number is its right shift, shifted back, plus the bits that fell off. */
  lemma {:induction false} ShrSplit(x: nat, s: nat) returns (f: nat)
    ensures f < Pow2(s) && x == Shl(Shr(x, s), s) + f
    decreases s
  {
    if s == 0 {
      f := 0;
    } else {
      var f' := ShrSplit(x / 2, s - 1);
      f := 2 * f' + x % 2;
    }
  }

  lemma {:induction false} ShrBelow(x: nat, s: nat, k: nat)
    requires x < Shl(k, s)
    ensures Shr(x, s) < k
  {
    var f := ShrSplit(x, s);
    ShlMonotone(k, Shr(x, s), s);
  }

  // The field widths of the number formats.

  lemma {:induction false} Shl3(x: nat)
    ensures Shl(x, 3) == 8 * x
  {
    assert Shl(x, 1) == 2 * x && Shl(x, 2) == 4 * x;
  }

  lemma {:induction false} Shl7(x: nat)
    ensures Shl(x, 7) == 0x80 * x
  {
    Shl3(x);
    Shl3(8 * x);
    ShlTwice(x, 3, 3);
    assert Shl(x, 7) == 2 * Shl(x, 6);
  }

  lemma {:induction false} Shl10(x: nat)
    ensures Shl(x, 10) == 0x400 * x
  {
    Shl7(x);
    Shl3(0x80 * x);
    ShlTwice(x, 7, 3);
  }

  lemma {:induction false} Shl13(x: nat)
    ensures Shl(x, 13) == 0x2000 * x
  {
    Shl10(x);
    Shl3(0x400 * x);
    ShlTwice(x, 10, 3);
  }

  lemma {:induction false} Shl16(x: nat)
    ensures Shl(x, 16) == 0x1_0000 * x
  {
    Shl13(x);
    Shl3(0x2000 * x);
    ShlTwice(x, 13, 3);
  }

  lemma {:induction false} Shl23(x: nat)
    ensures Shl(x, 23) == 0x80_0000 * x
  {
    Shl16(x);
    Shl7(0x1_0000 * x);
    ShlTwice(x, 16, 7);
  }
}

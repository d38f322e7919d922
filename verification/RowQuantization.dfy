/** Per-row INT8 quantisation over the reals: FP32 rounding of the scale and the products is not modelled. */
module RowQuantization {

  function Abs(x: real): real { if x < 0.0 then -x else x }

  /** The largest magnitude of a row, as the running maximum finds it. */
  function MaxAbs(row: seq<real>): (m: real)
    ensures m >= 0.0
  {
    if row == [] then 0.0
    else
      var m, a := MaxAbs(row[..|row| - 1]), Abs(row[|row| - 1]);
      if a > m then a else m
  }

  /** `lrint`: the nearest integer, the even one of two. */
  function Rint(x: real): int
  {
    var f := x.Floor;
    var d := x - f as real;
    if d < 0.5 then f else if d > 0.5 then f + 1 else if f % 2 == 0 then f else f + 1
  }

  function Scale(amax: real): real { if amax > 0.0 then amax / 127.0 else 0.0 }

  function Inverse(scale: real): real { if scale > 0.0 then 1.0 / scale else 0.0 }

  function Clamp(q: int): int { if q < -127 then -127 else if q > 127 then 127 else q }

  /** An element times the inverse scale, before rounding. */
  function Scaled(v: real, inv: real): real { v * inv }

  /** The code of an element of a row whose largest magnitude is `amax`. */
  function Code(v: real, amax: real): int
  {
    Clamp(Rint(Scaled(v, Inverse(Scale(amax)))))
  }

  /** What a code stands for. */
  function Decoded(q: int, scale: real): real { q as real * scale }

  lemma {:induction false} MaxAbsBounds(row: seq<real>, c: nat)
    requires c < |row|
    ensures Abs(row[c]) <= MaxAbs(row)
  {
    if c < |row| - 1 { MaxAbsBounds(row[..|row| - 1], c); }
  }

  /** Some element attains the maximum, so every row but a zero one has an element of code plus or minus 127. */
  lemma {:induction false} MaxAbsAttained(row: seq<real>) returns (c: nat)
    requires row != []
    ensures c < |row| && Abs(row[c]) == MaxAbs(row)
  {
    var init := row[..|row| - 1];
    c := |row| - 1;
    if init == [] {
      assert MaxAbs(init) == 0.0;
    } else if Abs(row[c]) < MaxAbs(init) {
      c := MaxAbsAttained(init);
    } else if Abs(row[c]) == MaxAbs(init) {
    }
  }

  lemma RintNear(x: real)
    ensures Abs(x - Rint(x) as real) <= 0.5
  {
  }

  /** IEEE 754-2019 section 5.9: no other integer is nearer, and of two equally near ones it is the even one. */
  lemma RintNearestEven(x: real, m: int)
    requires m != Rint(x)
    ensures var d, e := Abs(x - Rint(x) as real), Abs(x - m as real); d < e || (d == e && Rint(x) % 2 == 0)
  {
    var f := x.Floor;
    if m <= f {
      assert x - m as real >= x - f as real;
    } else {
      assert m as real - x >= (f + 1) as real - x;
    }
  }

  lemma RintBounds(x: real, n: int)
    requires Abs(x) <= n as real
    ensures -n <= Rint(x) <= n
  {
    RintNear(x);
  }

  lemma RintExact(n: int)
    ensures Rint(n as real) == n
  {
  }

  // ---- Products of reals ----

  lemma ProductPositive(y: real, s: real)
    requires y > 0.0 && s > 0.0
    ensures y * s > 0.0
  {
  }

  lemma Distribute(a: real, b: real, s: real)
    ensures (a - b) * s == a * s - b * s
  {
  }

  lemma TimesOne(v: real, p: real)
    requires p == 1.0
    ensures v * p == v
  {
  }

  lemma OneOver(s: real)
    requires s > 0.0
    ensures 1.0 / s * s == 1.0
  {
  }

  /** Multiplying by the inverse of a positive scale is dividing by it. */
  lemma InverseDivides(v: real, s: real)
    requires s > 0.0
    ensures Scaled(v, Inverse(s)) * s == v
  {
    OneOver(s);
    TimesOne(v, 1.0 / s * s);
  }

  /** A positive factor preserves bounds on the magnitude, both ways. */
  lemma ScaledBound(x: real, s: real, bound: real)
    requires s > 0.0
    ensures Abs(x * s) <= bound * s <==> Abs(x) <= bound
  {
    Distribute(x, bound, s);
    Distribute(-x, bound, s);
    Distribute(0.0, x, s);
    if x > bound { ProductPositive(x - bound, s); }
    if x < bound { ProductPositive(bound - x, s); Distribute(bound, x, s); }
    if -x > bound { ProductPositive(-x - bound, s); }
    if -x < bound { ProductPositive(bound + x, s); Distribute(bound, -x, s); }
  }

  /** The quotient an element is rounded from, and that it lies within plus and minus 127. */
  lemma QuotientInRange(v: real, amax: real) returns (x: real, s: real)
    requires amax > 0.0 && Abs(v) <= amax
    ensures s == Scale(amax) && s > 0.0 && x == Scaled(v, Inverse(s)) && x * s == v && Abs(x) <= 127.0 && 127.0 * s == amax
  {
    s := Scale(amax);
    x := Scaled(v, Inverse(s));
    InverseDivides(v, s);
    ScaledBound(x, s, 127.0);
  }

  /** A zero row, whose inverse is zero. */
  lemma ZeroCode(v: real)
    ensures Rint(Scaled(v, Inverse(Scale(0.0)))) == 0 && Code(v, 0.0) == 0
  {
    RintExact(0);
  }

  /** No code is clamped. */
  lemma ClampNeverFires(v: real, amax: real)
    requires Abs(v) <= amax
    ensures var q := Rint(Scaled(v, Inverse(Scale(amax)))); -127 <= q <= 127 && Code(v, amax) == q
  {
    if amax > 0.0 {
      var x, s := QuotientInRange(v, amax);
      RintBounds(x, 127);
    } else {
      ZeroCode(v);
    }
  }

  /** Decoding is within half a scale of the original. */
  lemma ErrorBound(v: real, amax: real)
    requires Abs(v) <= amax
    ensures Abs(v - Decoded(Code(v, amax), Scale(amax))) <= Scale(amax) / 2.0
  {
    ClampNeverFires(v, amax);
    if amax > 0.0 {
      var x, s := QuotientInRange(v, amax);
      var q := Rint(x) as real;
      RintNear(x);
      ScaledBound(x - q, s, 0.5);
      Distribute(x, q, s);
    } else {
      ZeroCode(v);
    }
  }

  /** The largest magnitude gets the largest code, of its sign. */
  lemma MaxGets127(v: real, amax: real)
    requires amax > 0.0 && Abs(v) == amax
    ensures Code(v, amax) == if v > 0.0 then 127 else -127
  {
    var x, s := QuotientInRange(v, amax);
    var n := if v > 0.0 then 127 else -127;
    Distribute(x, n as real, s);
    ScaledBound(x - n as real, s, 0.0);
    RintExact(n);
  }

  /**
   A whole row: codes within 127, every element within half a scale of its decoding, and, unless the row is
   zero, some element at plus or minus 127; a zero row has scale and codes zero.
   */
  lemma RowQuantizes(row: seq<real>, c: nat) returns (m: nat)
    requires c < |row|
    ensures var amax := MaxAbs(row);
      && -127 <= Code(row[c], amax) <= 127
      && Abs(row[c] - Decoded(Code(row[c], amax), Scale(amax))) <= Scale(amax) / 2.0
      && (amax == 0.0 ==> Scale(amax) == 0.0 && Code(row[c], amax) == 0)
      && m < |row| && (amax > 0.0 ==> Code(row[m], amax) == 127 || Code(row[m], amax) == -127)
  {
    var amax := MaxAbs(row);
    MaxAbsBounds(row, c);
    ClampNeverFires(row[c], amax);
    ErrorBound(row[c], amax);
    m := MaxAbsAttained(row);
    if amax > 0.0 { MaxGets127(row[m], amax); } else { RintExact(0); }
  }

  // ---- The loops ----

  ghost function Row(w: array2<real>, r: nat): seq<real>
    requires r < w.Length0
    reads w
  {
    seq(w.Length1, c requires 0 <= c < w.Length1 reads w => w[r, c])
  }

  /** Row `r` of the output is the quantisation of row `r` of the input. */
  ghost predicate Quantized(w: array2<real>, q: array2<int>, scales: array<real>, r: nat)
    requires r < w.Length0 && q.Length0 == w.Length0 == scales.Length && q.Length1 == w.Length1
    reads w, q, scales
  {
    && scales[r] == Scale(MaxAbs(Row(w, r)))
    && forall c | 0 <= c < w.Length1 :: q[r, c] == Code(w[r, c], MaxAbs(Row(w, r)))
  }

  method RowMax(w: array2<real>, r: nat) returns (amax: real)
    requires r < w.Length0
    ensures amax == MaxAbs(Row(w, r))
  {
    amax := 0.0;
    for c := 0 to w.Length1
      invariant amax == MaxAbs(Row(w, r)[..c])
    {
      var a := Abs(w[r, c]);
      assert Row(w, r)[..c + 1][..c] == Row(w, r)[..c];
      if a > amax { amax := a; }
    }
    assert Row(w, r)[..w.Length1] == Row(w, r);
  }

  /** Only row `r` of `q` changes. */
  twostate predicate OtherRowsKept(q: array2<int>, r: nat)
    reads q
  {
    forall r', c | 0 <= r' < q.Length0 && r' != r && 0 <= c < q.Length1 :: q[r', c] == old(q[r', c])
  }

  /** The second pass over a row. */
  method EncodeRow(w: array2<real>, q: array2<int>, r: nat, amax: real)
    requires r < w.Length0 == q.Length0 && q.Length1 == w.Length1 && (q as object) != w
    modifies q
    ensures forall c | 0 <= c < w.Length1 :: q[r, c] == Code(w[r, c], amax)
    ensures OtherRowsKept(q, r)
  {
    var inv := Inverse(Scale(amax));
    for c := 0 to w.Length1
      invariant forall c' | 0 <= c' < c :: q[r, c'] == Code(w[r, c'], amax)
      invariant OtherRowsKept(q, r)
    {
      var x := Rint(Scaled(w[r, c], inv));
      if x < -127 { x := -127; }
      if x > 127 { x := 127; }
      q[r, c] := x;
    }
  }

  /** One row's task. */
  method QuantizeRow(w: array2<real>, q: array2<int>, scales: array<real>, r: nat)
    requires r < w.Length0 && q.Length0 == w.Length0 == scales.Length && q.Length1 == w.Length1
    requires (q as object) != w && (scales as object) != w
    modifies q, scales
    ensures Quantized(w, q, scales, r)
    ensures OtherRowsKept(q, r)
    ensures forall r' | 0 <= r' < w.Length0 && r' != r :: scales[r'] == old(scales[r'])
  {
    var amax := RowMax(w, r);
    scales[r] := Scale(amax);
    EncodeRow(w, q, r, amax);
  }

  /**
   `quantize_int8_per_row_host`, the rows being processed in any order that reaches each of them: the result
   is the same. Without columns every scale is zero.
   */
  method QuantizeRows(w: array2<real>, q: array2<int>, scales: array<real>, order: seq<nat>)
    requires q.Length0 == w.Length0 == scales.Length && q.Length1 == w.Length1
    requires (q as object) != w && (scales as object) != w
    requires (forall i | 0 <= i < |order| :: order[i] < w.Length0) && (forall r | 0 <= r < w.Length0 :: r in order)
    modifies q, scales
    ensures forall r | 0 <= r < w.Length0 :: Quantized(w, q, scales, r)
  {
    if w.Length0 == 0 || w.Length1 == 0 {
      for r := 0 to w.Length0
        invariant forall r' | 0 <= r' < r :: scales[r'] == 0.0
      {
        scales[r] := 0.0;
      }
      return;
    }
    for i := 0 to |order|
      invariant forall j | 0 <= j < i :: Quantized(w, q, scales, order[j])
    {
      QuantizeRow(w, q, scales, order[i]);
    }
    forall r | 0 <= r < w.Length0 ensures Quantized(w, q, scales, r) {
      assert r in order;
    }
  }
}

/** Output extents of convolutions and transposed convolutions, axis by axis. */
module ConvGeometry {
  import opened Arithmetic
  import opened MachineWords

  /** One axis of a convolution: kernel, stride, padding and dilation. */
  datatype Axis = Axis(k: int, s: int, p: int, d: int)

  predicate Valid(a: Axis) { a.k > 0 && a.s > 0 && a.p >= 0 && a.d > 0 }

  /** How far the window reaches past its first element. */
  function Reach(a: Axis): int { a.d * (a.k - 1) }

  /** The last offset at which the window still fits the padded input; negative if it never does. */
  function Span(a: Axis, n: int): int { n + 2 * a.p - Reach(a) - 1 }

  /** `convGeom2d` on one axis. */
  function ConvExtent(a: Axis, n: int): int
    requires Valid(a)
  {
    if Span(a, n) < 0 then 0 else Span(a, n) / a.s + 1
  }

  /** `convTGeom` on one axis before and after its clamp. */
  function RawExtent(a: Axis, n: int, op: int): int
  {
    (n - 1) * a.s - 2 * a.p + Reach(a) + op + 1
  }

  function TransposedExtent(a: Axis, n: int, op: int): int
  {
    if RawExtent(a, n, op) < 0 then 0 else RawExtent(a, n, op)
  }

  /** Where the `j`th element of the `i`th window lies in the padded input. */
  function Tap(a: Axis, i: int, j: int): int { i * a.s + j * a.d }

  /** All elements of the `i`th window lie in the padded input. */
  predicate WindowFits(a: Axis, n: int, i: nat)
  {
    forall j: nat | j < a.k :: Tap(a, i, j) < n + 2 * a.p
  }

  /** Its last element is the farthest. */
  lemma LastTap(a: Axis, n: int, i: nat)
    requires Valid(a)
    ensures WindowFits(a, n, i) <==> i * a.s + Reach(a) < n + 2 * a.p
  {
    assert Tap(a, i, a.k - 1) == i * a.s + Reach(a);
    forall j: nat | j < a.k ensures Tap(a, i, j) <= i * a.s + Reach(a) {
      TimesMonotone(j, a.k - 1, a.d);
    }
  }

  lemma Divides(x: int, s: int, q: int)
    requires s > 0 && q == x / s
    ensures q * s <= x < (q + 1) * s
  {
  }

  /** The extent counts the windows that fit: they are exactly those numbered below it. */
  lemma ExtentCountsWindows(a: Axis, n: int, i: nat)
    requires Valid(a)
    ensures i < ConvExtent(a, n) <==> WindowFits(a, n, i)
  {
    LastTap(a, n, i);
    var span := Span(a, n);
    var q := span / a.s;
    Divides(span, a.s, q);
    if i <= q { TimesMonotone(i, q, a.s); } else { TimesMonotone(q + 1, i, a.s); }
    TimesMonotone(0, i, a.s);
  }

  /** A quotient is the number whose multiple is the last one not past `x`. */
  lemma QuotientIs(x: int, s: int, q: int)
    requires s > 0
    ensures x / s == q <==> q * s <= x < q * s + s
  {
    var r := x / s;
    Divides(x, s, r);
    if r < q { TimesMonotone(r + 1, q, s); }
    if q < r { TimesMonotone(q + 1, r, s); }
  }

  /**
   Convolving the transposed extent gives the input extent back exactly when the output padding is below the
   stride and the padding does not reach past the whole input, which is when the clamp cuts off too much.
   */
  lemma RoundTripExact(a: Axis, n: int, op: int)
    requires Valid(a) && n >= 0 && op >= 0
    ensures ConvExtent(a, TransposedExtent(a, n, op)) == n <==> op < a.s && 2 * a.p - Reach(a) - 1 < n * a.s
  {
    var t := TransposedExtent(a, n, op);
    var span := Span(a, t);
    assert n * a.s == (n - 1) * a.s + a.s;
    if n == 0 {
      if span >= 0 { NonNegativeQuotient(span, a.s); }
    } else {
      TimesMonotone(0, n - 1, a.s);
      QuotientIs(span, a.s, n - 1);
    }
  }

  lemma NonNegativeQuotient(x: int, s: int)
    requires x >= 0 && s > 0
    ensures x / s >= 0
  {
    Divides(x, s, x / s);
    if x / s < 0 { TimesMonotone(x / s + 1, 0, s); }
  }

  /** So whenever the unclamped extent is not negative and the output padding is below the stride. */
  lemma RoundTrip(a: Axis, n: int, op: int)
    requires Valid(a) && n >= 0 && 0 <= op < a.s && RawExtent(a, n, op) >= 0
    ensures ConvExtent(a, TransposedExtent(a, n, op)) == n
  {
    RoundTripExact(a, n, op);
  }

  /**
   A transposed convolution spreads each input element over a window of the output, cropped by the padding at both ends:
   without output padding, the positions it writes are those up to the last element of the last window, that far cropped.
   */
  lemma TransposedReaches(a: Axis, n: int, x: nat)
    requires Valid(a) && n >= 1
    ensures x < TransposedExtent(a, n, 0) <==> x + 2 * a.p <= Tap(a, n - 1, a.k - 1)
    ensures forall i: nat, j: nat | i < n && j < a.k :: Tap(a, i, j) <= Tap(a, n - 1, a.k - 1)
  {
    assert Tap(a, n - 1, a.k - 1) == (n - 1) * a.s + Reach(a);
    forall i: nat, j: nat | i < n && j < a.k ensures Tap(a, i, j) <= Tap(a, n - 1, a.k - 1) {
      TimesMonotone(i, n - 1, a.s);
      TimesMonotone(j, a.k - 1, a.d);
    }
  }

  /** One more output padding is one more element where nothing is clamped. */
  lemma OutputPaddingExtends(a: Axis, n: int, op: int)
    requires Valid(a) && RawExtent(a, n, op) >= 0
    ensures TransposedExtent(a, n, op + 1) == TransposedExtent(a, n, op) + 1
  {
  }

  /** A clamped extent that does not come back: one element, padded by one, through a kernel of one. */
  lemma RoundTripFails()
    ensures ConvExtent(Axis(1, 1, 1, 1), TransposedExtent(Axis(1, 1, 1, 1), 1, 0)) == 2
  {
  }

  // ---- Machine arithmetic ----

  predicate InInt64(x: int) { -(INT64_MAX as int) - 1 <= x <= INT64_MAX }

  predicate Is32(a: Axis) { a.k <= INT_MAX && a.s <= INT_MAX && a.p <= INT_MAX && a.d <= INT_MAX }

  lemma ProductBound(x: int, y: int)
    requires 0 <= x < INT_MAX && 0 < y <= INT_MAX
    ensures 0 <= x * y <= (INT_MAX - 1) * INT_MAX
  {
    TimesMonotone(0, x, y);
    TimesMonotone(x, INT_MAX - 1, y);
  }

  /** Every intermediate value of both formulas fits in 64 bits for 32-bit arguments. */
  lemma NoOverflow(a: Axis, n: int, op: int)
    requires Valid(a) && Is32(a) && 0 <= n <= INT_MAX && 0 <= op <= INT_MAX
    ensures InInt64(Reach(a)) && InInt64(n + 2 * a.p) && InInt64(n + 2 * a.p - Reach(a)) && InInt64(Span(a, n))
    ensures InInt64(ConvExtent(a, n))
    ensures InInt64((n - 1) * a.s) && InInt64((n - 1) * a.s - 2 * a.p) && InInt64((n - 1) * a.s - 2 * a.p + Reach(a))
    ensures InInt64((n - 1) * a.s - 2 * a.p + Reach(a) + op) && InInt64(RawExtent(a, n, op))
  {
    ProductBound(a.k - 1, a.d);
    assert Reach(a) == (a.k - 1) * a.d;
    if n > 0 { ProductBound(n - 1, a.s); }
    if Span(a, n) >= 0 {
      Divides(Span(a, n), a.s, Span(a, n) / a.s);
      NonNegativeQuotient(Span(a, n), a.s);
      TimesMonotone(1, a.s, Span(a, n) / a.s + 1);
    }
  }

  // ---- The functions as they are ----

  /** The arguments both functions check, before anything is written. */
  predicate Accepts(cIn: int, cOut: int, h: int, w: int, y: Axis, x: Axis, groups: int)
  {
    && Valid(y) && Valid(x) && groups > 0 && cIn >= 0 && cOut >= 0 && h >= 0 && w >= 0
    && cIn % groups == 0 && cOut % groups == 0
  }

  method NeedPositive(vals: seq<int>) returns (ok: bool)
    ensures ok <==> forall i | 0 <= i < |vals| :: vals[i] > 0
  {
    for i := 0 to |vals|
      invariant forall j | 0 <= j < i :: vals[j] > 0
    {
      if vals[i] <= 0 { return false; }
    }
    return true;
  }

  method NeedNonNegative(vals: seq<int>) returns (ok: bool)
    ensures ok <==> forall i | 0 <= i < |vals| :: vals[i] >= 0
  {
    for i := 0 to |vals|
      invariant forall j | 0 <= j < i :: vals[j] >= 0
    {
      if vals[i] < 0 { return false; }
    }
    return true;
  }

  /** `convGeom2d`. */
  method ConvGeom2d(cIn: int, cOut: int, h: int, w: int, y: Axis, x: Axis, groups: int) returns (ok: bool, hOut: int, wOut: int)
    ensures ok == Accepts(cIn, cOut, h, w, y, x, groups)
    ensures ok ==> hOut == ConvExtent(y, h) && wOut == ConvExtent(x, w)
  {
    hOut, wOut := 0, 0;
    var pos := [y.k, x.k, y.s, x.s, y.d, x.d, groups];
    ok := NeedPositive(pos);
    assert ok ==> pos[0] > 0 && pos[1] > 0 && pos[2] > 0 && pos[3] > 0 && pos[4] > 0 && pos[5] > 0 && pos[6] > 0;
    if !ok { return; }
    var nonneg := [cIn, cOut, h, w, y.p, x.p];
    ok := NeedNonNegative(nonneg);
    assert ok ==> nonneg[0] >= 0 && nonneg[1] >= 0 && nonneg[2] >= 0 && nonneg[3] >= 0 && nonneg[4] >= 0 && nonneg[5] >= 0;
    if !ok { return; }
    if cIn % groups != 0 || cOut % groups != 0 { return false, 0, 0; }
    var spanH := h + 2 * y.p - y.d * (y.k - 1) - 1;
    var spanW := w + 2 * x.p - x.d * (x.k - 1) - 1;
    hOut := if spanH < 0 then 0 else spanH / y.s + 1;
    wOut := if spanW < 0 then 0 else spanW / x.s + 1;
  }

  /** `convTGeom`, which also takes an output padding for each axis. */
  method ConvTGeom(cIn: int, cOut: int, h: int, w: int, y: Axis, x: Axis, opH: int, opW: int, groups: int)
      returns (ok: bool, hOut: int, wOut: int)
    ensures ok == (Accepts(cIn, cOut, h, w, y, x, groups) && opH >= 0 && opW >= 0)
    ensures ok ==> hOut == TransposedExtent(y, h, opH) && wOut == TransposedExtent(x, w, opW)
  {
    hOut, wOut := 0, 0;
    var pos := [y.k, x.k, y.s, x.s, y.d, x.d, groups];
    ok := NeedPositive(pos);
    assert ok ==> pos[0] > 0 && pos[1] > 0 && pos[2] > 0 && pos[3] > 0 && pos[4] > 0 && pos[5] > 0 && pos[6] > 0;
    if !ok { return; }
    var nonneg := [cIn, cOut, h, w, y.p, x.p, opH, opW];
    ok := NeedNonNegative(nonneg);
    assert ok ==> nonneg[0] >= 0 && nonneg[1] >= 0 && nonneg[2] >= 0 && nonneg[3] >= 0;
    assert ok ==> nonneg[4] >= 0 && nonneg[5] >= 0 && nonneg[6] >= 0 && nonneg[7] >= 0;
    if !ok { return; }
    if cIn % groups != 0 || cOut % groups != 0 { return false, 0, 0; }
    hOut := (h - 1) * y.s - 2 * y.p + y.d * (y.k - 1) + opH + 1;
    wOut := (w - 1) * x.s - 2 * x.p + x.d * (x.k - 1) + opW + 1;
    if hOut < 0 { hOut := 0; }
    if wOut < 0 { wOut := 0; }
  }
}

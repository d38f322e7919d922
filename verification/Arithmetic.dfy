/** Products and powers that more than one format needs. */
module Arithmetic {

  function Power256(n: nat): (p: nat)
    ensures p > 0
  {
    if n == 0 then 1 else 0x100 * Power256(n - 1)
  }

  /** The element count of a shape, in unbounded arithmetic. */
  function Product(shape: seq<int>): int
  {
    if shape == [] then 1 else shape[0] * Product(shape[1..])
  }

  lemma Associate(n: int, d: int, p: int)
    ensures n * (d * p) == (n * d) * p
  {
  }

  lemma TimesMonotone(a: int, b: int, s: int)
    requires a <= b && s >= 0
    ensures a * s <= b * s
  {
  }

  lemma QuotientBounds(n: nat, d: nat, max: nat)
    requires d > 0
    ensures n <= max / d <==> n * d <= max
  {
    var q := max / d;
    assert q * d <= max < (q + 1) * d;
    if n <= q {
      assert n * d <= q * d;
    } else {
      assert (q + 1) * d <= n * d;
    }
  }
}

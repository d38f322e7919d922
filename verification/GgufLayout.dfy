/** Where the data of a GGUF file lies: alignment, tensor sizes and placement, in the reader's wrap-free arithmetic. */
module GgufLayout {
  import opened MachineWords
  import opened Results
  import opened GgufBytes
  import opened Gguf
  import opened Shifts
  import A = Arithmetic
  import D = Dtypes

  // ---- Alignment ----

  /** `align_up`: the complement of a mask is what is missing from all ones. None is the overflow exception. */
  function AlignUp(x: nat, a: nat): Option<nat>
  {
    if a <= 1 then Some(x)
    else if a > SIZE_MAX || x > SIZE_MAX - (a - 1) then None
    else Some(BitAnd(x + (a - 1), SIZE_MAX - (a - 1)))
  }

  /** The least multiple of 2^k at or after `x`. */
  function LeastMultiple(x: nat, k: nat): nat
  {
    Pow2Positive(k);
    Shl(Shr(x + (Pow2(k) - 1), k), k)
  }

  lemma {:induction false} ShlIsTimes(q: nat, k: nat)
    ensures Shl(q, k) == q * Pow2(k)
    decreases k
  {
    if k > 0 { ShlIsTimes(q, k - 1); }
  }

  /** It is a multiple, it is less than 2^k away, and no multiple at or after `x` comes before it. */
  lemma LeastMultipleIsLeast(x: nat, k: nat, q: nat)
    ensures var r := LeastMultiple(x, k);
      && x <= r < x + Pow2(k)
      && (exists p :: r == p * Pow2(k))
      && (x <= q * Pow2(k) ==> r <= q * Pow2(k))
  {
    Pow2Positive(k);
    var y := x + (Pow2(k) - 1);
    var p := Shr(y, k);
    var f := ShrSplit(y, k);
    ShlIsTimes(p, k);
    ShlIsTimes(q, k);
    if q < p {
      NextMultiple(q, p, k);
    } else {
      ShlMonotone(p, q, k);
    }
  }

  lemma {:induction false} NextMultiple(q: nat, p: nat, k: nat)
    requires q < p
    ensures Shl(q, k) + Pow2(k) <= Shl(p, k)
  {
    ShlAdd(q, 1, k);
    ShlMonotone(q + 1, p, k);
  }

  lemma {:induction false} BitAndSelf(x: nat)
    ensures BitAnd(x, x) == x
    decreases x
  {
    if x > 0 { BitAndSelf(x / 2); }
  }

  lemma {:induction false} PowerHasOneBit(k: nat)
    ensures Pow2(k) > 0 && BitAnd(Pow2(k), Pow2(k) - 1) == 0
    decreases k
  {
    if k > 0 {
      PowerHasOneBit(k - 1);
      assert Pow2(k) / 2 == Pow2(k - 1) && (Pow2(k) - 1) / 2 == Pow2(k - 1) - 1;
    }
  }

  lemma {:induction false} OneBitIsPower(x: nat) returns (k: nat)
    requires x > 0 && BitAnd(x, x - 1) == 0
    ensures x == Pow2(k)
    decreases x
  {
    k := 0;
    if x == 1 {
    } else if x % 2 == 0 {
      assert (x - 1) / 2 == x / 2 - 1;
      var j := OneBitIsPower(x / 2);
      k := j + 1;
    } else {
      assert (x - 1) / 2 == x / 2;
      BitAndSelf(x / 2);
    }
  }

  /** The reader's test for a power of two is exact. */
  lemma PowerOfTwoTest(x: nat)
    requires x > 0
    ensures BitAnd(x, x - 1) == 0 <==> exists k :: x == Pow2(k)
  {
    if BitAnd(x, x - 1) == 0 {
      var k := OneBitIsPower(x);
    }
    forall k | x == Pow2(k) ensures BitAnd(x, x - 1) == 0 {
      PowerHasOneBit(k);
    }
  }

  lemma {:induction false} FullMask(y: nat, w: nat)
    requires y < Pow2(w)
    ensures BitAnd(y, Pow2(w) - 1) == y
    decreases w
  {
    if w > 0 {
      Pow2Positive(w - 1);
      FullMask(y / 2, w - 1);
      assert (Pow2(w) - 1) / 2 == Pow2(w - 1) - 1;
    }
  }

  /** Masking off the low `k` of `w` bits. */
  lemma {:induction false} MaskClears(y: nat, k: nat, w: nat)
    requires k <= w && y < Pow2(w)
    ensures Pow2(k) <= Pow2(w)
    ensures BitAnd(y, Pow2(w) - Pow2(k)) == Shl(Shr(y, k), k)
    decreases k
  {
    ShlGrows(1, k, w);
    if k == 0 {
      FullMask(y, w);
    } else {
      MaskClears(y / 2, k - 1, w - 1);
      var m := Pow2(w - 1) - Pow2(k - 1);
      assert Pow2(w) - Pow2(k) == 2 * m;
      EvenMask(y, m);
    }
  }

  lemma {:induction false} EvenMask(y: nat, m: nat)
    ensures BitAnd(y, 2 * m) == 2 * BitAnd(y / 2, m)
  {
    if y == 0 || m == 0 {
    } else {
      assert 2 * m / 2 == m && 2 * m % 2 == 0;
    }
  }

  lemma SizeIsPower()
    ensures Pow2(64) == SIZE_MAX + 1
  {
    Shl16(1);
    Shl16(0x1_0000);
    Shl16(0x1_0000_0000);
    Shl16(0x1_0000_0000_0000);
    ShlTwice(1, 16, 16);
    ShlTwice(1, 32, 16);
    ShlTwice(1, 48, 16);
  }

  /** `align_up` gives the least multiple, and fails exactly when that does not fit a `size_t`. */
  lemma AlignUpIsLeast(x: nat, k: nat)
    requires k < 64 && x <= SIZE_MAX
    ensures AlignUp(x, Pow2(k)) == if LeastMultiple(x, k) <= SIZE_MAX then Some(LeastMultiple(x, k)) else None
  {
    Pow2Positive(k);
    SizeIsPower();
    ShlGrows(1, k, 63);
    if k == 0 {
    } else {
      ShlGrows(1, 1, k);
      assert Pow2(64) == 2 * Pow2(63) && Pow2(1) == 2;
      var y := x + (Pow2(k) - 1);
      if y <= SIZE_MAX {
        MaskClears(y, k, 64);
        var f := ShrSplit(y, k);
      } else {
        PastTheEnd(y, k);
      }
    }
  }

  /** 2^64 is itself a multiple, so rounding what passes it down stays at or past it. */
  lemma {:induction false} PastTheEnd(y: nat, k: nat)
    requires k <= 64 && y >= Pow2(64)
    ensures Shl(Shr(y, k), k) >= Pow2(64)
  {
    ShlTwice(1, 64 - k, k);
    var f := ShrSplit(y, k);
    if Shr(y, k) < Pow2(64 - k) {
      NextMultiple(Shr(y, k), Pow2(64 - k), k);
    } else {
      ShlMonotone(Pow2(64 - k), Shr(y, k), k);
    }
  }

  // ---- Tensor sizes ----

  datatype GgmlType = GgmlType(dtype: D.Dtype, supported: bool, blockSize: nat, typeSize: nat)

  function GgmlTypeInfo(t: nat): (g: GgmlType)
    ensures g.supported ==> g.blockSize > 0 && g.typeSize > 0
  {
    match t
    case 0 => GgmlType(D.FP32, true, 1, 4)
    case 1 => GgmlType(D.FP16, true, 1, 2)
    case 2 => GgmlType(D.Q4_0, true, 32, 18)
    case 3 => GgmlType(D.Q4_1, true, 32, 20)
    case 6 => GgmlType(D.Q5_0, true, 32, 22)
    case 7 => GgmlType(D.Q5_1, true, 32, 24)
    case 8 => GgmlType(D.Q8_0, true, 32, 34)
    case 9 => GgmlType(D.Q8_1, true, 32, 36)
    case 10 => GgmlType(D.Q2_K, true, 256, 82)
    case 11 => GgmlType(D.Q3_K, true, 256, 110)
    case 12 => GgmlType(D.Q4_K, true, 256, 144)
    case 13 => GgmlType(D.Q5_K, true, 256, 176)
    case 14 => GgmlType(D.Q6_K, true, 256, 210)
    case 15 => GgmlType(D.Q8_K, true, 256, 292)
    case 30 => GgmlType(D.BF16, true, 1, 2)
    case _ => GgmlType(D.FP32, false, 0, 0)
  }

  /** A 64-bit pattern as a signed number. */
  function ToInt64(u: nat): int
  {
    if u <= INT64_MAX then u else u - (SIZE_MAX + 1)
  }

  /** The element count of the dimensions times `n`, None where the reader throws. */
  function Numel(dims: seq<nat>, n: nat): Option<nat>
    requires n <= INT64_MAX
  {
    if dims == [] then Some(n)
    else
      var d := ToInt64(dims[0]);
      if d <= 0 || n > INT64_MAX / d then None
      else
        A.QuotientBounds(n, d, INT64_MAX);
        Numel(dims[1..], n * d)
  }

  /** Bytes of `numel` elements, 0 for a type the reader does not know; None where it throws. */
  function ByteSize(t: GgmlType, numel: nat): Option<nat>
  {
    if !t.supported || t.blockSize == 0 || t.typeSize == 0 then Some(0)
    else if t.blockSize > 1 && numel % t.blockSize != 0 then None
    else if numel / t.blockSize > SIZE_MAX / t.typeSize then None
    else Some(numel / t.blockSize * t.typeSize)
  }

  // ---- Placement ----

  datatype TensorInfo = TensorInfo(
    name: seq<byte>, shape: seq<nat>, ggmlType: nat, dtype: D.Dtype, supported: bool,
    data: nat, nbytes: nat, numel: nat)

  /** A listed tensor in a file of `size` bytes whose data starts at `blob`; None where the reader throws. */
  function Place(p: Pending, blob: nat, size: nat): Option<TensorInfo>
    requires blob <= size
  {
    var numel := Numel(p.dims, 1);
    if numel.None? then None
    else
      var t := GgmlTypeInfo(p.ggmlType);
      var nbytes := ByteSize(t, numel.value);
      if nbytes.None? then None
      else if p.offset > size || p.offset > size - blob then None
      else if nbytes.value > size - (blob + p.offset) then None
      else Some(TensorInfo(p.name, p.dims, p.ggmlType, t.dtype, t.supported, blob + p.offset, nbytes.value, numel.value))
  }

  function PlaceAll(ps: seq<Pending>, blob: nat, size: nat): Option<seq<TensorInfo>>
    requires blob <= size
  {
    if ps == [] then Some([])
    else
      var t := Place(ps[0], blob, size);
      if t.None? then None
      else
        var tail := PlaceAll(ps[1..], blob, size);
        if tail.None? then None else Some([t.value] + tail.value)
  }

  datatype File = File(version: nat, meta: Meta, tensors: seq<TensorInfo>, blob: nat)

  /** The layout of parsed contents that end at byte `pos` of a file of `size` bytes. */
  function Layout(c: Contents, pos: nat, size: nat): Option<File>
  {
    var blob := AlignUp(pos, c.meta.alignment);
    if blob.None? || blob.value > size then None
    else
      var ts := PlaceAll(c.pending, blob.value, size);
      if ts.None? then None else Some(File(c.version, c.meta, ts.value, blob.value))
  }

  /** The file parsed contents make, or None where the reader throws. */
  function Opened(c: Parse<Contents>, size: nat): Option<File>
  {
    if c.Fail? || |c.rest| > size then None else Layout(c.value, size - |c.rest|, size)
  }

  /** `File::open` on the file's bytes. */
  function Open(s: seq<byte>): Option<File>
  {
    Opened(ParseContents(s, true), |s|)
  }

  // ---- What placement means ----

  function Product(dims: seq<nat>): nat
  {
    if dims == [] then 1 else dims[0] * Product(dims[1..])
  }

  /** Every dimension is positive as a signed 64-bit number. */
  predicate AllPositive(dims: seq<nat>)
  {
    dims == [] || (1 <= dims[0] <= INT64_MAX && AllPositive(dims[1..]))
  }

  lemma {:induction false} ProductPositive(dims: seq<nat>)
    requires AllPositive(dims)
    ensures Product(dims) >= 1
  {
    if dims != [] {
      ProductPositive(dims[1..]);
      Grows(dims[0], Product(dims[1..]));
    }
  }

  lemma Grows(n: nat, p: nat)
    requires p >= 1
    ensures n * p >= n
  {
  }

  /** The running check accepts exactly the positive dimensions whose true product fits, and returns the product. */
  lemma {:induction false} NumelExact(dims: seq<nat>, n: nat)
    requires 1 <= n <= INT64_MAX && forall i | 0 <= i < |dims| :: dims[i] <= SIZE_MAX
    ensures Numel(dims, n)
      == if AllPositive(dims) && n * Product(dims) <= INT64_MAX then Some(n * Product(dims)) else None
    decreases |dims|
  {
    if dims != [] {
      var d := dims[0];
      if 1 <= d <= INT64_MAX {
        A.QuotientBounds(n, d, INT64_MAX);
        A.Associate(n, d, Product(dims[1..]));
        if n * d <= INT64_MAX {
          Grows(n, d);
          NumelExact(dims[1..], n * d);
        } else if AllPositive(dims[1..]) {
          ProductPositive(dims[1..]);
          Grows(n * d, Product(dims[1..]));
        }
      }
    }
  }
}

/** Element types of tensors and how many bytes they take. */
module Dtypes {
  import opened Arithmetic
  import opened MachineWords
  import opened Results

  datatype Dtype =
    | FP32 | FP16 | BF16 | INT8 | INT32 | F64 | FP8_E4M3
    | Q4_0 | Q4_1 | Q5_0 | Q5_1 | Q8_0 | Q8_1
    | Q2_K | Q3_K | Q4_K | Q5_K | Q6_K | Q8_K

  /** Bytes of one element; block-addressed types have none. */
  function SizeBytes(d: Dtype): nat
  {
    match d
    case FP32 => 4
    case FP16 => 2
    case BF16 => 2
    case INT8 => 1
    case FP8_E4M3 => 1
    case INT32 => 4
    case F64 => 8
    case _ => 0
  }

  predicate IsQuant(d: Dtype)
  {
    match d
    case FP32 => false
    case FP16 => false
    case BF16 => false
    case INT8 => false
    case FP8_E4M3 => false
    case INT32 => false
    case F64 => false
    case _ => true
  }

  function BlockSize(d: Dtype): (n: nat)
    ensures n > 0
  {
    match d
    case Q4_0 => 32
    case Q4_1 => 32
    case Q5_0 => 32
    case Q5_1 => 32
    case Q8_0 => 32
    case Q8_1 => 32
    case Q2_K => 256
    case Q3_K => 256
    case Q4_K => 256
    case Q5_K => 256
    case Q6_K => 256
    case Q8_K => 256
    case _ => 1
  }

  function BlockBytes(d: Dtype): nat
  {
    match d
    case Q4_0 => 18
    case Q4_1 => 20
    case Q5_0 => 22
    case Q5_1 => 24
    case Q8_0 => 34
    case Q8_1 => 36
    case Q2_K => 82
    case Q3_K => 110
    case Q4_K => 144
    case Q5_K => 176
    case Q6_K => 210
    case Q8_K => 292
    case _ => SizeBytes(d)
  }

  /** The bits each element is packed in, which the type's name says. */
  function PackedBits(d: Dtype): nat
  {
    match d
    case FP32 => 32
    case FP16 => 16
    case BF16 => 16
    case INT8 => 8
    case INT32 => 32
    case F64 => 64
    case FP8_E4M3 => 8
    case Q4_0 => 4
    case Q4_1 => 4
    case Q5_0 => 5
    case Q5_1 => 5
    case Q8_0 => 8
    case Q8_1 => 8
    case Q2_K => 2
    case Q3_K => 3
    case Q4_K => 4
    case Q5_K => 5
    case Q6_K => 6
    case Q8_K => 8
  }

  /** The bytes of a block's scales, minima and sums. */
  function ScaleBytes(d: Dtype): nat
  {
    match d
    case Q4_0 => 2
    case Q4_1 => 4
    case Q5_0 => 2
    case Q5_1 => 4
    case Q8_0 => 2
    case Q8_1 => 4
    case Q2_K => 18
    case Q3_K => 14
    case Q4_K => 16
    case Q5_K => 16
    case Q6_K => 18
    case Q8_K => 36
    case _ => 0
  }

  /** The size tables agree with the layouts: a block is its scales and its packed elements, one of them for plain types. */
  lemma BlocksPackElements(d: Dtype)
    ensures 8 * BlockBytes(d) == BlockSize(d) * PackedBits(d) + 8 * ScaleBytes(d)
    ensures BlockSize(d) == if d in {Q4_0, Q4_1, Q5_0, Q5_1, Q8_0, Q8_1} then 32
      else if d in {Q2_K, Q3_K, Q4_K, Q5_K, Q6_K, Q8_K} then 256 else 1
    ensures IsQuant(d) <==> BlockSize(d) > 1
    ensures SizeBytes(d) == if BlockSize(d) > 1 then 0 else PackedBits(d) / 8
  {
  }

  /** `dtype_storage_bytes`; a `size_t` product wraps, and None is the function's exception. */
  function StorageBytes(d: Dtype, numel: int): (n: Option<nat>)
    ensures n.Some? ==> n.value <= SIZE_MAX
  {
    if numel < 0 then None
    else if !IsQuant(d) then Some(numel * SizeBytes(d) % (SIZE_MAX + 1))
    else if numel % BlockSize(d) != 0 then None
    else Some(numel / BlockSize(d) * BlockBytes(d) % (SIZE_MAX + 1))
  }

  /** The true number of bytes of whole blocks holding `numel` elements. */
  function TrueBytes(d: Dtype, numel: nat): nat
  {
    numel / BlockSize(d) * BlockBytes(d)
  }

  /** Every type but F64 takes at most four bytes an element. */
  lemma TypeDensity(d: Dtype)
    ensures d != F64 ==> BlockBytes(d) <= 4 * BlockSize(d)
    ensures SizeBytes(d) <= 8 && (!IsQuant(d) ==> BlockSize(d) == 1 && BlockBytes(d) == SizeBytes(d))
  {
  }

  lemma QuotientTimes(n: nat, b: nat)
    requires b > 0
    ensures n / b * b <= n
  {
  }

  /** Blocks of at most four bytes an element take at most four bytes an element. */
  lemma DivTimes(n: nat, b: nat, c: nat)
    requires b > 0 && c <= 4 * b
    ensures n / b * c <= 4 * n
  {
    var q := n / b;
    TimesMonotone(c, 4 * b, q);
    assert q * (4 * b) == 4 * (q * b);
    QuotientTimes(n, b);
  }

  lemma SmallFits(d: Dtype, numel: nat)
    requires numel % BlockSize(d) == 0 && TrueBytes(d, numel) <= SIZE_MAX
    ensures StorageBytes(d, numel) == Some(TrueBytes(d, numel))
  {
    TypeDensity(d);
    if !IsQuant(d) { assert numel / 1 == numel; }
  }

  lemma ShapeFits(rows: nat, cols: nat)
    requires rows <= INT_MAX && cols <= INT_MAX
    ensures rows * cols < 0x4000_0000_0000_0000
  {
    assert rows * cols <= INT_MAX * cols;
    assert INT_MAX * cols <= INT_MAX * INT_MAX;
  }

  /**
   For every shape of two C++ ints and whole blocks, the size is the true byte count exactly when the type
   is not F64 or the element count is below 2^61; a larger F64 tensor gets a wrapped size.
   */
  lemma StorageBytesExact(d: Dtype, rows: nat, cols: nat, numel: nat)
    requires rows <= INT_MAX && cols <= INT_MAX && numel == rows * cols && numel % BlockSize(d) == 0
    ensures StorageBytes(d, numel) == Some(TrueBytes(d, numel)) <==> d != F64 || numel < 0x2000_0000_0000_0000
  {
    ShapeFits(rows, cols);
    TypeDensity(d);
    if d != F64 {
      DivTimes(numel, BlockSize(d), BlockBytes(d));
      SmallFits(d, numel);
    } else {
      assert numel / 1 == numel;
    }
  }

  /** Such a tensor: 2^31 - 1 rows of 2^30 + 1 doubles. */
  lemma StorageBytesWraps()
    ensures StorageBytes(F64, 0x7FFF_FFFF * 0x4000_0001) == Some(0x1_FFFF_FFF8)
    ensures TrueBytes(F64, 0x7FFF_FFFF * 0x4000_0001) == SIZE_MAX + 1 + 0x1_FFFF_FFF8
  {
  }
}

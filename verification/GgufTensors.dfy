/** Files whose tensors are given by element type: what code each type has in a file, and that opening gives the types back. */
module GgufTensors {
  import opened MachineWords
  import opened Results
  import opened GgufBytes
  import opened Gguf
  import opened GgufEncoding
  import opened GgufLayout
  import opened GgufOpen
  import opened Shifts
  import D = Dtypes

  // ---- Type codes ----

  /** The code a file has for a type; None for a type that files do not have. */
  function FileCode(d: D.Dtype): Option<nat>
  {
    match d
    case FP32 => Some(0)
    case FP16 => Some(1)
    case Q4_0 => Some(2)
    case Q4_1 => Some(3)
    case Q5_0 => Some(6)
    case Q5_1 => Some(7)
    case Q8_0 => Some(8)
    case Q8_1 => Some(9)
    case Q2_K => Some(10)
    case Q3_K => Some(11)
    case Q4_K => Some(12)
    case Q5_K => Some(13)
    case Q6_K => Some(14)
    case Q8_K => Some(15)
    case BF16 => Some(30)
    case INT8 => None
    case INT32 => None
    case F64 => None
    case FP8_E4M3 => None
  }

  /** The reader's table is the inverse of that one: a code is supported and names a type exactly when it is the type's code. */
  lemma CodesExact(t: nat, d: D.Dtype)
    ensures GgmlTypeInfo(t).supported && GgmlTypeInfo(t).dtype == d <==> FileCode(d) == Some(t)
  {
  }

  // ---- Typed tensors ----

  datatype Typed = Typed(name: seq<byte>, dims: seq<nat>, dtype: D.Dtype, offset: nat)

  predicate AllCoded(ts: seq<Typed>)
  {
    ts == [] || (FileCode(ts[0].dtype).Some? && AllCoded(ts[1..]))
  }

  function Listing(t: Typed): Pending
    requires FileCode(t.dtype).Some?
  {
    Pending(t.name, t.dims, FileCode(t.dtype).value, t.offset)
  }

  /** The tensor infos a file has for the tensors. */
  function Listings(ts: seq<Typed>): seq<Pending>
    requires AllCoded(ts)
  {
    if ts == [] then [] else [Listing(ts[0])] + Listings(ts[1..])
  }

  /** The tensor has a size and lies inside a file of `size` bytes whose data starts at `blob`. */
  predicate TypedFits(t: Typed, blob: nat, size: nat)
  {
    && AllPositive(t.dims) && Product(t.dims) <= INT64_MAX && Product(t.dims) % D.BlockSize(t.dtype) == 0
    && blob + t.offset + D.TrueBytes(t.dtype, Product(t.dims)) <= size
  }

  /** The tensor as an open file has it. */
  predicate IsOpened(t: Typed, blob: nat, i: TensorInfo)
  {
    && i.name == t.name && i.shape == t.dims && i.dtype == t.dtype && i.supported && FileCode(t.dtype) == Some(i.ggmlType)
    && i.data == blob + t.offset && i.numel == Product(t.dims) && i.nbytes == D.TrueBytes(t.dtype, Product(t.dims))
  }

  predicate AllTypedFit(ts: seq<Typed>, blob: nat, size: nat)
  {
    ts == [] || (TypedFits(ts[0], blob, size) && AllTypedFit(ts[1..], blob, size))
  }

  predicate AllOpened(ts: seq<Typed>, blob: nat, infos: seq<TensorInfo>)
  {
    if ts == [] || infos == [] then ts == [] && infos == []
    else IsOpened(ts[0], blob, infos[0]) && AllOpened(ts[1..], blob, infos[1..])
  }

  lemma TypedFitsSame(t: Typed, p: Pending, blob: nat, size: nat)
    requires FileCode(t.dtype).Some? && p == Listing(t)
    ensures Fits(p, blob, size) <==> TypedFits(t, blob, size)
    ensures IsOpened(t, blob, Placed(p, blob))
  {
    CodesExact(p.ggmlType, t.dtype);
  }

  lemma {:induction false} FitFirst(p: Pending, ps: seq<Pending>, blob: nat, size: nat)
    ensures AllFit([p] + ps, blob, size) <==> Fits(p, blob, size) && AllFit(ps, blob, size)
    ensures AllPlaced([p] + ps, blob) == [Placed(p, blob)] + AllPlaced(ps, blob)
  {
    assert ([p] + ps)[1..] == ps;
  }

  lemma {:induction false} OpenedFirst(t: Typed, ts: seq<Typed>, blob: nat, i: TensorInfo, infos: seq<TensorInfo>)
    requires IsOpened(t, blob, i) && AllOpened(ts, blob, infos)
    ensures AllOpened([t] + ts, blob, [i] + infos)
  {
    assert ([t] + ts)[1..] == ts && ([i] + infos)[1..] == infos;
  }

  lemma {:induction false} ListingsFit(ts: seq<Typed>, blob: nat, size: nat)
    requires AllCoded(ts)
    ensures AllFit(Listings(ts), blob, size) <==> AllTypedFit(ts, blob, size)
    ensures AllOpened(ts, blob, AllPlaced(Listings(ts), blob))
  {
    if ts != [] {
      var p, ps := Listing(ts[0]), Listings(ts[1..]);
      ListingsFit(ts[1..], blob, size);
      TypedFitsSame(ts[0], p, blob, size);
      FitFirst(p, ps, blob, size);
      OpenedFirst(ts[0], ts[1..], blob, Placed(p, blob), AllPlaced(ps, blob));
      assert ts == [ts[0]] + ts[1..];
    }
  }

  /** An open file with these tensors, the alignment being 2^k and the header `front` bytes long. */
  predicate OpensTyped(m: Option<Contents>, ts: seq<Typed>, front: nat, size: nat, f: Option<File>, k: nat)
  {
    if m.None? then f == None
    else
      var blob := LeastMultiple(front, k);
      && m.value.meta.alignment == Pow2(k)
      && (f.Some? <==> blob <= size && AllTypedFit(ts, blob, size))
      && (f.Some? ==>
           && f.value.version == m.value.version && f.value.meta == m.value.meta && f.value.blob == blob
           && AllOpened(ts, blob, f.value.tensors))
  }

  lemma {:induction false} MeantTyped(m: Option<Contents>, ts: seq<Typed>, front: nat, size: nat, f: Option<File>, k: nat)
    requires OpensAsMeant(m, front, size, f, k) && AllCoded(ts) && (m.Some? ==> m.value.pending == Listings(ts))
    ensures OpensTyped(m, ts, front, size, f, k)
  {
    ListingsFit(ts, LeastMultiple(front, k), size);
  }

  /**
   Opening a file encoded from tensors given by type: it opens exactly when it has a meaning and every tensor truly
   fits behind the aligned header, and each tensor then comes back with its type, its place and the bytes its type
   needs for its elements.
   */
  lemma OpenTyped(version: nat, entries: seq<Entry>, ts: seq<Typed>, f: Abstract, data: seq<byte>, s: seq<byte>) returns (k: nat)
    requires AllCoded(ts) && f == Abstract(version, entries, Listings(ts)) && ValidFile(f)
    requires s == FileThen(f, data) && |s| <= SIZE_MAX
    ensures s == FileThen(f, []) + data
    ensures OpensTyped(Meaning(f), ts, |FileThen(f, [])|, |s|, Open(s), k)
  {
    k := OpenEncoded(f, data, s);
    MeantTyped(Meaning(f), ts, |FileThen(f, [])|, |s|, Open(s), k);
  }
}

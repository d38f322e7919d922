/** Exactly when a GGUF file opens, where its tensors then lie, and that an encoded file comes back with its data. */
module GgufOpen {
  import opened MachineWords
  import opened Results
  import A = Arithmetic
  import opened GgufBytes
  import opened Gguf
  import opened GgufGuards
  import opened GgufEncoding
  import opened GgufLayout
  import opened Shifts
  import D = Dtypes

  // ---- Placement in true arithmetic ----

  lemma TypesAgree(t: nat)
    ensures var g := GgmlTypeInfo(t);
      if g.supported then g.blockSize == D.BlockSize(g.dtype) && g.typeSize == D.BlockBytes(g.dtype) && g.typeSize > 0
      else g.blockSize == 0 && g.typeSize == 0
  {
  }

  /** The bytes a tensor needs, in unbounded arithmetic. */
  function Needed(p: Pending): nat
  {
    var g := GgmlTypeInfo(p.ggmlType);
    if g.supported then D.TrueBytes(g.dtype, Product(p.dims)) else 0
  }

  predicate WholeBlocks(p: Pending)
  {
    var g := GgmlTypeInfo(p.ggmlType);
    g.supported ==> Product(p.dims) % D.BlockSize(g.dtype) == 0
  }

  /** The tensor is well-formed and lies inside the file, with no 64-bit arithmetic in sight. */
  predicate Fits(p: Pending, blob: nat, size: nat)
  {
    && AllPositive(p.dims) && Product(p.dims) <= INT64_MAX && WholeBlocks(p)
    && blob + p.offset + Needed(p) <= size
  }

  function Placed(p: Pending, blob: nat): TensorInfo
  {
    var g := GgmlTypeInfo(p.ggmlType);
    TensorInfo(p.name, p.dims, p.ggmlType, g.dtype, g.supported, blob + p.offset, Needed(p), Product(p.dims))
  }

  lemma ByteSizeExact(t: nat, numel: nat)
    ensures var g := GgmlTypeInfo(t);
      ByteSize(g, numel)
      == if !g.supported then Some(0)
         else if numel % D.BlockSize(g.dtype) == 0 && D.TrueBytes(g.dtype, numel) <= SIZE_MAX
           then Some(D.TrueBytes(g.dtype, numel))
           else None
  {
    TypesAgree(t);
    var g := GgmlTypeInfo(t);
    if g.supported {
      A.QuotientBounds(numel / g.blockSize, g.typeSize, SIZE_MAX);
      if g.blockSize == 1 { assert numel % 1 == 0; }
    }
  }

  predicate DimsInRange(p: Pending) { InRange(p.dims) }

  /** The reader's overflow-proof checks accept a tensor exactly when it truly fits, and record its true place. */
  lemma PlaceExact(p: Pending, blob: nat, size: nat)
    requires blob <= size <= SIZE_MAX && DimsInRange(p)
    ensures Place(p, blob, size) == if Fits(p, blob, size) then Some(Placed(p, blob)) else None
  {
    NumelExact(p.dims, 1);
    if AllPositive(p.dims) && Product(p.dims) <= INT64_MAX {
      ByteSizeExact(p.ggmlType, Product(p.dims));
    }
  }

  predicate AllInRange(ps: seq<Pending>) { ps == [] || (DimsInRange(ps[0]) && AllInRange(ps[1..])) }

  predicate AllFit(ps: seq<Pending>, blob: nat, size: nat)
  {
    ps == [] || (Fits(ps[0], blob, size) && AllFit(ps[1..], blob, size))
  }

  function AllPlaced(ps: seq<Pending>, blob: nat): seq<TensorInfo>
  {
    if ps == [] then [] else [Placed(ps[0], blob)] + AllPlaced(ps[1..], blob)
  }

  lemma {:induction false} PlaceAllExact(ps: seq<Pending>, blob: nat, size: nat)
    requires blob <= size <= SIZE_MAX && AllInRange(ps)
    ensures PlaceAll(ps, blob, size) == if AllFit(ps, blob, size) then Some(AllPlaced(ps, blob)) else None
    decreases |ps|
  {
    if ps != [] {
      PlaceExact(ps[0], blob, size);
      PlaceAllExact(ps[1..], blob, size);
    }
  }

  /**
   Uploading a placed tensor with any rows and columns of its element count finds the recorded size equal to
   the one the tensor computes for itself, so that check never fires.
   */
  lemma UploadSizeAgrees(p: Pending, blob: nat, size: nat, rows: nat, cols: nat)
    requires size <= SIZE_MAX && Fits(p, blob, size)
    requires GgmlTypeInfo(p.ggmlType).supported && rows * cols == Product(p.dims)
    ensures D.StorageBytes(Placed(p, blob).dtype, rows * cols) == Some(Placed(p, blob).nbytes)
  {
    D.SmallFits(GgmlTypeInfo(p.ggmlType).dtype, rows * cols);
  }

  // ---- What the parser guarantees ----

  lemma PowersOf256()
    ensures A.Power256(4) == 0x1_0000_0000 && A.Power256(8) == SIZE_MAX + 1
  {
    assert A.Power256(4) == 0x1_0000_0000;
    assert A.Power256(5) == 0x100_0000_0000;
    assert A.Power256(6) == 0x1_0000_0000_0000;
    assert A.Power256(7) == 0x100_0000_0000_0000;
  }

  lemma DimInRange(s: seq<byte>)
    ensures var d := ReadUint(s, 8); d.Ok? ==> d.value <= SIZE_MAX
  {
    UintBound(s, 8);
    PowersOf256();
  }

  predicate InRange(dims: seq<nat>) { forall i | 0 <= i < |dims| :: dims[i] <= SIZE_MAX }

  lemma InRangeMore(d: nat, dims: seq<nat>)
    requires d <= SIZE_MAX && InRange(dims)
    ensures InRange([d] + dims)
  {
  }

  lemma {:induction false} DimsParsedInRange(s: seq<byte>, n: nat)
    ensures var r := ParseDims(s, n); r.Ok? ==> InRange(r.value)
    decreases n
  {
    if n > 0 {
      DimInRange(s);
      var d := ReadUint(s, 8);
      if d.Ok? {
        DimsParsedInRange(d.rest, n - 1);
        var tail := ParseDims(d.rest, n - 1);
        if tail.Ok? { InRangeMore(d.value, tail.value); }
      }
    }
  }

  lemma PendingInRange(s: seq<byte>)
    ensures var r := ParsePending(s); r.Ok? ==> DimsInRange(r.value)
  {
    var name := ReadStr(s);
    if name.Ok? {
      var n := ReadUint(name.rest, 4);
      if n.Ok? { DimsParsedInRange(n.rest, n.value); }
    }
  }

  lemma {:induction false} AllPendingInRange(s: seq<byte>, n: nat)
    ensures var r := ParseAllPending(s, n); r.Ok? ==> AllInRange(r.value)
    decreases n
  {
    if n > 0 {
      PendingInRange(s);
      var p := ParsePending(s);
      if p.Ok? {
        AllPendingInRange(p.rest, n - 1);
        var tail := ParseAllPending(p.rest, n - 1);
        if tail.Ok? { assert ([p.value] + tail.value)[1..] == tail.value; }
      }
    }
  }

  /** The alignment is that of the last entry under its key, 32 if there is none. */
  function LastAlignment(es: seq<Entry>): nat
  {
    if es == [] then 32
    else
      var e := es[|es| - 1];
      if e.key == ALIGNMENT_KEY && e.value.Scalar? then e.value.bits else LastAlignment(es[..|es| - 1])
  }

  /** A power of two that fits a `uint32_t`. */
  predicate IsAlignment(a: nat)
  {
    0 < a < 0x1_0000_0000 && BitAnd(a, a - 1) == 0
  }

  /** An entry under the alignment's key is taken exactly when it holds a 32-bit unsigned power of two; others change nothing. */
  lemma RealignExact(e: Entry, a: nat)
    ensures if e.key != Ascii("general.alignment") then Realign(e, a) == Some(a)
      else if e.value.Scalar? && e.value.t == U32 && e.value.bits > 0 && exists k :: e.value.bits == Pow2(k)
        then Realign(e, a) == Some(e.value.bits)
        else Realign(e, a) == None
  {
    AlignmentKeyLetters();
    if e.value.Scalar? && e.value.bits > 0 { PowerOfTwoTest(e.value.bits); }
  }

  lemma {:induction false} ScalarBound(s: seq<byte>, t: ValueType, guarded: bool)
    ensures var v := ParseValue(s, t, 0, guarded);
      v.Ok? && v.value.Scalar? && v.value.t == U32 ==> v.value.bits < 0x1_0000_0000
  {
    UintBound(s, 4);
    PowersOf256();
  }

  predicate Aligned(m: Meta)
  {
    m.alignment == LastAlignment(m.entries) && IsAlignment(m.alignment)
  }

  lemma {:induction false} LastIsLast(es: seq<Entry>, e: Entry)
    ensures LastAlignment(es + [e]) == if e.key == ALIGNMENT_KEY && e.value.Scalar? then e.value.bits else LastAlignment(es)
  {
    assert (es + [e])[..|es|] == es;
  }

  lemma EntryAlignment(s: seq<byte>, m: Meta, guarded: bool)
    requires Aligned(m)
    ensures var r := ParseMetaEntry(s, m, guarded); r.Ok? ==> Aligned(r.value)
  {
    var key := ReadStr(s);
    if key.Ok? {
      var raw := ReadUint(key.rest, 4);
      if raw.Ok? && raw.value <= 12 {
        ScalarBound(raw.rest, TypeOf(raw.value), guarded);
        var e := ParseEntry(s, guarded);
        if e.Ok? { LastIsLast(m.entries, e.value); }
      }
    }
  }

  lemma MetaAlignment(s: seq<byte>, n: nat, m: Meta, guarded: bool)
    requires Aligned(m)
    ensures var r := ParseMeta(s, n, m, guarded); r.Ok? ==> Aligned(r.value)
  {
    forall s, a | Aligned(a) && MetaStep(guarded)(s, a).Ok? ensures Aligned(MetaStep(guarded)(s, a).value) {
      EntryAlignment(s, a, guarded);
    }
    LoopKeeps(MetaStep(guarded), Aligned, s, n, m);
  }

  /** What holds of any parsed contents of a file of `size` bytes. */
  predicate SoundContents(c: Parse<Contents>, size: nat)
  {
    c.Ok? ==> |c.rest| <= size && AllInRange(c.value.pending) && Aligned(c.value.meta)
  }

  lemma ContentsSound(s: seq<byte>, guarded: bool)
    ensures SoundContents(ParseContents(s, guarded), |s|)
  {
    var head := ParseHead(s);
    if |s| >= 24 && head.Ok? {
      var m := Meta([], DEFAULT_ALIGNMENT);
      PowerHasOneBit(5);
      MetaAlignment(head.rest, head.value.metaCount, m, guarded);
      var r := ParseMeta(head.rest, head.value.metaCount, m, guarded);
      if r.Ok? { AllPendingInRange(r.rest, head.value.tensorCount); }
    }
  }

  // ---- Opening ----

  lemma AlignmentExponent(a: nat) returns (k: nat)
    requires IsAlignment(a)
    ensures a == Pow2(k) && k < 64
  {
    k := OneBitIsPower(a);
    SizeIsPower();
    if k >= 64 { ShlGrows(1, 64, k); }
  }

  /** The layout of contents ending at `pos`, the alignment being 2^k. */
  function TrueLayout(c: Contents, pos: nat, size: nat, k: nat): Option<File>
  {
    var blob := LeastMultiple(pos, k);
    if blob <= size && AllFit(c.pending, blob, size) then Some(File(c.version, c.meta, AllPlaced(c.pending, blob), blob))
    else None
  }

  lemma LayoutExact(c: Contents, pos: nat, size: nat, k: nat)
    requires pos <= size <= SIZE_MAX && AllInRange(c.pending) && c.meta.alignment == Pow2(k) && k < 64
    ensures Layout(c, pos, size) == TrueLayout(c, pos, size, k)
  {
    AlignUpIsLeast(pos, k);
    var blob := LeastMultiple(pos, k);
    if blob <= size { PlaceAllExact(c.pending, blob, size); }
  }

  /** The file sound contents make, 2^k being their alignment. */
  predicate OpensTruly(c: Parse<Contents>, size: nat, f: Option<File>, k: nat)
  {
    if c.Fail? then f == None
    else
      && LastAlignment(c.value.meta.entries) == Pow2(k) == c.value.meta.alignment
      && |c.rest| <= size && f == TrueLayout(c.value, size - |c.rest|, size, k)
  }

  lemma OpenedExact(c: Parse<Contents>, size: nat) returns (k: nat)
    requires size <= SIZE_MAX && SoundContents(c, size)
    ensures OpensTruly(c, size, Opened(c, size), k)
  {
    k := 0;
    if c.Ok? {
      k := AlignmentExponent(c.value.meta.alignment);
      LayoutExact(c.value, size - |c.rest|, size, k);
    }
  }

  /**
   A file opens exactly when its header parses, the least multiple of its alignment at or after the header's
   end lies in it, and every tensor truly fits behind that. The tensors are then at their true places, which
   the file's last alignment entry decides.
   */
  lemma OpenExact(s: seq<byte>) returns (k: nat)
    requires |s| <= SIZE_MAX
    ensures OpensTruly(ParseContents(s, true), |s|, Open(s), k)
  {
    ContentsSound(s, true);
    k := OpenedExact(ParseContents(s, true), |s|);
  }

  /** Tensors of an open file start at or after the blob's start and end inside the file. */
  predicate Inside(ts: seq<TensorInfo>, blob: nat, size: nat)
  {
    forall i | 0 <= i < |ts| :: blob <= ts[i].data && ts[i].data + ts[i].nbytes <= size
  }

  lemma {:induction false} PlacedInside(ps: seq<Pending>, blob: nat, size: nat)
    requires AllFit(ps, blob, size)
    ensures Inside(AllPlaced(ps, blob), blob, size)
  {
    if ps != [] {
      PlacedInside(ps[1..], blob, size);
      var t, tail := Placed(ps[0], blob), AllPlaced(ps[1..], blob);
      forall i | 0 <= i < |[t] + tail|
        ensures blob <= ([t] + tail)[i].data && ([t] + tail)[i].data + ([t] + tail)[i].nbytes <= size
      {
        if i > 0 { assert ([t] + tail)[i] == tail[i - 1]; }
      }
    }
  }

  lemma OpenInside(s: seq<byte>, f: File)
    requires |s| <= SIZE_MAX && Open(s) == Some(f)
    ensures f.blob <= |s| && Inside(f.tensors, f.blob, |s|)
  {
    var c := ParseContents(s, true);
    var k := OpenExact(s);
    PlacedInside(c.value.pending, f.blob, |s|);
  }

  // ---- Encoded files ----

  lemma {:induction false} LeAppend(v: nat, n: nat, k: seq<byte>, t: seq<byte>)
    ensures LeThen(v, n, k) + t == LeThen(v, n, k + t)
    decreases n
  {
    if n > 0 {
      var tail := LeThen(v / 0x100, n - 1, k);
      LeAppend(v / 0x100, n - 1, k, t);
      assert [v % 0x100] + tail + t == [v % 0x100] + (tail + t);
    }
  }

  lemma StrAppend(str: seq<byte>, k: seq<byte>, t: seq<byte>)
    ensures StrThen(str, k) + t == StrThen(str, k + t)
  {
    LeAppend(|str|, 8, str + k, t);
    assert str + k + t == str + (k + t);
  }

  lemma {:induction false} ValueAppend(v: Value, k: seq<byte>, t: seq<byte>)
    ensures ValueThen(v, k) + t == ValueThen(v, k + t)
    decreases v
  {
    match v
    case Scalar(ty, bits) => LeAppend(bits, StoredBytes(ty), k, t);
    case Str(str) => StrAppend(str, k, t);
    case Arr(elem, items) =>
      LeAppend(Raw(elem), 4, LeThen(|items|, 8, ItemsThen(items, k)), t);
      LeAppend(|items|, 8, ItemsThen(items, k), t);
      ItemsAppend(items, k, t);
  }

  lemma {:induction false} ItemsAppend(vs: seq<Value>, k: seq<byte>, t: seq<byte>)
    ensures ItemsThen(vs, k) + t == ItemsThen(vs, k + t)
    decreases vs
  {
    if vs != [] {
      ItemsAppend(vs[1..], k, t);
      ValueAppend(vs[0], ItemsThen(vs[1..], k), t);
    }
  }

  lemma {:induction false} EntriesAppend(es: seq<Entry>, k: seq<byte>, t: seq<byte>)
    ensures EntriesThen(es, k) + t == EntriesThen(es, k + t)
    decreases |es|
  {
    if es != [] {
      var rest := EntriesThen(es[1..], k);
      var raw := Raw(TypeOfValue(es[0].value));
      EntriesAppend(es[1..], k, t);
      ValueAppend(es[0].value, rest, t);
      LeAppend(raw, 4, ValueThen(es[0].value, rest), t);
      StrAppend(es[0].key, LeThen(raw, 4, ValueThen(es[0].value, rest)), t);
    }
  }

  lemma {:induction false} DimsAppend(ds: seq<nat>, k: seq<byte>, t: seq<byte>)
    ensures DimsThen(ds, k) + t == DimsThen(ds, k + t)
    decreases |ds|
  {
    if ds != [] {
      DimsAppend(ds[1..], k, t);
      LeAppend(ds[0], 8, DimsThen(ds[1..], k), t);
    }
  }

  lemma PendingAppend(p: Pending, k: seq<byte>, t: seq<byte>)
    ensures PendingThen(p, k) + t == PendingThen(p, k + t)
  {
    var place := LeThen(p.ggmlType, 4, LeThen(p.offset, 8, k));
    LeAppend(p.offset, 8, k, t);
    LeAppend(p.ggmlType, 4, LeThen(p.offset, 8, k), t);
    DimsAppend(p.dims, place, t);
    LeAppend(|p.dims|, 4, DimsThen(p.dims, place), t);
    StrAppend(p.name, LeThen(|p.dims|, 4, DimsThen(p.dims, place)), t);
  }

  lemma {:induction false} AllPendingAppend(ps: seq<Pending>, k: seq<byte>, t: seq<byte>)
    ensures AllPendingThen(ps, k) + t == AllPendingThen(ps, k + t)
    decreases |ps|
  {
    if ps != [] {
      AllPendingAppend(ps[1..], k, t);
      PendingAppend(ps[0], AllPendingThen(ps[1..], k), t);
    }
  }

  /** An encoded file is its header, then what follows it. */
  lemma FileAppend(f: Abstract, k: seq<byte>)
    ensures FileThen(f, k) == FileThen(f, []) + k
  {
    var t := AllPendingThen(f.pending, []);
    var body := EntriesThen(f.entries, t);
    AllPendingAppend(f.pending, [], k);
    assert [] + k == k;
    EntriesAppend(f.entries, t, k);
    LeAppend(|f.entries|, 8, body, k);
    LeAppend(|f.pending|, 8, LeThen(|f.entries|, 8, body), k);
    LeAppend(f.version, 4, LeThen(|f.pending|, 8, LeThen(|f.entries|, 8, body)), k);
    LeAppend(MAGIC, 4, LeThen(f.version, 4, LeThen(|f.pending|, 8, LeThen(|f.entries|, 8, body))), k);
  }

  /** What opening makes of a file that means `m`, its header being `front` bytes long: nothing, or its true layout. */
  predicate OpensAsMeant(m: Option<Contents>, front: nat, size: nat, f: Option<File>, k: nat)
  {
    if m.None? then f == None
    else m.value.meta.alignment == Pow2(k) && f == TrueLayout(m.value, front, size, k)
  }

  lemma MeantOpens(c: Parse<Contents>, m: Option<Contents>, data: seq<byte>, front: nat, size: nat, f: Option<File>, k: nat)
    requires Yields(c, m, data) && OpensTruly(c, size, f, k) && size == front + |data|
    ensures OpensAsMeant(m, front, size, f, k)
  {
  }

  /**
   Opening an encoded file followed by any bytes recovers the version, the metadata and every tensor at its
   place, exactly when the file has a meaning and each tensor fits in those bytes.
   */
  lemma OpenEncoded(f: Abstract, data: seq<byte>, s: seq<byte>) returns (k: nat)
    requires ValidFile(f) && s == FileThen(f, data) && |s| <= SIZE_MAX
    ensures s == FileThen(f, []) + data
    ensures OpensAsMeant(Meaning(f), |FileThen(f, [])|, |s|, Open(s), k)
  {
    DecodesEncoding(f, data);
    FileAppend(f, data);
    k := OpenExact(s);
    MeantOpens(ParseContents(s, true), Meaning(f), data, |FileThen(f, [])|, |s|, Open(s), k);
  }

  /** The bytes of a tensor of an open encoded file are those the data holds for it. */
  lemma TensorBytes(f: Abstract, data: seq<byte>, s: seq<byte>, at: nat, n: nat)
    requires s == FileThen(f, []) + data && |FileThen(f, [])| <= at && at + n <= |s|
    ensures var rel := at - |FileThen(f, [])|; rel + n <= |data| && s[at..at + n] == data[rel..rel + n]
  {
    var front := |FileThen(f, [])|;
    assert s[front..] == data;
    assert s[front..][at - front..at - front + n] == s[at..at + n];
  }
}

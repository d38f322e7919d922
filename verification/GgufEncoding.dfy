/** A specification encoder for GGUF, and what the reader makes of its output. */
module GgufEncoding {
  import opened Results
  import opened Arithmetic
  import opened GgufBytes
  import opened Gguf
  import opened GgufGuards

  // ---- Abstract files ----

  function Raw(t: ValueType): (n: nat)
    ensures n <= 12 && TypeOf(n) == t
  {
    match t
    case U8 => 0
    case I8 => 1
    case U16 => 2
    case I16 => 3
    case U32 => 4
    case I32 => 5
    case F32 => 6
    case Bool => 7
    case String => 8
    case Array => 9
    case U64 => 10
    case I64 => 11
    case F64 => 12
  }

  function TypeOfValue(v: Value): ValueType
  {
    match v
    case Scalar(t, _) => t
    case Str(_) => String
    case Arr(_, _) => Array
  }

  /** The bytes a scalar of each type takes in a file. */
  function StoredBytes(t: ValueType): nat
  {
    match t
    case U8 => 1
    case I8 => 1
    case U16 => 2
    case I16 => 2
    case U32 => 4
    case I32 => 4
    case F32 => 4
    case Bool => 1
    case U64 => 8
    case I64 => 8
    case F64 => 8
    case String => 8
    case Array => 8
  }

  lemma StoredBytesRead(t: ValueType)
    ensures Width(t) == StoredBytes(t)
  {
  }

  /** Field ranges, and arrays of one element type. */
  predicate Valid(v: Value)
  {
    match v
    case Scalar(t, bits) => t != String && t != Array && bits < Power256(StoredBytes(t)) && (t == Bool ==> bits <= 1)
    case Str(str) => |str| < Power256(8)
    case Arr(elem, items) => |items| < Power256(8) && AllValid(items, elem)
  }

  predicate AllValid(vs: seq<Value>, t: ValueType)
  {
    vs == [] || (Valid(vs[0]) && TypeOfValue(vs[0]) == t && AllValid(vs[1..], t))
  }

  /** How deep the deepest value sits below `v`. */
  function Depth(v: Value): nat
  {
    match v
    case Arr(_, items) => if items == [] then 0 else 1 + ItemsDepth(items)
    case _ => 0
  }

  function ItemsDepth(vs: seq<Value>): nat
  {
    if vs == [] then 0
    else
      var a, b := Depth(vs[0]), ItemsDepth(vs[1..]);
      if a < b then b else a
  }

  /** Values at `depth` none of which sits deeper than the reader allows. */
  predicate ItemsFit(vs: seq<Value>, depth: nat)
  {
    vs == [] || ItemsDepth(vs) + depth <= 32
  }

  // ---- Encoding ----

  /** The bytes of a value, its type being stored before it, then `k`. */
  function ValueThen(v: Value, k: seq<byte>): seq<byte>
  {
    match v
    case Scalar(t, bits) => LeThen(bits, StoredBytes(t), k)
    case Str(str) => StrThen(str, k)
    case Arr(elem, items) => LeThen(Raw(elem), 4, LeThen(|items|, 8, ItemsThen(items, k)))
  }

  function ItemsThen(vs: seq<Value>, k: seq<byte>): seq<byte>
  {
    if vs == [] then k else ValueThen(vs[0], ItemsThen(vs[1..], k))
  }

  function EntryThen(e: Entry, k: seq<byte>): seq<byte>
  {
    StrThen(e.key, LeThen(Raw(TypeOfValue(e.value)), 4, ValueThen(e.value, k)))
  }

  function EntriesThen(es: seq<Entry>, k: seq<byte>): seq<byte>
  {
    if es == [] then k else EntryThen(es[0], EntriesThen(es[1..], k))
  }

  function DimsThen(ds: seq<nat>, k: seq<byte>): seq<byte>
  {
    if ds == [] then k else LeThen(ds[0], 8, DimsThen(ds[1..], k))
  }

  function PendingThen(p: Pending, k: seq<byte>): seq<byte>
  {
    StrThen(p.name, LeThen(|p.dims|, 4, DimsThen(p.dims, LeThen(p.ggmlType, 4, LeThen(p.offset, 8, k)))))
  }

  function AllPendingThen(ps: seq<Pending>, k: seq<byte>): seq<byte>
  {
    if ps == [] then k else PendingThen(ps[0], AllPendingThen(ps[1..], k))
  }

  /** A file as what it says: the bytes after the tensor infos are not its concern. */
  datatype Abstract = Abstract(version: nat, entries: seq<Entry>, pending: seq<Pending>)

  function FileThen(f: Abstract, k: seq<byte>): seq<byte>
  {
    LeThen(MAGIC, 4, LeThen(f.version, 4, LeThen(|f.pending|, 8, LeThen(|f.entries|, 8,
      EntriesThen(f.entries, AllPendingThen(f.pending, k))))))
  }

  predicate ValidEntry(e: Entry) { |e.key| < Power256(8) && Valid(e.value) }

  predicate ValidEntries(es: seq<Entry>) { es == [] || (ValidEntry(es[0]) && ValidEntries(es[1..])) }

  predicate ValidDims(ds: seq<nat>) { ds == [] || (ds[0] < Power256(8) && ValidDims(ds[1..])) }

  predicate ValidPending(p: Pending)
  {
    && |p.name| < Power256(8) && |p.dims| < Power256(4) && ValidDims(p.dims)
    && p.ggmlType < Power256(4) && p.offset < Power256(8)
  }

  predicate ValidAllPending(ps: seq<Pending>) { ps == [] || (ValidPending(ps[0]) && ValidAllPending(ps[1..])) }

  /** Every field fits the width it is stored in. */
  predicate ValidFile(f: Abstract)
  {
    && f.version < Power256(4) && |f.pending| < Power256(8) && |f.entries| < Power256(8)
    && ValidEntries(f.entries) && ValidAllPending(f.pending)
  }

  /** A file starts with the four letters. */
  lemma StartsWithLetters(f: Abstract, k: seq<byte>)
    ensures FileThen(f, k)[..4] == [0x47, 0x47, 0x55, 0x46]
  {
    var t := LeThen(f.version, 4, LeThen(|f.pending|, 8, LeThen(|f.entries|, 8, EntriesThen(f.entries, AllPendingThen(f.pending, k)))));
    MagicBytes(t);
  }

  lemma {:induction false} MagicBytes(t: seq<byte>)
    ensures LeThen(MAGIC, 4, t) == [0x47, 0x47, 0x55, 0x46] + t
  {
    assert LeThen(0, 0, t) == t;
    assert LeThen(0x46, 1, t) == [0x46] + t;
    assert LeThen(0x4655, 2, t) == [0x55] + ([0x46] + t);
    assert LeThen(0x46_5547, 3, t) == [0x47] + ([0x55] + ([0x46] + t));
  }

  /** The letters of a text as bytes. */
  function Ascii(s: string): seq<byte>
    requires forall i | 0 <= i < |s| :: s[i] as int < 0x80
  {
    seq(|s|, i requires 0 <= i < |s| => s[i] as int)
  }

  lemma AlignmentKeyLetters()
    ensures ALIGNMENT_KEY == Ascii("general.alignment")
  {
  }

  // ---- Meaning ----

  /** One entry added to the metadata, None where the reader throws: too deep, or an alignment that is not a power of two. */
  function CollectOne(e: Entry, m: Meta): Option<Meta>
  {
    var a := Realign(e, m.alignment);
    if Depth(e.value) > 32 || a.None? then None else Some(Meta(m.entries + [e], a.value))
  }

  function Collect(es: seq<Entry>, m: Meta): Option<Meta>
    decreases |es|
  {
    if es == [] then Some(m)
    else
      var m' := CollectOne(es[0], m);
      if m'.None? then None else Collect(es[1..], m'.value)
  }

  predicate DimCountsOk(ps: seq<Pending>)
  {
    ps == [] || (1 <= |ps[0].dims| <= 8 && DimCountsOk(ps[1..]))
  }

  function Meaning(f: Abstract): Option<Contents>
  {
    var m := Collect(f.entries, Meta([], 32));
    if (f.version != 2 && f.version != 3) || m.None? || !DimCountsOk(f.pending) then None
    else Some(Contents(f.version, m.value, f.pending))
  }

  // ---- Reading what was encoded ----

  predicate Yields<T(==)>(r: Parse<T>, v: Option<T>, k: seq<byte>)
  {
    if v.Some? then r == Ok(v.value, k) else r.Fail?
  }

  /** A value reads back exactly when nothing in it sits deeper than the limit. */
  lemma {:induction false} ValueReads(v: Value, k: seq<byte>, depth: nat)
    requires Valid(v) && depth <= MAX_DEPTH + 1
    ensures Yields(ParseValue(ValueThen(v, k), TypeOfValue(v), depth, false),
      if Depth(v) + depth <= 32 then Some(v) else None, k)
    decreases v
  {
    match v
    case Scalar(t, bits) =>
      StoredBytesRead(t);
      UintReads(bits, StoredBytes(t), k);
    case Str(str) => StrReads(str, k);
    case Arr(elem, items) =>
      HeadReads(elem, |items|, ItemsThen(items, k));
      if depth <= MAX_DEPTH { ItemsRead(items, k, elem, depth + 1); }
  }

  lemma {:induction false} HeadReads(elem: ValueType, n: nat, k: seq<byte>)
    requires n < Power256(8)
    ensures ParseArrayHead(LeThen(Raw(elem), 4, LeThen(n, 8, k)), false) == Ok((elem, n), k)
  {
    TypeRawFits(elem);
    UintReads(Raw(elem), 4, LeThen(n, 8, k));
    UintReads(n, 8, k);
  }

  lemma TypeRawFits(t: ValueType)
    ensures Raw(t) < Power256(4)
  {
    assert Power256(1) == 0x100 && Power256(2) == 0x1_0000;
    assert Power256(4) >= Power256(1);
  }

  lemma FitSplits(vs: seq<Value>, depth: nat)
    requires vs != []
    ensures ItemsFit(vs, depth) <==> Depth(vs[0]) + depth <= MAX_DEPTH && ItemsFit(vs[1..], depth)
  {
    var a, tail := Depth(vs[0]), vs[1..];
    var b := ItemsDepth(tail);
    assert ItemsDepth(vs) == if a < b then b else a;
    if tail == [] { assert b == 0; }
  }

  lemma {:induction false} ItemsRead(vs: seq<Value>, k: seq<byte>, t: ValueType, depth: nat)
    requires AllValid(vs, t) && depth <= MAX_DEPTH + 1
    ensures Yields(ParseItems(ItemsThen(vs, k), t, |vs|, depth, false), if ItemsFit(vs, depth) then Some(vs) else None, k)
    decreases vs
  {
    if vs != [] {
      var rest := ItemsThen(vs[1..], k);
      FitSplits(vs, depth);
      ValueReads(vs[0], rest, depth);
      ItemsRead(vs[1..], k, t, depth);
      assert ItemsThen(vs, k) == ValueThen(vs[0], rest);
      assert vs == [vs[0]] + vs[1..];
    }
  }

  lemma EntryReads(e: Entry, k: seq<byte>)
    requires ValidEntry(e)
    ensures Yields(ParseEntry(EntryThen(e, k), false), if Depth(e.value) <= MAX_DEPTH then Some(e) else None, k)
  {
    var t := Raw(TypeOfValue(e.value));
    TypeRawFits(TypeOfValue(e.value));
    StrReads(e.key, LeThen(t, 4, ValueThen(e.value, k)));
    UintReads(t, 4, ValueThen(e.value, k));
    ValueReads(e.value, k, 0);
  }

  lemma MetaEntryReads(e: Entry, k: seq<byte>, m: Meta)
    requires ValidEntry(e)
    ensures Yields(ParseMetaEntry(EntryThen(e, k), m, false), CollectOne(e, m), k)
  {
    EntryReads(e, k);
  }

  lemma ParseMetaStep(s: seq<byte>, n: nat, m: Meta, r: Parse<Meta>)
    requires n > 0 && r == ParseMetaEntry(s, m, false)
    ensures ParseMeta(s, n, m, false) == if r.Fail? then r else ParseMeta(r.rest, n - 1, r.value, false)
  {
  }

  lemma {:induction false} CollectStep(es: seq<Entry>, m: Meta, one: Option<Meta>)
    requires es != [] && one == CollectOne(es[0], m)
    ensures Collect(es, m) == if one.None? then None else Collect(es[1..], one.value)
  {
  }

  /** Reading `n` entries from `s` after those of `m` gives `r`, leaving `k`. */
  predicate MetaReads(s: seq<byte>, n: nat, m: Meta, r: Option<Meta>, k: seq<byte>)
  {
    Yields(ParseMeta(s, n, m, false), r, k)
  }

  /** One entry read, and the rest if it was taken. */
  lemma FirstEntryRead(es: seq<Entry>, k: seq<byte>, m: Meta, s: seq<byte>, t: seq<byte>, one: Option<Meta>, r: Option<Meta>)
    requires es != [] && ValidEntry(es[0]) && s == EntryThen(es[0], t) && one == CollectOne(es[0], m)
    requires if one.None? then r == None else MetaReads(t, |es| - 1, one.value, r, k)
    ensures MetaReads(s, |es|, m, r, k)
  {
    MetaEntryReads(es[0], t, m);
    ParseMetaStep(s, |es|, m, ParseMetaEntry(s, m, false));
  }

  lemma {:induction false} EntriesRead(es: seq<Entry>, k: seq<byte>, m: Meta)
    requires ValidEntries(es)
    ensures MetaReads(EntriesThen(es, k), |es|, m, Collect(es, m), k)
    decreases |es|
  {
    if es != [] {
      var one := CollectOne(es[0], m);
      CollectStep(es, m, one);
      if one.Some? { EntriesRead(es[1..], k, one.value); }
      FirstEntryRead(es, k, m, EntriesThen(es, k), EntriesThen(es[1..], k), one, Collect(es, m));
    }
  }

  lemma FirstDim(d: nat, k: seq<byte>, s: seq<byte>, n: nat)
    requires d < Power256(8) && s == LeThen(d, 8, k) && n > 0
    ensures ParseDims(s, n) == var tail := ParseDims(k, n - 1); if tail.Fail? then Fail(tail.message) else Ok([d] + tail.value, tail.rest)
  {
    UintReads(d, 8, k);
  }

  lemma {:induction false} DimsRead(ds: seq<nat>, k: seq<byte>)
    requires ValidDims(ds)
    ensures ParseDims(DimsThen(ds, k), |ds|) == Ok(ds, k)
    decreases |ds|
  {
    if ds != [] {
      FirstDim(ds[0], DimsThen(ds[1..], k), DimsThen(ds, k), |ds|);
      DimsRead(ds[1..], k);
      assert ds == [ds[0]] + ds[1..];
    }
  }

  lemma {:induction false} PlaceReads(p: Pending, k: seq<byte>)
    requires ValidPending(p)
    ensures ParsePlace(LeThen(p.ggmlType, 4, LeThen(p.offset, 8, k)), p.name, p.dims) == Ok(p, k)
  {
    UintReads(p.ggmlType, 4, LeThen(p.offset, 8, k));
    UintReads(p.offset, 8, k);
  }

  lemma PendingReads(p: Pending, k: seq<byte>)
    requires ValidPending(p)
    ensures Yields(ParsePending(PendingThen(p, k)), if 1 <= |p.dims| <= 8 then Some(p) else None, k)
  {
    var t := LeThen(p.ggmlType, 4, LeThen(p.offset, 8, k));
    StrReads(p.name, LeThen(|p.dims|, 4, DimsThen(p.dims, t)));
    UintReads(|p.dims|, 4, DimsThen(p.dims, t));
    DimsRead(p.dims, t);
    PlaceReads(p, k);
  }

  /** Reading `n` tensor infos from `s` gives `r`, leaving `k`. */
  predicate AllPendingReads(s: seq<byte>, n: nat, r: Option<seq<Pending>>, k: seq<byte>)
  {
    Yields(ParseAllPending(s, n), r, k)
  }

  /** The tensor infos the reader takes: all of them, if their dimension counts are acceptable. */
  function Listed(ps: seq<Pending>): Option<seq<Pending>>
  {
    if DimCountsOk(ps) then Some(ps) else None
  }

  lemma ListedStep(ps: seq<Pending>)
    requires ps != []
    ensures Listed(ps) == if 1 <= |ps[0].dims| <= 8 && Listed(ps[1..]).Some? then Some([ps[0]] + Listed(ps[1..]).value) else None
  {
    assert ps == [ps[0]] + ps[1..];
  }

  lemma FirstPending(p: Pending, t: seq<byte>, s: seq<byte>, n: nat, tail: Option<seq<Pending>>, k: seq<byte>, r: Option<seq<Pending>>)
    requires ValidPending(p) && s == PendingThen(p, t) && n > 0 && AllPendingReads(t, n - 1, tail, k)
    requires r == if 1 <= |p.dims| <= 8 && tail.Some? then Some([p] + tail.value) else None
    ensures AllPendingReads(s, n, r, k)
  {
    PendingReads(p, t);
  }

  lemma {:induction false} AllPendingRead(ps: seq<Pending>, k: seq<byte>)
    requires ValidAllPending(ps)
    ensures AllPendingReads(AllPendingThen(ps, k), |ps|, Listed(ps), k)
    decreases |ps|
  {
    if ps != [] {
      AllPendingRead(ps[1..], k);
      ListedStep(ps);
      FirstPending(ps[0], AllPendingThen(ps[1..], k), AllPendingThen(ps, k), |ps|, Listed(ps[1..]), k, Listed(ps));
    }
  }

  lemma {:induction false} FileHeadReads(version: nat, tensors: nat, metas: nat, k: seq<byte>)
    requires version < Power256(4) && tensors < Power256(8) && metas < Power256(8)
    ensures Yields(ParseHead(LeThen(MAGIC, 4, LeThen(version, 4, LeThen(tensors, 8, LeThen(metas, 8, k))))),
      if version == 2 || version == 3 then Some(Head(version, tensors, metas)) else None, k)
  {
    MagicFits();
    UintReads(MAGIC, 4, LeThen(version, 4, LeThen(tensors, 8, LeThen(metas, 8, k))));
    UintReads(version, 4, LeThen(tensors, 8, LeThen(metas, 8, k)));
    UintReads(tensors, 8, LeThen(metas, 8, k));
    UintReads(metas, 8, k);
  }

  lemma MagicFits()
    ensures MAGIC < Power256(4)
  {
    assert Power256(4) == 0x1_0000_0000;
  }

  /** Reading an encoded file, whatever follows, gives its contents, or throws exactly where it has no meaning. */
  lemma DecodesEncoding(f: Abstract, k: seq<byte>)
    requires ValidFile(f)
    ensures Yields(ParseContents(FileThen(f, k), true), Meaning(f), k)
  {
    var t := EntriesThen(f.entries, AllPendingThen(f.pending, k));
    FileHeadReads(f.version, |f.pending|, |f.entries|, t);
    EntriesRead(f.entries, AllPendingThen(f.pending, k), Meta([], DEFAULT_ALIGNMENT));
    AllPendingRead(f.pending, k);
    GuardsExact(FileThen(f, k));
  }
}

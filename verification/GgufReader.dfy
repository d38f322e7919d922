/** The GGUF reader as the classes it is: a cursor whose position every read moves, and a file that loops fill. */
module GgufReader {
  import opened MachineWords
  import opened Results
  import opened GgufBytes
  import opened Gguf
  import opened GgufLayout
  import A = Arithmetic
  import D = Dtypes

  /** The method's answer is the specification's, and the cursor stands where the specification's remaining bytes start. */
  ghost predicate Tracks<T>(r: Result<T>, spec: Parse<T>, rest: seq<byte>)
  {
    match r
    case Success(v) => spec == Ok(v, rest)
    case Failure(m) => spec == Fail(m)
  }

  /** Items read so far, put before what reading the rest gives. */
  function Prefixed<T>(acc: seq<T>, r: Parse<seq<T>>): Parse<seq<T>>
  {
    if r.Fail? then r else Ok(acc + r.value, r.rest)
  }

  lemma PrefixedStep<T>(acc: seq<T>, x: T, r: Parse<seq<T>>)
    ensures Prefixed(acc, Prefixed([x], r)) == Prefixed(acc + [x], r)
  {
    if r.Ok? { assert acc + ([x] + r.value) == acc + [x] + r.value; }
  }

  lemma PrefixedNone<T>(r: Parse<seq<T>>)
    ensures Prefixed([], r) == r
  {
    if r.Ok? { assert [] + r.value == r.value; }
  }

  class Reader {
    const base: seq<byte>
    var pos: nat

    constructor (base: seq<byte>)
      ensures this.base == base && pos == 0
    {
      this.base := base;
      pos := 0;
    }

    ghost predicate Valid()
      reads this
    {
      pos <= |base|
    }

    ghost function Rest(): seq<byte>
      reads this
      requires Valid()
    {
      base[pos..]
    }

    /** `need` and one of `read_u8` to `read_u64`. */
    method ReadLe(n: nat) returns (r: Result<nat>)
      requires Valid()
      modifies this`pos
      ensures Valid() && pos >= old(pos)
      ensures Tracks(r, ReadUint(old(Rest()), n), Rest())
    {
      if n > |base| - pos { return Failure("unexpected EOF"); }
      assert base[pos..][..n] == base[pos..pos + n] && base[pos..][n..] == base[pos + n..];
      var v := Le(base[pos..pos + n]);
      pos := pos + n;
      return Success(v);
    }

    method ReadString() returns (r: Result<seq<byte>>)
      requires Valid()
      modifies this`pos
      ensures Valid() && pos >= old(pos)
      ensures Tracks(r, ReadStr(old(Rest())), Rest())
    {
      var len := ReadLe(8);
      if len.Failure? { return Failure(len.message); }
      if len.value > |base| - pos { return Failure("unexpected EOF"); }
      assert base[pos..][..len.value] == base[pos..pos + len.value];
      assert base[pos..][len.value..] == base[pos + len.value..];
      var s := base[pos..pos + len.value];
      pos := pos + len.value;
      return Success(s);
    }

    method ReadScalar(t: ValueType) returns (r: Result<Value>)
      requires Valid() && t != Array
      modifies this`pos
      ensures Valid() && pos >= old(pos)
      ensures Tracks(r, ParseScalar(old(Rest()), t), Rest())
    {
      if t == String {
        var s := ReadString();
        if s.Failure? { return Failure(s.message); }
        return Success(Str(s.value));
      }
      var v := ReadLe(Width(t));
      if v.Failure? { return Failure(v.message); }
      if t == Bool && v.value > 1 { return Failure("bool value not 0 or 1"); }
      return Success(Scalar(t, v.value));
    }

    method ReadArrayHead() returns (r: Result<(ValueType, nat)>)
      requires Valid()
      modifies this`pos
      ensures Valid() && pos >= old(pos)
      ensures Tracks(r, ParseArrayHead(old(Rest()), true), Rest())
    {
      var raw := ReadLe(4);
      if raw.Failure? { return Failure(raw.message); }
      if raw.value > 12 { return Failure("array element type out of range"); }
      var len := ReadLe(8);
      if len.Failure? { return Failure(len.message); }
      if len.value > |base| - pos { return Failure("unexpected EOF"); }
      return Success((TypeOf(raw.value), len.value));
    }

    /** `parse_value`. */
    method ReadValue(t: ValueType, depth: nat) returns (r: Result<Value>)
      requires Valid() && depth <= MAX_DEPTH + 1
      modifies this`pos
      ensures Valid() && pos >= old(pos)
      ensures Tracks(r, ParseValue(old(Rest()), t, depth, true), Rest())
      decreases MAX_DEPTH + 1 - depth, 0
    {
      if depth > MAX_DEPTH { return Failure("nested array depth exceeds limit"); }
      if t != Array {
        r := ReadScalar(t);
        return;
      }
      var head := ReadArrayHead();
      if head.Failure? { return Failure(head.message); }
      var items := ReadItems(head.value.0, head.value.1, depth + 1);
      if items.Failure? { return Failure(items.message); }
      return Success(Arr(head.value.0, items.value));
    }

    /** The loop over an array's elements. */
    method ReadItems(t: ValueType, n: nat, depth: nat) returns (r: Result<seq<Value>>)
      requires Valid() && depth <= MAX_DEPTH + 1
      modifies this`pos
      ensures Valid() && pos >= old(pos)
      ensures Tracks(r, ParseItems(old(Rest()), t, n, depth, true), Rest())
      decreases MAX_DEPTH + 1 - depth, 1
    {
      var items: seq<Value> := [];
      ghost var whole := ParseItems(Rest(), t, n, depth, true);
      PrefixedNone(whole);
      for i := 0 to n
        invariant Valid() && pos >= old(pos) && ItemsLeft(items, Rest(), t, n - i, depth, whole)
      {
        ghost var s := Rest();
        var v := ReadValue(t, depth);
        ItemsStep(items, s, t, n - i, depth, whole, ParseValue(s, t, depth, true));
        if v.Failure? { return Failure(v.message); }
        items := items + [v.value];
      }
      ItemsDone(items, Rest(), t, depth, whole);
      return Success(items);
    }

    // ---- Metadata and tensor infos ----

    method ReadEntry() returns (r: Result<Entry>)
      requires Valid()
      modifies this`pos
      ensures Valid() && pos >= old(pos)
      ensures Tracks(r, ParseEntry(old(Rest()), true), Rest())
    {
      var key := ReadString();
      if key.Failure? { return Failure(key.message); }
      var raw := ReadLe(4);
      if raw.Failure? { return Failure(raw.message); }
      if raw.value > 12 { return Failure("metadata value type out of range"); }
      var v := ReadValue(TypeOf(raw.value), 0);
      if v.Failure? { return Failure(v.message); }
      return Success(Entry(key.value, v.value));
    }

    method ReadDims(n: nat) returns (r: Result<seq<nat>>)
      requires Valid()
      modifies this`pos
      ensures Valid() && pos >= old(pos)
      ensures Tracks(r, ParseDims(old(Rest()), n), Rest())
    {
      var dims: seq<nat> := [];
      PrefixedNone(ParseDims(Rest(), n));
      for i := 0 to n
        invariant Valid() && pos >= old(pos)
        invariant Prefixed(dims, ParseDims(Rest(), n - i)) == ParseDims(old(Rest()), n)
      {
        ghost var s := Rest();
        var d := ReadLe(8);
        if d.Failure? { return Failure(d.message); }
        DimsStep(s, n - i, d.value, Rest());
        PrefixedStep(dims, d.value, ParseDims(Rest(), n - i - 1));
        dims := dims + [d.value];
      }
      assert dims + [] == dims;
      return Success(dims);
    }

    method ReadPending() returns (r: Result<Pending>)
      requires Valid()
      modifies this`pos
      ensures Valid() && pos >= old(pos)
      ensures Tracks(r, ParsePending(old(Rest())), Rest())
    {
      var name := ReadString();
      if name.Failure? { return Failure(name.message); }
      var n := ReadLe(4);
      if n.Failure? { return Failure(n.message); }
      if n.value == 0 || n.value > 8 { return Failure("invalid tensor n_dims"); }
      var dims := ReadDims(n.value);
      if dims.Failure? { return Failure(dims.message); }
      var t := ReadLe(4);
      if t.Failure? { return Failure(t.message); }
      var off := ReadLe(8);
      if off.Failure? { return Failure(off.message); }
      return Success(Pending(name.value, dims.value, t.value, off.value));
    }

    method ReadAllPending(n: nat) returns (r: Result<seq<Pending>>)
      requires Valid()
      modifies this`pos
      ensures Valid() && pos >= old(pos)
      ensures Tracks(r, ParseAllPending(old(Rest()), n), Rest())
    {
      var pending: seq<Pending> := [];
      PrefixedNone(ParseAllPending(Rest(), n));
      for i := 0 to n
        invariant Valid() && pos >= old(pos)
        invariant Prefixed(pending, ParseAllPending(Rest(), n - i)) == ParseAllPending(old(Rest()), n)
      {
        ghost var s := Rest();
        var p := ReadPending();
        if p.Failure? { return Failure(p.message); }
        PendingStep(s, n - i, p.value, Rest());
        PrefixedStep(pending, p.value, ParseAllPending(Rest(), n - i - 1));
        pending := pending + [p.value];
      }
      assert pending + [] == pending;
      return Success(pending);
    }

    method ReadHead() returns (r: Result<Head>)
      requires Valid()
      modifies this`pos
      ensures Valid() && pos >= old(pos)
      ensures Tracks(r, ParseHead(old(Rest())), Rest())
    {
      var magic := ReadLe(4);
      if magic.Failure? { return Failure(magic.message); }
      if magic.value != MAGIC { return Failure("bad magic (not a GGUF file)"); }
      var version := ReadLe(4);
      if version.Failure? { return Failure(version.message); }
      if version.value != 2 && version.value != 3 { return Failure("unsupported GGUF version"); }
      var tensors := ReadLe(8);
      if tensors.Failure? { return Failure(tensors.message); }
      var metas := ReadLe(8);
      if metas.Failure? { return Failure(metas.message); }
      return Success(Head(version.value, tensors.value, metas.value));
    }
  }

  /** The elements read so far and those still to come make `whole`. */
  ghost predicate ItemsLeft(items: seq<Value>, s: seq<byte>, t: ValueType, n: nat, depth: nat, whole: Parse<seq<Value>>)
  {
    depth <= MAX_DEPTH + 1 && Prefixed(items, ParseItems(s, t, n, depth, true)) == whole
  }

  lemma {:induction false} ItemsStep(items: seq<Value>, s: seq<byte>, t: ValueType, n: nat, depth: nat,
      whole: Parse<seq<Value>>, v: Parse<Value>)
    requires n > 0 && ItemsLeft(items, s, t, n, depth, whole) && v == ParseValue(s, t, depth, true)
    ensures match v
      case Fail(m) => whole == Fail(m)
      case Ok(x, rest) => ItemsLeft(items + [x], rest, t, n - 1, depth, whole)
  {
    if v.Ok? {
      var tail := ParseItems(v.rest, t, n - 1, depth, true);
      assert ParseItems(s, t, n, depth, true) == Prefixed([v.value], tail);
      PrefixedStep(items, v.value, tail);
    }
  }

  lemma ItemsDone(items: seq<Value>, s: seq<byte>, t: ValueType, depth: nat, whole: Parse<seq<Value>>)
    requires ItemsLeft(items, s, t, 0, depth, whole)
    ensures whole == Ok(items, s)
  {
    assert items + [] == items;
  }

  lemma DimsStep(s: seq<byte>, n: nat, d: nat, rest: seq<byte>)
    requires n > 0 && ReadUint(s, 8) == Ok(d, rest)
    ensures ParseDims(s, n) == Prefixed([d], ParseDims(rest, n - 1))
  {
  }

  lemma PendingStep(s: seq<byte>, n: nat, p: Pending, rest: seq<byte>)
    requires n > 0 && ParsePending(s) == Ok(p, rest)
    ensures ParseAllPending(s, n) == Prefixed([p], ParseAllPending(rest, n - 1))
  {
  }

  // ---- File ----

  /** A name index as `emplace` fills it: every name of the list, led to its first place there. */
  ghost predicate FirstIndex(names: seq<seq<byte>>, index: map<seq<byte>, nat>)
  {
    && (forall i | 0 <= i < |names| :: names[i] in index && index[names[i]] <= i)
    && (forall name | name in index :: index[name] < |names| && names[index[name]] == name)
  }

  lemma IndexGrows(names: seq<seq<byte>>, index: map<seq<byte>, nat>, name: seq<byte>)
    requires FirstIndex(names, index)
    ensures FirstIndex(names + [name], if name in index then index else index[name := |names|])
  {
  }

  function Keys(es: seq<Entry>): (ks: seq<seq<byte>>)
    ensures |ks| == |es| && forall i | 0 <= i < |es| :: ks[i] == es[i].key
  {
    seq(|es|, i requires 0 <= i < |es| => es[i].key)
  }

  function TensorNames(ts: seq<TensorInfo>): (ks: seq<seq<byte>>)
    ensures |ks| == |ts| && forall i | 0 <= i < |ts| :: ks[i] == ts[i].name
  {
    seq(|ts|, i requires 0 <= i < |ts| => ts[i].name)
  }

  lemma KeysGrow(es: seq<Entry>, e: Entry)
    ensures Keys(es + [e]) == Keys(es) + [e.key]
  {
  }

  lemma NamesGrow(ts: seq<TensorInfo>, t: TensorInfo)
    ensures TensorNames(ts + [t]) == TensorNames(ts) + [t.name]
  {
  }

  /** The element count of a listed tensor, looping over its dimensions. */
  method CountElements(dims: seq<nat>) returns (r: Result<nat>)
    ensures match Numel(dims, 1) case Some(n) => r == Success(n) case None => r.Failure?
  {
    var numel: nat := 1;
    for i := 0 to |dims|
      invariant numel <= INT64_MAX && Numel(dims[i..], numel) == Numel(dims, 1)
    {
      assert dims[i..][1..] == dims[i + 1..];
      var d := ToInt64(dims[i]);
      if d <= 0 { return Failure("tensor has non-positive dim"); }
      A.QuotientBounds(numel, d, INT64_MAX);
      if numel > INT64_MAX / d { return Failure("tensor numel overflows int64"); }
      numel := numel * d;
    }
    return Success(numel);
  }

  /** The byte size of that many elements, 0 for a type the reader does not know. */
  method CountBytes(gt: GgmlType, numel: nat) returns (r: Result<nat>)
    requires gt.supported ==> gt.blockSize > 0 && gt.typeSize > 0
    ensures match ByteSize(gt, numel) case Some(n) => r == Success(n) case None => r.Failure?
  {
    var nbytes := 0;
    if gt.supported {
      if gt.blockSize > 1 && numel % gt.blockSize != 0 { return Failure("tensor numel not multiple of block size"); }
      var blocks := numel / gt.blockSize;
      if blocks > SIZE_MAX / gt.typeSize { return Failure("tensor byte size overflows size_t"); }
      nbytes := blocks * gt.typeSize;
    }
    return Success(nbytes);
  }

  class GgufFile {
    var version: nat
    var alignment: nat
    var metadata: seq<Entry>
    var metaIndex: map<seq<byte>, nat>
    var tensors: seq<TensorInfo>
    var tensorIndex: map<seq<byte>, nat>

    constructor ()
      ensures Valid() && metadata == [] && tensors == [] && alignment == DEFAULT_ALIGNMENT
    {
      version, alignment := 0, DEFAULT_ALIGNMENT;
      metadata, metaIndex := [], map[];
      tensors, tensorIndex := [], map[];
    }

    ghost predicate Valid()
      reads this
    {
      FirstIndex(Keys(metadata), metaIndex) && FirstIndex(TensorNames(tensors), tensorIndex)
    }

    ghost function CollectedMeta(): Meta
      reads this
    {
      Meta(metadata, alignment)
    }

    /** The call succeeded exactly when the specification has a file, and the fields are then that file's. */
    ghost predicate Answers(spec: Option<File>, ok: bool)
      reads this
    {
      match spec
      case Some(f) => ok && f.version == version && f.meta == CollectedMeta() && f.tensors == tensors
      case None => !ok
    }

    /** An entry under the alignment's key sets the alignment, if it is a positive 32-bit power of two. */
    method TakeAlignment(e: Entry) returns (ok: bool)
      modifies this`alignment
      ensures match Realign(e, old(alignment))
        case Some(a) => ok && alignment == a
        case None => !ok
    {
      if e.key == ALIGNMENT_KEY {
        if !(e.value.Scalar? && e.value.t == U32) { return false; }
        if e.value.bits == 0 || BitAnd(e.value.bits, e.value.bits - 1) != 0 { return false; }
        alignment := e.value.bits;
      }
      return true;
    }

    /** One round of the metadata loop. */
    method AddMeta(r: Reader) returns (res: Result<()>)
      requires Valid() && r.Valid()
      modifies this`alignment, this`metadata, this`metaIndex, r`pos
      ensures Valid() && r.Valid() && r.pos >= old(r.pos)
      ensures var spec := ParseMetaEntry(old(r.Rest()), old(CollectedMeta()), true);
        if res.Success? then spec == Ok(CollectedMeta(), r.Rest()) else spec == Fail(res.message)
    {
      var e := r.ReadEntry();
      if e.Failure? { return Failure(e.message); }
      var taken := TakeAlignment(e.value);
      if !taken { return Failure("general.alignment must be a positive power of two"); }
      IndexGrows(Keys(metadata), metaIndex, e.value.key);
      KeysGrow(metadata, e.value);
      if e.value.key !in metaIndex { metaIndex := metaIndex[e.value.key := |metadata|]; }
      metadata := metadata + [e.value];
      return Success(());
    }

    method ReadMeta(r: Reader, n: nat) returns (res: Result<()>)
      requires Valid() && r.Valid()
      modifies this`alignment, this`metadata, this`metaIndex, r`pos
      ensures Valid() && r.Valid() && r.pos >= old(r.pos)
      ensures var spec := ParseMeta(old(r.Rest()), n, old(CollectedMeta()), true);
        if res.Success? then spec == Ok(CollectedMeta(), r.Rest()) else spec == Fail(res.message)
    {
      for i := 0 to n
        invariant Valid() && r.Valid() && r.pos >= old(r.pos)
        invariant Loop(MetaStep(true), r.Rest(), n - i, CollectedMeta()) == ParseMeta(old(r.Rest()), n, old(CollectedMeta()), true)
      {
        ghost var s, m := r.Rest(), CollectedMeta();
        var one := AddMeta(r);
        assert MetaStep(true)(s, m) == ParseMetaEntry(s, m, true);
        if one.Failure? { return Failure(one.message); }
      }
      return Success(());
    }

    /** One round of the placement loop. */
    method AddTensor(p: Pending, blob: nat, size: nat) returns (res: Result<()>)
      requires Valid() && blob <= size
      modifies this`tensors, this`tensorIndex
      ensures Valid()
      ensures match Place(p, blob, size)
        case Some(t) => res.Success? && tensors == old(tensors) + [t]
        case None => res.Failure?
    {
      var numel := CountElements(p.dims);
      if numel.Failure? { return Failure(numel.message); }
      var gt := GgmlTypeInfo(p.ggmlType);
      var nbytes := CountBytes(gt, numel.value);
      if nbytes.Failure? { return Failure(nbytes.message); }
      if p.offset > size || p.offset > size - blob { return Failure("tensor data out of bounds"); }
      var at := blob + p.offset;
      if nbytes.value > size - at { return Failure("tensor data out of bounds"); }
      var t := TensorInfo(p.name, p.dims, p.ggmlType, gt.dtype, gt.supported, at, nbytes.value, numel.value);
      IndexGrows(TensorNames(tensors), tensorIndex, t.name);
      NamesGrow(tensors, t);
      if t.name !in tensorIndex { tensorIndex := tensorIndex[t.name := |tensors|]; }
      tensors := tensors + [t];
      return Success(());
    }

    method PlaceTensors(pending: seq<Pending>, blob: nat, size: nat) returns (res: Result<()>)
      requires Valid() && blob <= size && tensors == []
      modifies this`tensors, this`tensorIndex
      ensures Valid()
      ensures match PlaceAll(pending, blob, size)
        case Some(ts) => res.Success? && tensors == ts
        case None => res.Failure?
    {
      ghost var all := PlaceAll(pending, blob, size);
      assert pending[0..] == pending;
      if all.Some? { assert tensors + all.value == all.value; }
      for i := 0 to |pending|
        invariant Valid()
        invariant var rest := PlaceAll(pending[i..], blob, size); all == if rest.Some? then Some(tensors + rest.value) else None
      {
        ghost var was := tensors;
        assert pending[i..][1..] == pending[i + 1..];
        var one := AddTensor(pending[i], blob, size);
        if one.Failure? { return Failure(one.message); }
        PlaceStep(was, pending[i..], blob, size);
      }
      assert tensors + [] == tensors;
      return Success(());
    }

    /** Alignment and placement, the header behind the cursor. */
    method LayOut(r: Reader, pending: seq<Pending>) returns (res: Result<()>)
      requires Valid() && r.Valid() && tensors == []
      modifies this`tensors, this`tensorIndex
      ensures Valid()
      ensures Answers(Layout(Contents(version, CollectedMeta(), pending), r.pos, |r.base|), res.Success?)
    {
      var blob := AlignUp(r.pos, alignment);
      if blob.None? { return Failure("alignment rounding overflows size_t"); }
      if blob.value > |r.base| { return Failure("data blob start past end of file"); }
      res := PlaceTensors(pending, blob.value, |r.base|);
    }

    /** Everything before the data: the header, the metadata loop and the tensor infos. */
    method ReadContents(r: Reader) returns (res: Result<seq<Pending>>)
      requires Valid() && r.Valid() && r.pos == 0 && CollectedMeta() == Meta([], DEFAULT_ALIGNMENT)
      modifies this`version, this`alignment, this`metadata, this`metaIndex, r`pos
      ensures Valid() && r.Valid()
      ensures var spec := ParseContents(r.base, true);
        if res.Success? then spec == Ok(Contents(version, CollectedMeta(), res.value), r.Rest()) else spec == Fail(res.message)
    {
      if |r.base| < 24 { return Failure("file too small"); }
      assert r.Rest() == r.base;
      var head := r.ReadHead();
      if head.Failure? { return Failure(head.message); }
      version := head.value.version;
      if head.value.metaCount > (|r.base| - r.pos) / 13 { return Failure("unexpected EOF"); }
      var meta := ReadMeta(r, head.value.metaCount);
      if meta.Failure? { return Failure(meta.message); }
      if head.value.tensorCount > (|r.base| - r.pos) / 32 { return Failure("unexpected EOF"); }
      var pending := r.ReadAllPending(head.value.tensorCount);
      return pending;
    }

    /** `File::open` on the file's bytes. */
    method OpenFile(bytes: seq<byte>) returns (res: Result<()>)
      requires Valid() && tensors == [] && CollectedMeta() == Meta([], DEFAULT_ALIGNMENT)
      modifies this
      ensures Valid()
      ensures Answers(Open(bytes), res.Success?)
    {
      var r := new Reader(bytes);
      var pending := ReadContents(r);
      if pending.Failure? { return Failure(pending.message); }
      res := LayOut(r, pending.value);
    }

    /** The first tensor of that name, null if there is none. */
    method FindTensor(name: seq<byte>) returns (r: Option<TensorInfo>)
      requires Valid()
      ensures match r
        case Some(t) => exists i | 0 <= i < |tensors| :: tensors[i] == t && t.name == name && forall j | 0 <= j < i :: tensors[j].name != name
        case None => forall i | 0 <= i < |tensors| :: tensors[i].name != name
    {
      if name !in tensorIndex {
        assert forall i | 0 <= i < |tensors| :: TensorNames(tensors)[i] != name;
        return None;
      }
      assert forall j | 0 <= j < tensorIndex[name] :: TensorNames(tensors)[j] != name;
      return Some(tensors[tensorIndex[name]]);
    }

    /** The value of the first metadata entry of that key. */
    method FindMeta(key: seq<byte>) returns (r: Option<Value>)
      requires Valid()
      ensures match r
        case Some(v) => exists i | 0 <= i < |metadata| :: metadata[i] == Entry(key, v) && forall j | 0 <= j < i :: metadata[j].key != key
        case None => forall i | 0 <= i < |metadata| :: metadata[i].key != key
      ensures r == FirstValue(metadata, key)
    {
      if key !in metaIndex {
        NotFound(metadata, key);
        assert forall i | 0 <= i < |metadata| :: Keys(metadata)[i] != key;
        return None;
      }
      var i := metaIndex[key];
      assert forall j | 0 <= j < i :: Keys(metadata)[j] != key;
      assert metadata[i] == Entry(key, metadata[i].value);
      FoundFirst(metadata, key, i);
      return Some(metadata[i].value);
    }
  }

  lemma {:induction false} FoundFirst(es: seq<Entry>, key: seq<byte>, i: nat)
    requires i < |es| && es[i].key == key && forall j | 0 <= j < i :: es[j].key != key
    ensures FirstValue(es, key) == Some(es[i].value)
    decreases i
  {
    if i > 0 {
      assert forall j | 0 <= j < i - 1 :: es[1..][j] == es[j + 1];
      FoundFirst(es[1..], key, i - 1);
    }
  }

  lemma {:induction false} NotFound(es: seq<Entry>, key: seq<byte>)
    requires forall i | 0 <= i < |es| :: es[i].key != key
    ensures FirstValue(es, key) == None
    decreases |es|
  {
    if es != [] {
      assert forall j | 0 <= j < |es| - 1 :: es[1..][j] == es[j + 1];
      NotFound(es[1..], key);
    }
  }

  lemma {:induction false} PlaceStep(was: seq<TensorInfo>, ps: seq<Pending>, blob: nat, size: nat)
    requires ps != [] && blob <= size && Place(ps[0], blob, size).Some?
    ensures var t := Place(ps[0], blob, size).value;
      var rest := PlaceAll(ps[1..], blob, size);
      var all := PlaceAll(ps, blob, size);
      if rest.Some? then all.Some? && was + all.value == was + [t] + rest.value else all.None?
  {
  }

  // ---- shape_to_2d ----

  /** The product of dimensions times `n` while it stays in C++ `int` range. */
  function RowProduct(shape: seq<int>, n: nat): Option<nat>
    requires forall i | 0 <= i < |shape| :: shape[i] > 0
  {
    if shape == [] then Some(n)
    else if n > INT_MAX / shape[0] then None
    else RowProduct(shape[1..], n * shape[0])
  }

  predicate InIntRange(shape: seq<int>) { forall i | 0 <= i < |shape| :: 0 < shape[i] <= INT_MAX }

  lemma {:induction false} ShapePositive(shape: seq<int>)
    requires InIntRange(shape)
    ensures A.Product(shape) >= 1
  {
    if shape != [] {
      ShapePositive(shape[1..]);
      Grows(shape[0], A.Product(shape[1..]));
    }
  }

  lemma {:induction false} RowProductExact(shape: seq<int>, n: nat)
    requires InIntRange(shape) && 1 <= n <= INT_MAX
    ensures RowProduct(shape, n) == if n * A.Product(shape) <= INT_MAX then Some(n * A.Product(shape)) else None
    decreases |shape|
  {
    if shape != [] {
      var d, p := shape[0], A.Product(shape[1..]);
      ShapePositive(shape[1..]);
      A.QuotientBounds(n, d, INT_MAX);
      A.Associate(n, d, p);
      Grows(n, d);
      if n * d <= INT_MAX { RowProductExact(shape[1..], n * d); } else { Grows(n * d, p); }
    }
  }

  /**
   Rows and columns: columns are the innermost dimension, and rows times columns is the element count. It
   fails exactly for an empty shape, a dimension outside 1..INT_MAX, or too many rows.
   */
  method ShapeTo2d(shape: seq<int>) returns (r: Result<(int, int)>)
    ensures r.Success? <==> shape != [] && InIntRange(shape) && (|shape| > 1 ==> A.Product(shape[1..]) <= INT_MAX)
    ensures r.Success? ==> r.value.0 * r.value.1 == A.Product(shape) && 0 < r.value.0 <= INT_MAX
    ensures r.Success? ==> if |shape| == 1 then r.value == (shape[0], 1) else r.value.1 == shape[0]
  {
    if shape == [] { return Failure("shape_to_2d: empty shape"); }
    for i := 0 to |shape|
      invariant forall j | 0 <= j < i :: 0 < shape[j] <= INT_MAX
    {
      if shape[i] <= 0 { return Failure("shape_to_2d: non-positive dimension"); }
      if shape[i] > INT_MAX { return Failure("shape_to_2d: dimension exceeds int range"); }
    }
    if |shape| == 1 {
      assert A.Product(shape[1..]) == 1;
      return Success((shape[0], 1));
    }
    RowProductExact(shape[1..], 1);
    var rows: nat := 1;
    for i := 1 to |shape|
      invariant rows <= INT_MAX && RowProduct(shape[i..], rows) == RowProduct(shape[1..], 1)
    {
      assert shape[i..][1..] == shape[i + 1..];
      if rows > INT_MAX / shape[i] { return Failure("shape_to_2d: row product overflows int"); }
      A.QuotientBounds(rows, shape[i], INT_MAX);
      rows := rows * shape[i];
    }
    ShapePositive(shape[1..]);
    return Success((rows, shape[0]));
  }
}

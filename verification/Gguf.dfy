/**
 The GGUF reader as functions on the bytes that are left. `guarded` says whether counts taken from the file
 are first compared with the bytes left, as the reader does; the unguarded form simply runs out of bytes.
 */
module Gguf {
  import opened Results
  import opened GgufBytes

  datatype ValueType = U8 | I8 | U16 | I16 | U32 | I32 | F32 | Bool | String | Array | U64 | I64 | F64

  /** A scalar keeps its bit pattern. */
  datatype Value =
    | Scalar(t: ValueType, bits: nat)
    | Str(str: seq<byte>)
    | Arr(elem: ValueType, items: seq<Value>)

  function TypeOf(raw: nat): ValueType
    requires raw <= 12
  {
    match raw
    case 0 => U8
    case 1 => I8
    case 2 => U16
    case 3 => I16
    case 4 => U32
    case 5 => I32
    case 6 => F32
    case 7 => Bool
    case 8 => String
    case 9 => Array
    case 10 => U64
    case 11 => I64
    case _ => F64
  }

  /** Bytes of a scalar. */
  function Width(t: ValueType): (n: nat)
    ensures 1 <= n <= 8
  {
    match t
    case U8 => 1
    case I8 => 1
    case Bool => 1
    case U16 => 2
    case I16 => 2
    case U32 => 4
    case I32 => 4
    case F32 => 4
    case _ => 8
  }

  const MAX_DEPTH: nat := 32

  /** `parse_scalar` of anything but an array. */
  function ParseScalar(s: seq<byte>, t: ValueType): (r: Parse<Value>)
    requires t != Array
    ensures r.Ok? ==> |r.rest| < |s|
  {
    if t == String then
      var v := ReadStr(s);
      if v.Fail? then Fail(v.message) else Ok(Str(v.value), v.rest)
    else
      var v := ReadUint(s, Width(t));
      if v.Fail? then Fail(v.message)
      else if t == Bool && v.value > 1 then Fail("bool value not 0 or 1")
      else Ok(Scalar(t, v.value), v.rest)
  }

  /** Element type and length of an array. */
  function ParseArrayHead(s: seq<byte>, guarded: bool): (r: Parse<(ValueType, nat)>)
    ensures r.Ok? ==> |r.rest| + 12 == |s|
  {
    var raw := ReadUint(s, 4);
    if raw.Fail? then Fail(raw.message)
    else if raw.value > 12 then Fail("array element type out of range")
    else
      var len := ReadUint(raw.rest, 8);
      if len.Fail? then Fail(len.message)
      else if guarded && len.value > |len.rest| then Fail("unexpected EOF")
      else Ok((TypeOf(raw.value), len.value), len.rest)
  }

  function ParseValue(s: seq<byte>, t: ValueType, depth: nat, guarded: bool): (r: Parse<Value>)
    requires depth <= MAX_DEPTH + 1
    ensures r.Ok? ==> |r.rest| < |s|
    decreases MAX_DEPTH + 1 - depth, 0, 0, s
  {
    if depth > MAX_DEPTH then Fail("nested array depth exceeds limit")
    else if t != Array then ParseScalar(s, t)
    else
      var head := ParseArrayHead(s, guarded);
      if head.Fail? then Fail(head.message)
      else
        var items := ParseItems(head.rest, head.value.0, head.value.1, depth + 1, guarded);
        if items.Fail? then Fail(items.message) else Ok(Arr(head.value.0, items.value), items.rest)
  }

  /** `n` values of type `t`. */
  function ParseItems(s: seq<byte>, t: ValueType, n: nat, depth: nat, guarded: bool): (r: Parse<seq<Value>>)
    requires depth <= MAX_DEPTH + 1
    ensures r.Ok? ==> |r.value| == n && |r.rest| + n <= |s|
    decreases MAX_DEPTH + 1 - depth, 1, n, s
  {
    if n == 0 then Ok([], s)
    else
      var v := ParseValue(s, t, depth, guarded);
      if v.Fail? then Fail(v.message)
      else
        var tail := ParseItems(v.rest, t, n - 1, depth, guarded);
        if tail.Fail? then Fail(tail.message) else Ok([v.value] + tail.value, tail.rest)
  }

  // ---- Metadata ----

  datatype Entry = Entry(key: seq<byte>, value: Value)

  /** "general.alignment" */
  const ALIGNMENT_KEY: seq<byte> :=
    [0x67, 0x65, 0x6E, 0x65, 0x72, 0x61, 0x6C, 0x2E, 0x61, 0x6C, 0x69, 0x67, 0x6E, 0x6D, 0x65, 0x6E, 0x74]

  const DEFAULT_ALIGNMENT: nat := 32

  /** The bits two numbers share. */
  function BitAnd(a: nat, b: nat): (r: nat)
    ensures r <= a && r <= b
    decreases a, b
  {
    if a == 0 || b == 0 then 0
    else 2 * BitAnd(a / 2, b / 2) + if a % 2 == 1 && b % 2 == 1 then 1 else 0
  }

  /** The alignment after an entry, given the one before it; None where the reader rejects the entry. */
  function Realign(e: Entry, alignment: nat): Option<nat>
  {
    if e.key != ALIGNMENT_KEY then Some(alignment)
    else if !(e.value.Scalar? && e.value.t == U32) then None
    else if e.value.bits == 0 || BitAnd(e.value.bits, e.value.bits - 1) != 0 then None
    else Some(e.value.bits)
  }

  function ParseEntry(s: seq<byte>, guarded: bool): (r: Parse<Entry>)
    ensures r.Ok? ==> |r.rest| + 13 <= |s|
  {
    var key := ReadStr(s);
    if key.Fail? then Fail(key.message)
    else
      var raw := ReadUint(key.rest, 4);
      if raw.Fail? then Fail(raw.message)
      else if raw.value > 12 then Fail("metadata value type out of range")
      else
        var v := ParseValue(raw.rest, TypeOf(raw.value), 0, guarded);
        if v.Fail? then Fail(v.message) else Ok(Entry(key.value, v.value), v.rest)
  }

  datatype Meta = Meta(entries: seq<Entry>, alignment: nat)

  /** One more entry, its alignment taken over if it is the alignment's. */
  function ParseMetaEntry(s: seq<byte>, m: Meta, guarded: bool): (r: Parse<Meta>)
    ensures r.Ok? ==> |r.rest| + 13 <= |s|
  {
    var e := ParseEntry(s, guarded);
    if e.Fail? then Fail(e.message)
    else
      var a := Realign(e.value, m.alignment);
      if a.None? then Fail("general.alignment must be a positive power of two")
      else Ok(Meta(m.entries + [e.value], a.value), e.rest)
  }

  function MetaStep(guarded: bool): (seq<byte>, Meta) -> Parse<Meta>
  {
    (s, m) => ParseMetaEntry(s, m, guarded)
  }

  /** `n` more metadata entries after those of `m`. */
  function ParseMeta(s: seq<byte>, n: nat, m: Meta, guarded: bool): (r: Parse<Meta>)
    ensures r.Ok? ==> |r.rest| + 13 * n <= |s|
  {
    LoopConsumes(MetaStep(guarded), 13, s, n, m);
    Loop(MetaStep(guarded), s, n, m)
  }

  /** What looking up a key finds: the value of the first entry under it. */
  function FirstValue(es: seq<Entry>, key: seq<byte>): Option<Value>
  {
    if es == [] then None else if es[0].key == key then Some(es[0].value) else FirstValue(es[1..], key)
  }

  // ---- Tensor infos ----

  /** A tensor as listed in the file. */
  datatype Pending = Pending(name: seq<byte>, dims: seq<nat>, ggmlType: nat, offset: nat)

  /** `n` 64-bit dimensions. */
  function ParseDims(s: seq<byte>, n: nat): (r: Parse<seq<nat>>)
    ensures r.Ok? ==> |r.value| == n && |r.rest| + 8 * n == |s|
    decreases n, s
  {
    if n == 0 then Ok([], s)
    else
      var d := ReadUint(s, 8);
      if d.Fail? then Fail(d.message)
      else
        var tail := ParseDims(d.rest, n - 1);
        if tail.Fail? then Fail(tail.message) else Ok([d.value] + tail.value, tail.rest)
  }

  function ParsePlace(s: seq<byte>, name: seq<byte>, dims: seq<nat>): (r: Parse<Pending>)
    ensures r.Ok? ==> |r.rest| + 12 == |s|
  {
    var t := ReadUint(s, 4);
    if t.Fail? then Fail(t.message)
    else
      var off := ReadUint(t.rest, 8);
      if off.Fail? then Fail(off.message) else Ok(Pending(name, dims, t.value, off.value), off.rest)
  }

  function ParsePending(s: seq<byte>): (r: Parse<Pending>)
    ensures r.Ok? ==> |r.rest| + 32 <= |s|
  {
    var name := ReadStr(s);
    if name.Fail? then Fail(name.message)
    else
      var n := ReadUint(name.rest, 4);
      if n.Fail? then Fail(n.message)
      else if n.value == 0 || n.value > 8 then Fail("invalid tensor n_dims")
      else
        var dims := ParseDims(n.rest, n.value);
        if dims.Fail? then Fail(dims.message) else ParsePlace(dims.rest, name.value, dims.value)
  }

  function ParseAllPending(s: seq<byte>, n: nat): (r: Parse<seq<Pending>>)
    ensures r.Ok? ==> |r.value| == n && |r.rest| + 32 * n <= |s|
    decreases n, s
  {
    if n == 0 then Ok([], s)
    else
      var p := ParsePending(s);
      if p.Fail? then Fail(p.message)
      else
        var tail := ParseAllPending(p.rest, n - 1);
        if tail.Fail? then Fail(tail.message) else Ok([p.value] + tail.value, tail.rest)
  }

  // ---- The header ----

  const MAGIC: nat := 0x4655_4747

  datatype Head = Head(version: nat, tensorCount: nat, metaCount: nat)

  function ParseCounts(s: seq<byte>, version: nat): (r: Parse<Head>)
    ensures r.Ok? ==> |r.rest| + 16 == |s|
  {
    var tensors := ReadUint(s, 8);
    if tensors.Fail? then Fail(tensors.message)
    else
      var metas := ReadUint(tensors.rest, 8);
      if metas.Fail? then Fail(metas.message) else Ok(Head(version, tensors.value, metas.value), metas.rest)
  }

  function ParseHead(s: seq<byte>): (r: Parse<Head>)
    ensures r.Ok? ==> |r.rest| + 24 == |s|
  {
    var magic := ReadUint(s, 4);
    if magic.Fail? then Fail(magic.message)
    else if magic.value != MAGIC then Fail("bad magic (not a GGUF file)")
    else
      var version := ReadUint(magic.rest, 4);
      if version.Fail? then Fail(version.message)
      else if version.value != 2 && version.value != 3 then Fail("unsupported GGUF version")
      else ParseCounts(version.rest, version.value)
  }

  datatype Contents = Contents(version: nat, meta: Meta, pending: seq<Pending>)

  /** Everything before the data blob. */
  function ParseContents(s: seq<byte>, guarded: bool): (r: Parse<Contents>)
    ensures r.Ok? ==> |r.rest| <= |s|
  {
    var head := if |s| < 24 then Fail("file too small") else ParseHead(s);
    if head.Fail? then Fail(head.message)
    else if guarded && head.value.metaCount > |head.rest| / 13 then Fail("unexpected EOF")
    else
      var m := ParseMeta(head.rest, head.value.metaCount, Meta([], DEFAULT_ALIGNMENT), guarded);
      if m.Fail? then Fail(m.message)
      else if guarded && head.value.tensorCount > |m.rest| / 32 then Fail("unexpected EOF")
      else
        var ps := ParseAllPending(m.rest, head.value.tensorCount);
        if ps.Fail? then Fail(ps.message) else Ok(Contents(head.value.version, m.value, ps.value), ps.rest)
  }
}

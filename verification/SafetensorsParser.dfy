/** The safetensors header parser, as functions on the text that is left. A char stands for one byte. */
module SafetensorsParser {
  import opened MachineWords
  import opened Results
  import opened JsonText

  datatype Dtype = Unknown | F32 | F16 | BF16 | I32 | I64 | U8 | BOOL

  function DtypeSize(d: Dtype): nat
  {
    match d
    case F32 => 4
    case F16 => 2
    case BF16 => 2
    case I32 => 4
    case I64 => 8
    case U8 => 1
    case BOOL => 1
    case Unknown => 0
  }

  function ParseDtype(s: string): Dtype
  {
    if s == "F32" then F32
    else if s == "F16" then F16
    else if s == "BF16" then BF16
    else if s == "I32" then I32
    else if s == "I64" then I64
    else if s == "U8" then U8
    else if s == "BOOL" then BOOL
    else Unknown
  }

  // ---- Tokens ----

  /** `eat` and `expect`: skip white space, then take `c` or fail. */
  function Expect(s: string, c: char): (r: Parse<()>)
    ensures r.Ok? ==> |r.rest| < |s|
  {
    var t := SkipSpace(s);
    if t != "" && t[0] == c then Ok((), t[1..]) else Fail("expected '" + [c] + "'")
  }

  /** A \u escape or surrogate pair, after the backslash and the u. */
  function ParseUnicode(s: string): (r: Parse<string>)
    ensures r.Ok? ==> |r.rest| < |s|
  {
    if |s| < 4 then Fail("truncated \\u escape in string")
    else if Hex4(s) < 0 then Fail("bad hex digit in \\u escape")
    else if IsHigh(Hex4(s)) then
      var t := s[4..];
      if |t| < 6 || t[0] != '\\' || t[1] != 'u' then Fail("unpaired high surrogate in string")
      else if Hex4(t[2..]) < 0 then Fail("bad hex digit in \\u escape")
      else if !IsLow(Hex4(t[2..])) then Fail("unpaired high surrogate in string")
      else Ok(Utf8(Combine(Hex4(s), Hex4(t[2..]))), t[6..])
    else if IsLow(Hex4(s)) then Fail("unpaired low surrogate in string")
    else Ok(Utf8(Hex4(s)), s[4..])
  }

  /** What an escape denotes, after its backslash. */
  function ParseEscape(s: string): (r: Parse<string>)
    requires s != ""
    ensures r.Ok? ==> |r.rest| < |s|
  {
    if s[0] == 'u' then ParseUnicode(s[1..])
    else
      match Unescape(s[0])
      case None => Fail("unsupported escape in string")
      case Some(c) => Ok([c], s[1..])
  }

  /** The body of a string literal, after the opening quote; a backslash that ends the text stands for itself. */
  function ParseBody(s: string, out: string): (r: Parse<string>)
    ensures r.Ok? ==> |r.rest| < |s|
    decreases |s|
  {
    if s == "" then Fail("unterminated string")
    else if s[0] == '\"' then Ok(out, s[1..])
    else if s[0] == '\\' && |s| > 1 then
      var e := ParseEscape(s[1..]);
      if e.Fail? then Fail(e.message) else ParseBody(e.rest, out + e.value)
    else ParseBody(s[1..], out + [s[0]])
  }

  function ParseString(s: string): (r: Parse<string>)
    ensures r.Ok? ==> |r.rest| < |s|
  {
    var t := SkipSpace(s);
    if t == "" || t[0] != '\"' then Fail("expected string") else ParseBody(t[1..], "")
  }

  predicate IsDigit(c: char) { '0' <= c <= '9' }

  predicate StartsDigit(s: string) { s != "" && IsDigit(s[0]) }

  function DigitValue(c: char): (d: nat)
    requires IsDigit(c)
    ensures d < 10
  {
    c as int - '0' as int
  }

  /** The digits at the head of `s` appended to `v`, refusing to pass INT64_MAX. */
  function ParseDigits(s: string, v: nat): (r: Parse<nat>)
    ensures r.Ok? ==> |r.rest| <= |s| && (StartsDigit(s) ==> |r.rest| < |s|)
  {
    if !StartsDigit(s) then Ok(v, s)
    else if v > (INT64_MAX - DigitValue(s[0])) / 10 then Fail("integer out of range")
    else ParseDigits(s[1..], v * 10 + DigitValue(s[0]))
  }

  function ParseInt(s: string): (r: Parse<int>)
    ensures r.Ok? ==> |r.rest| < |s|
  {
    var t := SkipSpace(s);
    var neg := t != "" && t[0] == '-';
    var u := if neg then t[1..] else t;
    if !StartsDigit(u) then Fail("expected integer")
    else
      var v := ParseDigits(u, 0);
      if v.Fail? then Fail(v.message)
      else
        var n: int := v.value;
        Ok(if neg then -n else n, v.rest)
  }

  // ---- Values that are passed over ----

  predicate EndsToken(c: char)
  {
    c == ',' || c == '}' || c == ']' || IsSpace(c)
  }

  function SkipToken(s: string): (r: string)
    ensures |r| <= |s|
  {
    if s != "" && !EndsToken(s[0]) then SkipToken(s[1..]) else s
  }

  /** The end of a container of which `depth` brackets are open; brackets of the other kind are not counted. */
  function SkipContainer(s: string, open: char, close: char, depth: nat): (r: Parse<()>)
    ensures r.Ok? ==> |r.rest| <= |s|
    decreases |s|
  {
    if depth == 0 then Ok((), s)
    else if s == "" then Fail("unterminated container")
    else if s[0] == '\"' then
      var str := ParseString(s);
      if str.Fail? then Fail(str.message) else SkipContainer(str.rest, open, close, depth)
    else if s[0] == open then SkipContainer(s[1..], open, close, depth + 1)
    else if s[0] == close then SkipContainer(s[1..], open, close, depth - 1)
    else SkipContainer(s[1..], open, close, depth)
  }

  function SkipValue(s: string): (r: Parse<()>)
    ensures r.Ok? ==> |r.rest| <= |s|
  {
    var t := SkipSpace(s);
    if t == "" then Fail("unexpected EOF")
    else if t[0] == '\"' then
      var str := ParseString(t);
      if str.Fail? then Fail(str.message) else Ok((), str.rest)
    else if t[0] == '{' then SkipContainer(t[1..], '{', '}', 1)
    else if t[0] == '[' then SkipContainer(t[1..], '[', ']', 1)
    else Ok((), SkipToken(t))
  }

  // ---- Entries ----

  datatype Entry = Entry(
    dtype: Dtype, shape: seq<int>, offStart: nat, offEnd: nat,
    seenDtype: bool, seenShape: bool, seenOffsets: bool)

  const NO_FIELDS: Entry := Entry(Unknown, [], 0, 0, false, false, false)

  /** The integers of a shape, after the opening bracket. */
  function ParseShape(s: string, acc: seq<int>, first: bool): (r: Parse<seq<int>>)
    ensures r.Ok? ==> |r.rest| < |s|
    decreases |s|
  {
    var close := Expect(s, ']');
    if close.Ok? then Ok(acc, close.rest)
    else
      var comma := if first then Ok((), s) else Expect(s, ',');
      if comma.Fail? then Fail(comma.message)
      else
        var n := ParseInt(comma.rest);
        if n.Fail? then Fail(n.message) else ParseShape(n.rest, acc + [n.value], false)
  }

  function ParseOffsets(s: string): (r: Parse<(int, int)>)
    ensures r.Ok? ==> |r.rest| < |s|
  {
    var open := Expect(s, '[');
    if open.Fail? then Fail(open.message) else
    var a := ParseInt(open.rest);
    if a.Fail? then Fail(a.message) else
    var comma := Expect(a.rest, ',');
    if comma.Fail? then Fail(comma.message) else
    var b := ParseInt(comma.rest);
    if b.Fail? then Fail(b.message) else
    var close := Expect(b.rest, ']');
    if close.Fail? then Fail(close.message) else Ok((a.value, b.value), close.rest)
  }

  /** The value of field `key`, recorded in `e`. */
  function ParseFieldValue(s: string, key: string, e: Entry): (r: Parse<Entry>)
    ensures r.Ok? ==> |r.rest| <= |s|
  {
    if key == "dtype" then
      if e.seenDtype then Fail("duplicate 'dtype' in entry")
      else
        var v := ParseString(s);
        if v.Fail? then Fail(v.message)
        else if ParseDtype(v.value) == Unknown then Fail("unsupported dtype")
        else Ok(e.(dtype := ParseDtype(v.value), seenDtype := true), v.rest)
    else if key == "shape" then
      if e.seenShape then Fail("duplicate 'shape' in entry")
      else
        var open := Expect(s, '[');
        if open.Fail? then Fail(open.message)
        else
          var v := ParseShape(open.rest, [], true);
          if v.Fail? then Fail(v.message) else Ok(e.(shape := v.value, seenShape := true), v.rest)
    else if key == "data_offsets" then
      if e.seenOffsets then Fail("duplicate 'data_offsets' in entry")
      else
        var v := ParseOffsets(s);
        if v.Fail? then Fail(v.message)
        else if v.value.0 < 0 || v.value.1 < 0 then Fail("negative data_offsets")
        else Ok(e.(offStart := v.value.0, offEnd := v.value.1, seenOffsets := true), v.rest)
    else
      var v := SkipValue(s);
      if v.Fail? then Fail(v.message) else Ok(e, v.rest)
  }

  /** A key, a colon and the field's value. */
  function ParseField(s: string, e: Entry): (r: Parse<Entry>)
    ensures r.Ok? ==> |r.rest| < |s|
  {
    var key := ParseString(s);
    if key.Fail? then Fail(key.message)
    else
      var colon := Expect(key.rest, ':');
      if colon.Fail? then Fail(colon.message) else ParseFieldValue(colon.rest, key.value, e)
  }

  /** The fields of an entry, after its opening brace. */
  function ParseFields(s: string, e: Entry, first: bool): (r: Parse<Entry>)
    ensures r.Ok? ==> |r.rest| < |s|
    decreases |s|
  {
    var close := Expect(s, '}');
    if close.Ok? then
      if e.seenDtype && e.seenShape && e.seenOffsets then Ok(e, close.rest)
      else Fail("entry missing required field (dtype, shape, or data_offsets)")
    else
      var comma := if first then Ok((), s) else Expect(s, ',');
      if comma.Fail? then Fail(comma.message)
      else
        var f := ParseField(comma.rest, e);
        if f.Fail? then f else ParseFields(f.rest, f.value, false)
  }

  function ParseEntry(s: string): (r: Parse<Entry>)
    ensures r.Ok? ==> |r.rest| < |s|
  {
    var open := Expect(s, '{');
    if open.Fail? then Fail(open.message) else ParseFields(open.rest, NO_FIELDS, true)
  }

  // ---- Views ----

  datatype TensorView = TensorView(name: string, dtype: Dtype, shape: seq<int>, data: nat, nbytes: nat)

  datatype Checked<+T> = Good(value: T) | Bad(message: string)

  /** The element count, refusing negative dimensions and products past INT64_MAX; `n` is the product so far. */
  function Numel(shape: seq<int>, n: nat): (r: Checked<nat>)
    requires n <= INT64_MAX
    ensures r.Good? ==> r.value <= INT64_MAX
  {
    if shape == [] then Good(n)
    else
      var d := shape[0];
      if d < 0 then Bad("negative dimension in tensor shape")
      else if d != 0 && n > INT64_MAX / d then Bad("tensor element count overflows int64")
      else
        ProductFits(n, d);
        Numel(shape[1..], n * d)
  }

  lemma ProductFits(n: nat, d: nat)
    requires d != 0 ==> n <= INT64_MAX / d
    ensures n * d <= INT64_MAX
  {
    if d != 0 {
      var q := INT64_MAX / d;
      assert n * d <= q * d;
      assert q * d <= INT64_MAX;
    }
  }

  /** The checks between a parsed entry and the view it becomes; `base` is the payload's place in the file. */
  function MakeView(name: string, e: Entry, base: nat, payload: nat): Checked<TensorView>
  {
    if e.offEnd < e.offStart || e.offEnd > payload then Bad("out-of-range data_offsets")
    else
      var n := Numel(e.shape, 1);
      if n.Bad? then Bad(n.message)
      else
        var size := DtypeSize(e.dtype);
        if size == 0 || n.value > SIZE_MAX / size then Bad("byte size overflows size_t")
        else if n.value * size != e.offEnd - e.offStart then Bad("nbytes/shape mismatch")
        else Good(TensorView(name, e.dtype, e.shape, base + e.offStart, e.offEnd - e.offStart))
  }

  const METADATA: string := "__metadata__"

  /** The views so far and whether `__metadata__` was seen. */
  datatype Header = Header(views: seq<TensorView>, seenMetadata: bool)

  function Names(views: seq<TensorView>): set<string>
  {
    set v | v in views :: v.name
  }

  function AddView(h: Header, v: TensorView): Checked<Header>
  {
    if v.name in Names(h.views) then Bad("duplicate tensor name") else Good(h.(views := h.views + [v]))
  }

  /** The value of header key `name`. */
  function ParseMemberValue(s: string, name: string, h: Header, base: nat, payload: nat): (r: Parse<Header>)
    ensures r.Ok? ==> |r.rest| <= |s|
  {
    if name == METADATA then
      if h.seenMetadata then Fail("duplicate '__metadata__' key")
      else
        var v := SkipValue(s);
        if v.Fail? then Fail(v.message) else Ok(h.(seenMetadata := true), v.rest)
    else
      var e := ParseEntry(s);
      if e.Fail? then Fail(e.message)
      else
        var v := MakeView(name, e.value, base, payload);
        if v.Bad? then Fail(v.message)
        else
          var h' := AddView(h, v.value);
          if h'.Bad? then Fail(h'.message) else Ok(h'.value, e.rest)
  }

  function ParseMember(s: string, h: Header, base: nat, payload: nat): (r: Parse<Header>)
    ensures r.Ok? ==> |r.rest| < |s|
  {
    var name := ParseString(s);
    if name.Fail? then Fail(name.message)
    else
      var colon := Expect(name.rest, ':');
      if colon.Fail? then Fail(colon.message) else ParseMemberValue(colon.rest, name.value, h, base, payload)
  }

  /** The members of the header object, after its opening brace. */
  function ParseMembers(s: string, h: Header, first: bool, base: nat, payload: nat): (r: Parse<Header>)
    ensures r.Ok? ==> |r.rest| < |s|
    decreases |s|
  {
    var close := Expect(s, '}');
    if close.Ok? then Ok(h, close.rest)
    else
      var comma := if first then Ok((), s) else Expect(s, ',');
      if comma.Fail? then Fail(comma.message)
      else
        var m := ParseMember(comma.rest, h, base, payload);
        if m.Fail? then m else ParseMembers(m.rest, m.value, false, base, payload)
  }

  function ParseHeader(s: string, base: nat, payload: nat): Checked<seq<TensorView>>
  {
    var open := Expect(s, '{');
    if open.Fail? then Bad(open.message)
    else
      var h := ParseMembers(open.rest, Header([], false), true, base, payload);
      if h.Fail? then Bad(h.message)
      else if SkipSpace(h.rest) != "" then Bad("unexpected trailing data after header object")
      else Good(h.value.views)
  }

  // ---- Files ----

  /** Eight bytes as a little-endian number. */
  function FromLe(s: string): nat
  {
    if s == "" then 0 else s[0] as int + 0x100 * FromLe(s[1..])
  }

  /** `File::open` on the file's bytes: the views in header order, their data as offsets into the file. */
  function Open(file: string): Checked<seq<TensorView>>
  {
    if |file| < 8 then Bad("file too small")
    else
      var size := FromLe(file[..8]);
      if size > |file| - 8 then Bad("header_size exceeds file")
      else ParseHeader(file[8..8 + size], 8 + size, |file| - 8 - size)
  }
}

/** The safetensors reader as the classes it is: a cursor over the header, and a file with its tensors and name index. */
module SafetensorsReader {
  import opened MachineWords
  import opened Results
  import opened JsonText
  import opened SafetensorsParser

  /** `TensorView::numel`. */
  method ElementCount(shape: seq<int>) returns (r: Result<nat>)
    ensures match Numel(shape, 1) case Good(n) => r == Success(n) case Bad(m) => r == Failure(m)
  {
    var n: nat := 1;
    for i := 0 to |shape|
      invariant n <= INT64_MAX && Numel(shape[i..], n) == Numel(shape, 1)
    {
      var d := shape[i];
      assert shape[i..][1..] == shape[i + 1..];
      if d < 0 {
        return Failure("negative dimension in tensor shape");
      }
      if d != 0 && n > INT64_MAX / d {
        return Failure("tensor element count overflows int64");
      }
      ProductFits(n, d);
      n := n * d;
    }
    return Success(n);
  }

  class Parser {
    const text: string
    var pos: nat

    constructor (text: string)
      ensures this.text == text && pos == 0
    {
      this.text := text;
      pos := 0;
    }

    ghost predicate Valid()
      reads this
    {
      pos <= |text|
    }

    ghost function Rest(): string
      reads this
      requires Valid()
    {
      text[pos..]
    }

    lemma Ahead(n: nat)
      requires pos + n <= |text|
      ensures text[pos..][n..] == text[pos + n..]
    {
    }

    method SkipWs()
      requires Valid()
      modifies this`pos
      ensures Valid() && pos >= old(pos) && Rest() == SkipSpace(old(Rest()))
    {
      while pos < |text| && IsSpace(text[pos])
        invariant Valid() && pos >= old(pos)
        invariant SkipSpace(Rest()) == SkipSpace(old(Rest()))
      {
        Ahead(1);
        pos := pos + 1;
      }
    }

    /** White space is skipped even when the character is not there. */
    method Eat(c: char) returns (eaten: bool)
      requires Valid()
      modifies this`pos
      ensures Valid() && pos >= old(pos) && eaten == Expect(old(Rest()), c).Ok?
      ensures eaten ==> pos > old(pos) && Rest() == Expect(old(Rest()), c).rest
      ensures !eaten ==> Rest() == SkipSpace(old(Rest()))
    {
      SkipWs();
      eaten := pos < |text| && text[pos] == c;
      if eaten {
        Ahead(1);
        pos := pos + 1;
      }
    }

    method ExpectChar(c: char) returns (r: Result<()>)
      requires Valid()
      modifies this`pos
      ensures Valid() && pos >= old(pos) && (r.Success? ==> pos > old(pos))
      ensures Tracks(r, Expect(old(Rest()), c), Rest())
    {
      var eaten := Eat(c);
      if eaten {
        return Success(());
      }
      return Failure("expected '" + [c] + "'");
    }

    /** `hex4` of the text at `q`. */
    method HexAt(q: nat) returns (v: int)
      requires q + 4 <= |text|
      ensures v == Hex4(text[q..])
    {
      v := 0;
      for i := 0 to 4
        invariant v == HexPrefix(text[q..], i) && v >= 0
      {
        var d := HexDigit(text[q + i]);
        assert text[q + i] == text[q..][i];
        if d < 0 {
          NoHexAfter(text[q..], i);
          return -1;
        }
        v := v * 0x10 + d;
      }
    }

    /** A \u escape or surrogate pair, the cursor on its backslash. */
    method ParseUnicodeEscape() returns (r: Result<string>)
      requires pos + 2 <= |text|
      modifies this`pos
      ensures Valid() && pos >= old(pos) && (r.Success? ==> pos > old(pos))
      ensures Tracks(r, ParseUnicode(old(text[pos + 2..])), Rest())
    {
      Ahead(2);
      ghost var s := text[pos + 2..];
      if pos + 6 > |text| {
        return Failure("truncated \\u escape in string");
      }
      var hi := HexAt(pos + 2);
      assert s[4..] == text[pos + 6..];
      pos := pos + 6;
      if hi < 0 {
        return Failure("bad hex digit in \\u escape");
      }
      if IsHigh(hi) {
        if pos + 6 > |text| || text[pos] != '\\' || text[pos + 1] != 'u' {
          return Failure("unpaired high surrogate in string");
        }
        var lo := HexAt(pos + 2);
        assert s[4..][2..] == text[pos + 2..] && s[4..][6..] == text[pos + 6..];
        if lo < 0 {
          return Failure("bad hex digit in \\u escape");
        }
        if !IsLow(lo) {
          return Failure("unpaired high surrogate in string");
        }
        pos := pos + 6;
        return Success(Utf8(Combine(hi, lo)));
      }
      if IsLow(hi) {
        return Failure("unpaired low surrogate in string");
      }
      return Success(Utf8(hi));
    }

    /** An escape, the cursor on its backslash. */
    method ParseEscapeAt() returns (r: Result<string>)
      requires pos + 2 <= |text|
      modifies this`pos
      ensures Valid() && pos >= old(pos) && (r.Success? ==> pos > old(pos))
      ensures Tracks(r, ParseEscape(old(text[pos + 1..])), Rest())
    {
      var e := text[pos + 1];
      assert text[pos + 1..][1..] == text[pos + 2..];
      if e == 'u' {
        r := ParseUnicodeEscape();
      } else {
        pos := pos + 2;
        match Unescape(e)
        case None => r := Failure("unsupported escape in string");
        case Some(c) => r := Success([c]);
      }
    }

    /** The loop over a string's body and its closing quote. */
    method ParseStringBody() returns (r: Result<string>)
      requires Valid()
      modifies this`pos
      ensures Valid() && pos >= old(pos)
      ensures Tracks(r, ParseBody(old(Rest()), ""), Rest())
    {
      var out := "";
      while pos < |text| && text[pos] != '\"'
        invariant Valid() && pos >= old(pos)
        invariant ParseBody(Rest(), out) == ParseBody(old(Rest()), "")
        decreases |text| - pos
      {
        Ahead(1);
        if text[pos] == '\\' && pos + 1 < |text| {
          var e := ParseEscapeAt();
          if e.Failure? {
            return Failure(e.message);
          }
          out := out + e.value;
        } else {
          out := out + [text[pos]];
          pos := pos + 1;
        }
      }
      if pos >= |text| {
        return Failure("unterminated string");
      }
      Ahead(1);
      pos := pos + 1;
      return Success(out);
    }

    method ParseStringValue() returns (r: Result<string>)
      requires Valid()
      modifies this`pos
      ensures Valid() && pos >= old(pos) && (r.Success? ==> pos > old(pos))
      ensures Tracks(r, ParseString(old(Rest())), Rest())
    {
      SkipWs();
      if pos >= |text| || text[pos] != '\"' {
        return Failure("expected string");
      }
      Ahead(1);
      pos := pos + 1;
      r := ParseStringBody();
    }

    method ParseDigitRun() returns (r: Result<nat>)
      requires Valid()
      modifies this`pos
      ensures Valid() && pos >= old(pos) && (r.Success? && StartsDigit(old(Rest())) ==> pos > old(pos))
      ensures Tracks(r, ParseDigits(old(Rest()), 0), Rest())
    {
      var v: nat := 0;
      while pos < |text| && IsDigit(text[pos])
        invariant Valid() && pos >= old(pos) && v <= INT64_MAX
        invariant ParseDigits(Rest(), v) == ParseDigits(old(Rest()), 0)
      {
        var digit := DigitValue(text[pos]);
        if v > (INT64_MAX - digit) / 10 {
          return Failure("integer out of range");
        }
        DigitFits(v, digit);
        Ahead(1);
        v := v * 10 + digit;
        pos := pos + 1;
      }
      return Success(v);
    }

    method ParseIntValue() returns (r: Result<int>)
      requires Valid()
      modifies this`pos
      ensures Valid() && pos >= old(pos) && (r.Success? ==> pos > old(pos))
      ensures Tracks(r, ParseInt(old(Rest())), Rest())
    {
      SkipWs();
      var neg := pos < |text| && text[pos] == '-';
      if neg {
        Ahead(1);
        pos := pos + 1;
      }
      if pos >= |text| || !IsDigit(text[pos]) {
        return Failure("expected integer");
      }
      var v := ParseDigitRun();
      if v.Failure? {
        return Failure(v.message);
      }
      var n: int := v.value;
      return Success(if neg then -n else n);
    }

    lemma DigitFits(v: nat, digit: nat)
      requires digit < 10 && v <= (INT64_MAX - digit) / 10
      ensures v * 10 + digit <= INT64_MAX
    {
    }

    /** The loop of `skip_value` over a container, its opening bracket behind the cursor. */
    method SkipContainerTail(open: char, close: char) returns (r: Result<()>)
      requires Valid()
      modifies this`pos
      ensures Valid() && pos >= old(pos)
      ensures Tracks(r, SkipContainer(old(Rest()), open, close, 1), Rest())
    {
      var depth: nat := 1;
      while pos < |text| && depth > 0
        invariant Valid() && pos >= old(pos)
        invariant SkipContainer(Rest(), open, close, depth) == SkipContainer(old(Rest()), open, close, 1)
        decreases |text| - pos
      {
        if text[pos] == '\"' {
          var s := ParseStringValue();
          if s.Failure? {
            return Failure(s.message);
          }
        } else {
          if text[pos] == open {
            depth := depth + 1;
          } else if text[pos] == close {
            depth := depth - 1;
          }
          Ahead(1);
          pos := pos + 1;
        }
      }
      if depth > 0 {
        return Failure("unterminated container");
      }
      return Success(());
    }

    method SkipTokenChars()
      requires Valid()
      modifies this`pos
      ensures Valid() && pos >= old(pos) && Rest() == SkipToken(old(Rest()))
    {
      while pos < |text| && !EndsToken(text[pos])
        invariant Valid() && pos >= old(pos)
        invariant SkipToken(Rest()) == SkipToken(old(Rest()))
      {
        Ahead(1);
        pos := pos + 1;
      }
    }

    method SkipAnyValue() returns (r: Result<()>)
      requires Valid()
      modifies this`pos
      ensures Valid() && pos >= old(pos)
      ensures Tracks(r, SkipValue(old(Rest())), Rest())
    {
      SkipWs();
      if pos >= |text| {
        return Failure("unexpected EOF");
      }
      if text[pos] == '\"' {
        var s := ParseStringValue();
        return if s.Success? then Success(()) else Failure(s.message);
      }
      if text[pos] == '{' || text[pos] == '[' {
        var open := text[pos];
        Ahead(1);
        pos := pos + 1;
        r := SkipContainerTail(open, if open == '{' then '}' else ']');
        return;
      }
      SkipTokenChars();
      return Success(());
    }

    // ---- Entries ----

    method ParseShapeArray() returns (r: Result<seq<int>>)
      requires Valid()
      modifies this`pos
      ensures Valid() && pos >= old(pos)
      ensures Tracks(r, ParseShape(old(Rest()), [], true), Rest())
    {
      var shape: seq<int> := [];
      var first := true;
      while true
        invariant Valid() && pos >= old(pos)
        invariant ParseShape(Rest(), shape, first) == ParseShape(old(Rest()), [], true)
        decreases |text| - pos
      {
        ghost var s := Rest();
        var close := Eat(']');
        if close {
          return Success(shape);
        }
        ShapeAfterSpace(s, shape, first);
        if !first {
          var comma := ExpectChar(',');
          if comma.Failure? {
            return Failure(comma.message);
          }
        }
        first := false;
        var n := ParseIntValue();
        if n.Failure? {
          return Failure(n.message);
        }
        shape := shape + [n.value];
      }
    }

    method ParseOffsetPair() returns (r: Result<(int, int)>)
      requires Valid()
      modifies this`pos
      ensures Valid() && pos >= old(pos)
      ensures Tracks(r, ParseOffsets(old(Rest())), Rest())
    {
      var open := ExpectChar('[');
      if open.Failure? { return Failure(open.message); }
      var a := ParseIntValue();
      if a.Failure? { return Failure(a.message); }
      var comma := ExpectChar(',');
      if comma.Failure? { return Failure(comma.message); }
      var b := ParseIntValue();
      if b.Failure? { return Failure(b.message); }
      var close := ExpectChar(']');
      if close.Failure? { return Failure(close.message); }
      return Success((a.value, b.value));
    }

    /** The value of the field `key`, recorded in `e`. */
    method ParseFieldInto(key: string, e: Entry) returns (r: Result<Entry>)
      requires Valid()
      modifies this`pos
      ensures Valid() && pos >= old(pos)
      ensures Tracks(r, ParseFieldValue(old(Rest()), key, e), Rest())
    {
      if key == "dtype" {
        if e.seenDtype { return Failure("duplicate 'dtype' in entry"); }
        var v := ParseStringValue();
        if v.Failure? { return Failure(v.message); }
        var d := ParseDtype(v.value);
        if d == Unknown { return Failure("unsupported dtype"); }
        return Success(e.(dtype := d, seenDtype := true));
      } else if key == "shape" {
        if e.seenShape { return Failure("duplicate 'shape' in entry"); }
        var open := ExpectChar('[');
        if open.Failure? { return Failure(open.message); }
        var v := ParseShapeArray();
        if v.Failure? { return Failure(v.message); }
        return Success(e.(shape := v.value, seenShape := true));
      } else if key == "data_offsets" {
        if e.seenOffsets { return Failure("duplicate 'data_offsets' in entry"); }
        var v := ParseOffsetPair();
        if v.Failure? { return Failure(v.message); }
        if v.value.0 < 0 || v.value.1 < 0 { return Failure("negative data_offsets"); }
        return Success(e.(offStart := v.value.0, offEnd := v.value.1, seenOffsets := true));
      }
      var v := SkipAnyValue();
      if v.Failure? { return Failure(v.message); }
      return Success(e);
    }

    method ParseFieldAt(e: Entry) returns (r: Result<Entry>)
      requires Valid()
      modifies this`pos
      ensures Valid() && pos >= old(pos) && (r.Success? ==> pos > old(pos))
      ensures Tracks(r, ParseField(old(Rest()), e), Rest())
    {
      var key := ParseStringValue();
      if key.Failure? { return Failure(key.message); }
      var colon := ExpectChar(':');
      if colon.Failure? { return Failure(colon.message); }
      r := ParseFieldInto(key.value, e);
    }

    /** `parse_entry`. */
    method ParseEntryAt() returns (r: Result<Entry>)
      requires Valid()
      modifies this`pos
      ensures Valid() && pos >= old(pos)
      ensures Tracks(r, ParseEntry(old(Rest())), Rest())
    {
      var open := ExpectChar('{');
      if open.Failure? { return Failure(open.message); }
      ghost var start := Rest();
      var e := NO_FIELDS;
      var first := true;
      while true
        invariant Valid() && pos >= old(pos)
        invariant ParseFields(Rest(), e, first) == ParseFields(start, NO_FIELDS, true)
        decreases |text| - pos
      {
        ghost var s := Rest();
        var close := Eat('}');
        if close {
          if e.seenDtype && e.seenShape && e.seenOffsets { return Success(e); }
          return Failure("entry missing required field (dtype, shape, or data_offsets)");
        }
        FieldsAfterSpace(s, e, first);
        if !first {
          var comma := ExpectChar(',');
          if comma.Failure? { return Failure(comma.message); }
        }
        first := false;
        var f := ParseFieldAt(e);
        if f.Failure? { return f; }
        e := f.value;
      }
    }
  }

  /** Skipping white space before a token twice is skipping it once. */
  lemma {:induction false} SkipTwice(s: string)
    ensures SkipSpace(SkipSpace(s)) == SkipSpace(s)
  {
  }

  lemma {:induction false} ShapeAfterSpace(s: string, acc: seq<int>, first: bool)
    ensures ParseShape(SkipSpace(s), acc, first) == ParseShape(s, acc, first)
  {
    SkipTwice(s);
  }

  lemma {:induction false} FieldsAfterSpace(s: string, e: Entry, first: bool)
    ensures ParseFields(SkipSpace(s), e, first) == ParseFields(s, e, first)
  {
    SkipTwice(s);
  }

  lemma {:induction false} MembersAfterSpace(s: string, h: Header, first: bool, base: nat, payload: nat)
    ensures ParseMembers(SkipSpace(s), h, first, base, payload) == ParseMembers(s, h, first, base, payload)
  {
    SkipTwice(s);
  }

  // ---- File ----

  /** The checks between a parsed entry and its view. */
  method ViewOfEntry(name: string, e: Entry, base: nat, payload: nat) returns (r: Result<TensorView>)
    ensures match MakeView(name, e, base, payload) case Good(v) => r == Success(v) case Bad(m) => r == Failure(m)
  {
    if e.offEnd < e.offStart || e.offEnd > payload {
      return Failure("out-of-range data_offsets");
    }
    var n := ElementCount(e.shape);
    if n.Failure? { return Failure(n.message); }
    var size := DtypeSize(e.dtype);
    if size == 0 || n.value > SIZE_MAX / size { return Failure("byte size overflows size_t"); }
    if n.value * size != e.offEnd - e.offStart { return Failure("nbytes/shape mismatch"); }
    return Success(TensorView(name, e.dtype, e.shape, base + e.offStart, e.offEnd - e.offStart));
  }

  /** Every name of the index leads to the tensor of that name, and every tensor is indexed. */
  predicate Indexed(tensors: seq<TensorView>, index: map<string, nat>)
  {
    && index.Keys == Names(tensors)
    && (forall name | name in index :: index[name] < |tensors| && tensors[index[name]].name == name)
    && forall i | 0 <= i < |tensors| :: tensors[i].name in index && index[tensors[i].name] == i
  }

  lemma NamesOf(views: seq<TensorView>, v: TensorView)
    ensures Names(views + [v]) == Names(views) + {v.name}
  {
    assert v in views + [v];
    assert forall u | u in views :: u in views + [v];
  }

  lemma IndexGrows(tensors: seq<TensorView>, index: map<string, nat>, v: TensorView)
    requires Indexed(tensors, index) && v.name !in index
    ensures Indexed(tensors + [v], index[v.name := |tensors|])
  {
    NamesOf(tensors, v);
  }

  class File {
    var tensors: seq<TensorView>
    var index: map<string, nat>

    ghost predicate Valid()
      reads this
    {
      Indexed(tensors, index)
    }

    constructor ()
      ensures Valid() && tensors == []
    {
      tensors, index := [], map[];
    }

    /** One member of the header, after its name and colon. */
    method AddMember(ps: Parser, name: string, seenMetadata: bool, base: nat, payload: nat) returns (r: Result<bool>)
      requires Valid() && ps.Valid()
      modifies this, ps`pos
      ensures Valid() && ps.Valid() && ps.pos >= old(ps.pos)
      ensures var spec := ParseMemberValue(old(ps.Rest()), name, Header(old(tensors), seenMetadata), base, payload);
        match r
        case Success(seen) => spec == Ok(Header(tensors, seen), ps.Rest())
        case Failure(m) => spec == Fail(m)
    {
      if name == METADATA {
        if seenMetadata { return Failure("duplicate '__metadata__' key"); }
        var v := ps.SkipAnyValue();
        if v.Failure? { return Failure(v.message); }
        return Success(true);
      }
      var e := ps.ParseEntryAt();
      if e.Failure? { return Failure(e.message); }
      var v := ViewOfEntry(name, e.value, base, payload);
      if v.Failure? { return Failure(v.message); }
      if name in index { return Failure("duplicate tensor name"); }
      IndexGrows(tensors, index, v.value);
      index := index[name := |tensors|];
      tensors := tensors + [v.value];
      return Success(seenMetadata);
    }

    /** The loop of `File::open` over the header's members, its opening brace behind the cursor. */
    method ReadMembers(ps: Parser, base: nat, payload: nat) returns (r: Result<()>)
      requires Valid() && ps.Valid() && tensors == []
      modifies this, ps`pos
      ensures Valid() && ps.Valid()
      ensures var spec := ParseMembers(old(ps.Rest()), Header([], false), true, base, payload);
        match r
        case Success(_) => spec.Ok? && spec.value.views == tensors && spec.rest == ps.Rest()
        case Failure(m) => spec == Fail(m)
    {
      var first, seenMetadata := true, false;
      while true
        invariant Valid() && ps.Valid()
        invariant ParseMembers(ps.Rest(), Header(tensors, seenMetadata), first, base, payload)
          == ParseMembers(old(ps.Rest()), Header([], false), true, base, payload)
        decreases |ps.text| - ps.pos
      {
        ghost var s := ps.Rest();
        var close := ps.Eat('}');
        if close { return Success(()); }
        MembersAfterSpace(s, Header(tensors, seenMetadata), first, base, payload);
        if !first {
          var comma := ps.ExpectChar(',');
          if comma.Failure? { return Failure(comma.message); }
        }
        first := false;
        var name := ps.ParseStringValue();
        if name.Failure? { return Failure(name.message); }
        var colon := ps.ExpectChar(':');
        if colon.Failure? { return Failure(colon.message); }
        var m := AddMember(ps, name.value, seenMetadata, base, payload);
        if m.Failure? { return Failure(m.message); }
        seenMetadata := m.value;
      }
    }

    method ReadHeader(header: string, base: nat, payload: nat) returns (r: Result<()>)
      requires Valid() && tensors == []
      modifies this
      ensures Valid()
      ensures match r
        case Success(_) => ParseHeader(header, base, payload) == Good(tensors)
        case Failure(m) => ParseHeader(header, base, payload) == Bad(m)
    {
      var ps := new Parser(header);
      assert ps.Rest() == header;
      var open := ps.ExpectChar('{');
      if open.Failure? { return Failure(open.message); }
      var members := ReadMembers(ps, base, payload);
      if members.Failure? { return Failure(members.message); }
      ps.SkipWs();
      if ps.pos != |ps.text| { return Failure("unexpected trailing data after header object"); }
      return Success(());
    }

    /** `File::open` of a file holding `file`; on failure the half-built object is discarded. */
    method ReadFile(file: string) returns (r: Result<()>)
      requires Valid() && tensors == []
      modifies this
      ensures Valid()
      ensures match r
        case Success(_) => Open(file) == Good(tensors)
        case Failure(m) => Open(file) == Bad(m)
    {
      if |file| < 8 { return Failure("file too small"); }
      var size := FromLe(file[..8]);
      if size > |file| - 8 { return Failure("header_size exceeds file"); }
      r := ReadHeader(file[8..8 + size], 8 + size, |file| - 8 - size);
    }

    method Find(name: string) returns (r: Option<TensorView>)
      requires Valid()
      ensures r.Some? <==> name in Names(tensors)
      ensures r.Some? ==> r.value in tensors && r.value.name == name
      ensures r.Some? ==> forall v | v in tensors && v.name == name :: v == r.value
    {
      if name !in index { return None; }
      return Some(tensors[index[name]]);
    }

    /** `get`, which throws where `find` returns null. */
    method Get(name: string) returns (r: Result<TensorView>)
      requires Valid()
      ensures match r
        case Success(v) => v in tensors && v.name == name
        case Failure(_) => name !in Names(tensors)
    {
      var v := Find(name);
      match v
      case None => return Failure("no tensor of that name");
      case Some(t) => return Success(t);
    }
  }
}

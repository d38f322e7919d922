/** The other direction: whatever the safetensors reader accepts is a header of the grammar that means what it returned. */
module SafetensorsAccepts {
  import opened MachineWords
  import opened Results
  import opened JsonText
  import opened SafetensorsParser
  import opened SafetensorsDocument
  import opened SafetensorsReads
  import opened SafetensorsHeader
  import opened SafetensorsOpen
  import J = JsonDocument

  /** White space and the character, then what is left. */
  lemma {:induction false} ExpectIs(s: string, c: char)
    requires Expect(s, c).Ok?
    ensures SkipSpace(s) == [c] + Expect(s, c).rest
  {
    FirstOf(SkipSpace(s), c);
  }

  // ---- Strings ----

  /** The escape, its backslash before it, is the piece's text, and denotes what the piece does. */
  predicate IsEscape(s: string, p: Piece, r: Parse<string>)
  {
    r.Ok? && ValidPiece(p) && r.value == PieceValue(p) && ['\\'] + s == PieceThen(p, r.rest)
  }

  lemma UnicodeIsPiece(s: string) returns (p: Piece)
    requires ParseUnicode(s).Ok?
    ensures IsEscape(['u'] + s, p, ParseUnicode(s))
  {
    var hi := HexIsLocal(s);
    var t := s[4..];
    TwoChars('\\', 'u', s);
    if IsHigh(Hex4(s)) {
      var lo := HexIsLocal(t[2..]);
      p := Pair(hi, lo);
      assert t == ['\\', 'u'] + t[2..] && t[2..][4..] == t[6..];
    } else {
      p := Unit(hi);
    }
  }

  lemma EscapeIsPiece(s: string) returns (p: Piece)
    requires s != "" && ParseEscape(s).Ok?
    ensures IsEscape(s, p, ParseEscape(s))
  {
    FirstOf(s, s[0]);
    if s[0] == 'u' {
      p := UnicodeIsPiece(s[1..]);
    } else {
      p := Short(s[0]);
      TwoChars('\\', s[0], s[1..]);
    }
  }

  /** The text up to the closing quote is the pieces', and adds what they denote. */
  predicate IsBody(s: string, out: string, ps: seq<Piece>, r: Parse<string>)
  {
    && r.Ok? && ValidPieces(ps) && s == PiecesThen(ps, ['\"'] + r.rest)
    && r.value == out + StringValue(ps)
  }

  lemma NoPiece(s: string, out: string)
    requires s != "" && s[0] == '\"'
    ensures IsBody(s, out, [], Ok(out, s[1..]))
  {
    FirstOf(s, '\"');
    assert out + "" == out;
  }

  lemma OnePiece(s: string, out: string, p: Piece, t: string, tail: seq<Piece>, r: Parse<string>)
    requires ValidPiece(p) && s == PieceThen(p, t) && IsBody(t, out + PieceValue(p), tail, r)
    ensures IsBody(s, out, [p] + tail, r)
  {
    var ps := [p] + tail;
    assert ps[0] == p && ps[1..] == tail;
    ValidMore(ps);
    Reassociate(out, PieceValue(p), StringValue(tail));
  }

  /** A backslash that ends the text is in no string. */
  lemma {:induction false} MoreFollows(s: string, out: string)
    requires s != "" && s[0] == '\\' && ParseBody(s, out).Ok?
    ensures |s| > 1
  {
  }

  lemma {:induction false} BodyIsPieces(s: string, out: string) returns (ps: seq<Piece>)
    requires ParseBody(s, out).Ok?
    ensures IsBody(s, out, ps, ParseBody(s, out))
    decreases |s|
  {
    FirstOf(s, s[0]);
    if s[0] == '\"' {
      ps := [];
      NoPiece(s, out);
    } else if s[0] == '\\' {
      MoreFollows(s, out);
      var e := ParseEscape(s[1..]);
      var p := EscapeIsPiece(s[1..]);
      var tail := BodyIsPieces(e.rest, out + e.value);
      ps := [p] + tail;
      OnePiece(s, out, p, e.rest, tail, ParseBody(s, out));
    } else {
      var tail := BodyIsPieces(s[1..], out + [s[0]]);
      ps := [Plain(s[0])] + tail;
      OnePiece(s, out, Plain(s[0]), s[1..], tail, ParseBody(s, out));
    }
  }

  /** White space, then a string literal and what it denotes. */
  predicate IsString(s: string, w: string, ps: seq<Piece>, r: Parse<string>)
  {
    r.Ok? && IsBlank(w) && ValidPieces(ps) && s == w + LiteralThen(ps, r.rest) && r.value == StringValue(ps)
  }

  lemma StringIsPieces(s: string) returns (w: string, ps: seq<Piece>)
    requires ParseString(s).Ok?
    ensures IsString(s, w, ps, ParseString(s))
    ensures SkipSpace(s) == LiteralThen(ps, ParseString(s).rest)
  {
    w := SpaceIsBlank(s);
    var t := SkipSpace(s);
    FirstOf(t, '\"');
    ps := BodyIsPieces(t[1..], "");
    Lead(StringValue(ps));
  }

  // ---- Integers ----

  lemma DecimalMore(v: nat, d: nat)
    requires v > 0 && d < 10
    ensures Decimal(v * 10 + d) == Decimal(v) + [Digit(d)]
  {
    assert (v * 10 + d) / 10 == v && (v * 10 + d) % 10 == d;
  }

  /** More digits after those of a positive number. */
  predicate Extends(s: string, v: nat, ds: string, r: Parse<nat>)
  {
    r.Ok? && r.value <= INT64_MAX && s == ds + r.rest && Decimal(v) + ds == Decimal(r.value)
  }

  lemma {:induction false} DigitsExtend(s: string, v: nat) returns (ds: string)
    requires 0 < v <= INT64_MAX && ParseDigits(s, v).Ok?
    ensures Extends(s, v, ds, ParseDigits(s, v))
    decreases |s|
  {
    if !StartsDigit(s) {
      ds := "";
      Lead(s);
      assert Decimal(v) + "" == Decimal(v);
    } else {
      var d := DigitValue(s[0]);
      var tail := DigitsExtend(s[1..], v * 10 + d);
      ds := [s[0]] + tail;
      FirstOf(s, s[0]);
      DecimalMore(v, d);
      assert Digit(d) == s[0];
      Reassociate([s[0]], tail, ParseDigits(s, v).rest);
      Reassociate(Decimal(v), [s[0]], tail);
    }
  }

  /** Zeros, then the decimal of the value. */
  predicate IsNumber(s: string, zeros: string, r: Parse<nat>)
  {
    r.Ok? && r.value <= INT64_MAX && AllZeros(zeros) && s == zeros + (Decimal(r.value) + r.rest)
  }

  lemma {:induction false} DigitsAreDecimal(s: string) returns (zeros: string)
    requires StartsDigit(s) && ParseDigits(s, 0).Ok?
    ensures IsNumber(s, zeros, ParseDigits(s, 0))
    decreases |s|
  {
    var r := ParseDigits(s, 0);
    FirstOf(s, s[0]);
    zeros := "";
    if s[0] != '0' {
      var d := DigitValue(s[0]);
      var ds := DigitsExtend(s[1..], d);
      assert Decimal(d) == [s[0]];
      Reassociate([s[0]], ds, r.rest);
      Lead(s);
    } else if StartsDigit(s[1..]) {
      var z := DigitsAreDecimal(s[1..]);
      zeros := ['0'] + z;
      Reassociate(['0'], z, Decimal(r.value) + r.rest);
    } else {
      assert r == Ok(0, s[1..]) && Decimal(0) == "0";
      Lead(s);
    }
  }

  /** An integer, the white space before and after it included; `t` starts with what follows. */
  predicate IsInt(s: string, i: Int, t: string, r: Parse<int>)
  {
    r.Ok? && ValidInt(i) && i.n <= INT64_MAX && r.value == IntValue(i) && s == IntThen(i, t)
  }

  lemma {:induction false} IntParts(w0: string, neg: bool, zeros: string, n: nat, w1: string, rest: string,
      t: string, u: string, s: string)
    requires rest == w1 + t && u == zeros + (Decimal(n) + rest) && s == w0 + MinusThen(neg, u)
    ensures s == IntThen(Int(w0, neg, zeros, n, w1), t)
  {
  }

  lemma IntIs(s: string) returns (i: Int)
    requires ParseInt(s).Ok?
    ensures IsInt(s, i, SkipSpace(ParseInt(s).rest), ParseInt(s))
  {
    var w0 := SpaceIsBlank(s);
    var t := SkipSpace(s);
    var neg := t != "" && t[0] == '-';
    var u := if neg then t[1..] else t;
    if neg { FirstOf(t, '-'); }
    var zeros := DigitsAreDecimal(u);
    var r := ParseDigits(u, 0);
    var w1 := SpaceIsBlank(r.rest);
    i := Int(w0, neg, zeros, r.value, w1);
    IntParts(w0, neg, zeros, r.value, w1, r.rest, SkipSpace(r.rest), u, s);
  }

  /** The integers after the first of a shape, up to its closing bracket. */
  predicate AreInts(t: string, ns: seq<Int>, acc: seq<int>, r: Parse<seq<int>>)
  {
    && r.Ok? && ValidInts(ns) && Values(ns).Some? && r.value == acc + Values(ns).value
    && t == IntsAfter(ns, r.rest)
  }

  lemma NoInts(t: string, acc: seq<int>)
    requires t != "" && t[0] == ']'
    ensures AreInts(t, [], acc, Ok(acc, t[1..]))
  {
    FirstOf(t, ']');
    assert acc + [] == acc;
  }

  lemma AppendTwice(acc: seq<int>, n: int, tail: seq<int>)
    ensures acc + [n] + tail == acc + ([n] + tail)
  {
  }

  lemma {:induction false} ValuesMore(i: Int, ns: seq<Int>)
    requires ValidInt(i) && i.n <= INT64_MAX && ValidInts(ns) && Values(ns).Some?
    ensures ValidInts([i] + ns) && Values([i] + ns) == Some([IntValue(i)] + Values(ns).value)
  {
    assert ([i] + ns)[1..] == ns;
  }

  lemma {:induction false} IntsTextMore(i: Int, ns: seq<Int>, k: string)
    ensures IntsAfter([i] + ns, k) == [','] + IntThen(i, IntsAfter(ns, k))
  {
    assert ([i] + ns)[1..] == ns;
  }

  lemma MoreInts(t: string, i: Int, u: string, ns: seq<Int>, acc: seq<int>, r: Parse<seq<int>>)
    requires ValidInt(i) && i.n <= INT64_MAX && t == [','] + IntThen(i, u) && AreInts(u, ns, acc + [IntValue(i)], r)
    ensures AreInts(t, [i] + ns, acc, r)
  {
    ValuesMore(i, ns);
    IntsTextMore(i, ns, r.rest);
    AppendTwice(acc, IntValue(i), Values(ns).value);
  }

  lemma {:induction false} IntsAre(s: string, acc: seq<int>) returns (ns: seq<Int>)
    requires ParseShape(s, acc, false).Ok?
    ensures AreInts(SkipSpace(s), ns, acc, ParseShape(s, acc, false))
    decreases |s|
  {
    var t := SkipSpace(s);
    if Expect(s, ']').Ok? {
      ns := [];
      NoInts(t, acc);
    } else {
      FirstOf(t, ',');
      var i := IntIs(t[1..]);
      var n := ParseInt(t[1..]);
      var tail := IntsAre(n.rest, acc + [n.value]);
      ns := [i] + tail;
      MoreInts(t, i, SkipSpace(n.rest), tail, acc, ParseShape(s, acc, false));
    }
  }

  /** A shape, its opening bracket and the white space before it included. */
  predicate IsShape(s: string, ws: string, ns: seq<Int>, r: Parse<seq<int>>)
  {
    && r.Ok? && IsBlank(ws) && ValidInts(ns) && Values(ns) == Some(r.value)
    && s == if ns == [] then ws + ([']'] + r.rest) else IntThen(ns[0], IntsAfter(ns[1..], r.rest))
  }

  lemma FirstInt(s: string, i: Int, u: string, ns: seq<Int>, r: Parse<seq<int>>)
    requires ValidInt(i) && i.n <= INT64_MAX && s == IntThen(i, u) && AreInts(u, ns, [] + [IntValue(i)], r)
    ensures IsShape(s, "", [i] + ns, r)
  {
    assert ([i] + ns)[1..] == ns;
    assert [] + [IntValue(i)] == [IntValue(i)];
  }

  lemma ShapeIs(s: string) returns (ws: string, ns: seq<Int>)
    requires ParseShape(s, [], true).Ok?
    ensures IsShape(s, ws, ns, ParseShape(s, [], true))
  {
    if Expect(s, ']').Ok? {
      ws := SpaceIsBlank(s);
      ns := [];
      FirstOf(SkipSpace(s), ']');
    } else {
      ws := "";
      var i := IntIs(s);
      var n := ParseInt(s);
      var tail := IntsAre(n.rest, [] + [n.value]);
      ns := [i] + tail;
      FirstInt(s, i, SkipSpace(n.rest), tail, ParseShape(s, [], true));
    }
  }

  /** The two offsets. */
  predicate AreOffsets(s: string, w: string, a: Int, b: Int, r: Parse<(int, int)>)
  {
    && r.Ok? && IsBlank(w) && ValidInt(a) && ValidInt(b) && a.n <= INT64_MAX && b.n <= INT64_MAX
    && r.value == (IntValue(a), IntValue(b)) && s == w + FieldValueThen(OffsetsField(a, b), r.rest)
  }

  lemma OffsetsAre(s: string) returns (w: string, a: Int, b: Int)
    requires ParseOffsets(s).Ok?
    ensures AreOffsets(s, w, a, b, ParseOffsets(s))
  {
    w := SpaceIsBlank(s);
    var open := Expect(s, '[');
    ExpectIs(s, '[');
    a := IntIs(open.rest);
    var x := ParseInt(open.rest);
    var comma := Expect(x.rest, ',');
    ExpectIs(x.rest, ',');
    b := IntIs(comma.rest);
    ExpectIs(ParseInt(comma.rest).rest, ']');
  }

  // ---- Values that are passed over ----

  lemma {:induction false} TokenIs(s: string) returns (t: string)
    ensures s == t + SkipToken(s) && forall i | 0 <= i < |t| :: !EndsToken(t[i])
    ensures SkipToken(s) != "" ==> EndsToken(SkipToken(s)[0])
    ensures t != "" ==> t[0] == s[0]
    decreases |s|
  {
    t := "";
    if s != "" && !EndsToken(s[0]) {
      var tail := TokenIs(s[1..]);
      t := [s[0]] + tail;
      FirstOf(s, s[0]);
      Reassociate([s[0]], tail, SkipToken(s));
    } else {
      Lead(s);
    }
  }

  /** The parts up to the closing bracket. */
  predicate AreParts(s: string, parts: seq<Part>, curly: bool, depth: nat, r: Parse<()>)
  {
    r.Ok? && Balanced(parts, curly, depth) && s == PartsThen(parts, [CloseOf(curly)] + r.rest)
  }

  lemma MoreParts(s: string, p: Part, t: string, parts: seq<Part>, curly: bool, depth: nat, next: nat, r: Parse<()>)
    requires depth > 0 && AreParts(t, parts, curly, next, r)
    requires match p
      case Lit(ps) => ValidPieces(ps) && s == LiteralThen(ps, t) && next == depth
      case Ch(c) =>
        && c != '\"' && s == [c] + t
        && if c == OpenOf(curly) then next == depth + 1
           else if c == CloseOf(curly) then depth > 1 && next == depth - 1
           else next == depth
    ensures AreParts(s, [p] + parts, curly, depth, r)
  {
    assert ([p] + parts)[1..] == parts;
  }

  lemma {:induction false} ContainerIs(s: string, curly: bool, depth: nat) returns (parts: seq<Part>)
    requires depth > 0 && SkipContainer(s, OpenOf(curly), CloseOf(curly), depth).Ok?
    ensures AreParts(s, parts, curly, depth, SkipContainer(s, OpenOf(curly), CloseOf(curly), depth))
    decreases |s|
  {
    var open, close := OpenOf(curly), CloseOf(curly);
    var r := SkipContainer(s, open, close, depth);
    FirstOf(s, s[0]);
    if s[0] == '\"' {
      var w, ps := StringIsPieces(s);
      var str := ParseString(s);
      var tail := ContainerIs(str.rest, curly, depth);
      parts := [Lit(ps)] + tail;
      MoreParts(s, Lit(ps), str.rest, tail, curly, depth, depth, r);
    } else if s[0] == close && depth == 1 {
      parts := [];
    } else {
      var next := if s[0] == open then depth + 1 else if s[0] == close then depth - 1 else depth;
      var tail := ContainerIs(s[1..], curly, next);
      parts := [Ch(s[0])] + tail;
      MoreParts(s, Ch(s[0]), s[1..], tail, curly, depth, next, r);
    }
  }

  /** A value that is passed over, the white space before it included. */
  predicate IsExtra(s: string, w: string, x: Extra, r: Parse<()>)
  {
    && r.Ok? && IsBlank(w) && ValidExtra(x) && s == w + ExtraThen(x, r.rest)
    && (x == Token("") ==> r.rest != "" && !IsSpace(r.rest[0]))
  }

  lemma BracketIs(t: string, curly: bool) returns (x: Extra)
    requires t != "" && t[0] == OpenOf(curly) && SkipContainer(t[1..], OpenOf(curly), CloseOf(curly), 1).Ok?
    ensures x.Bracketed? && ValidExtra(x)
    ensures t == ExtraThen(x, SkipContainer(t[1..], OpenOf(curly), CloseOf(curly), 1).rest)
  {
    FirstOf(t, t[0]);
    var parts := ContainerIs(t[1..], curly, 1);
    x := Bracketed(curly, parts);
  }

  lemma QuotedIs(t: string) returns (x: Extra)
    requires t != "" && t[0] == '\"' && ParseString(t).Ok?
    ensures x.Json? && ValidExtra(x) && t == ExtraThen(x, ParseString(t).rest)
  {
    var _, ps := StringIsPieces(t);
    assert SkipSpace(t) == t;
    x := Json(J.Str(ps));
  }

  lemma TokenFound(t: string) returns (x: Extra)
    requires t != "" && t[0] !in {'\"', '{', '['} && !IsSpace(t[0])
    ensures x.Token? && ValidExtra(x) && t == ExtraThen(x, SkipToken(t))
    ensures x == Token("") ==> SkipToken(t) == t
  {
    var tok := TokenIs(t);
    x := Token(tok);
  }

  lemma ExtraIs(s: string) returns (w: string, x: Extra)
    requires SkipValue(s).Ok?
    ensures IsExtra(s, w, x, SkipValue(s))
  {
    w := SpaceIsBlank(s);
    var t := SkipSpace(s);
    if t[0] == '\"' {
      x := QuotedIs(t);
    } else if t[0] == '{' {
      x := BracketIs(t, true);
    } else if t[0] == '[' {
      x := BracketIs(t, false);
    } else {
      x := TokenFound(t);
    }
  }

  // ---- Entries ----

  /** A field, the white space around it included; `t` starts with what follows. */
  predicate IsField(s: string, f: Field, t: string, e: Entry, r: Parse<Entry>)
  {
    r.Ok? && ValidField(f) && s == FieldThen(f, t) && Record(e, f.v) == Some(r.value)
  }

  /** A field's value after the white space `w`. */
  predicate IsFieldValue(s: string, w: string, v: FieldValue, key: string, e: Entry, r: Parse<Entry>)
  {
    && r.Ok? && IsBlank(w) && ValidFieldValue(v, key) && s == w + FieldValueThen(v, r.rest) && Record(e, v) == Some(r.value)
    && (v == OtherField(Token("")) ==> r.rest != "" && !IsSpace(r.rest[0]))
  }

  lemma DtypeIs(s: string, e: Entry) returns (w: string, v: FieldValue)
    requires ParseFieldValue(s, "dtype", e).Ok?
    ensures IsFieldValue(s, w, v, "dtype", e, ParseFieldValue(s, "dtype", e))
  {
    var ps;
    w, ps := StringIsPieces(s);
    v := DtypeField(ps);
  }

  lemma ShapeFieldIs(s: string, e: Entry) returns (w: string, v: FieldValue)
    requires ParseFieldValue(s, "shape", e).Ok?
    ensures IsFieldValue(s, w, v, "shape", e, ParseFieldValue(s, "shape", e))
  {
    w := SpaceIsBlank(s);
    ExpectIs(s, '[');
    var ws, ns := ShapeIs(Expect(s, '[').rest);
    v := ShapeField(ws, ns);
  }

  lemma OffsetsFieldIs(s: string, e: Entry) returns (w: string, v: FieldValue)
    requires ParseFieldValue(s, "data_offsets", e).Ok?
    ensures IsFieldValue(s, w, v, "data_offsets", e, ParseFieldValue(s, "data_offsets", e))
  {
    var a, b;
    w, a, b := OffsetsAre(s);
    v := OffsetsField(a, b);
  }

  lemma OtherFieldIs(s: string, key: string, e: Entry) returns (w: string, v: FieldValue)
    requires key != "dtype" && key != "shape" && key != "data_offsets" && ParseFieldValue(s, key, e).Ok?
    ensures IsFieldValue(s, w, v, key, e, ParseFieldValue(s, key, e))
  {
    var x;
    w, x := ExtraIs(s);
    v := OtherField(x);
  }

  lemma FieldValueIs(s: string, key: string, e: Entry) returns (w: string, v: FieldValue)
    requires ParseFieldValue(s, key, e).Ok?
    ensures IsFieldValue(s, w, v, key, e, ParseFieldValue(s, key, e))
  {
    if key == "dtype" {
      w, v := DtypeIs(s, e);
    } else if key == "shape" {
      w, v := ShapeFieldIs(s, e);
    } else if key == "data_offsets" {
      w, v := OffsetsFieldIs(s, e);
    } else {
      w, v := OtherFieldIs(s, key, e);
    }
  }

  lemma FieldParts(s: string, f: Field, t: string, e: Entry, key: Parse<string>, u: string, r: Parse<Entry>)
    requires IsString(s, f.w0, f.key, key) && IsBlank(f.w1) && key.rest == f.w1 + ([':'] + u)
    requires IsFieldValue(u, f.w2, f.v, key.value, e, r) && IsBlank(f.w3) && r.rest == f.w3 + t
    ensures IsField(s, f, t, e, r)
  {
  }

  lemma FieldIs(s: string, e: Entry) returns (f: Field)
    requires ParseField(s, e).Ok?
    ensures IsField(s, f, SkipSpace(ParseField(s, e).rest), e, ParseField(s, e))
  {
    var r := ParseField(s, e);
    var w0, ps := StringIsPieces(s);
    var key := ParseString(s);
    var w1 := SpaceIsBlank(key.rest);
    ExpectIs(key.rest, ':');
    var u := Expect(key.rest, ':').rest;
    var w2, v := FieldValueIs(u, key.value, e);
    var w3 := SpaceIsBlank(r.rest);
    f := Field(w0, ps, w1, w2, v, w3);
    FieldParts(s, f, SkipSpace(r.rest), e, key, u, r);
  }

  /** The fields after the first, up to the closing brace. */
  predicate AreFields(t: string, fs: seq<Field>, e: Entry, r: Parse<Entry>)
  {
    r.Ok? && ValidFields(fs) && RecordAll(e, fs) == Some(r.value) && t == FieldsAfter(fs, r.rest)
  }

  lemma MoreFields(t: string, f: Field, u: string, fs: seq<Field>, e: Entry, one: Parse<Entry>, r: Parse<Entry>, s: string)
    requires t == [','] + s && IsField(s, f, u, e, one) && AreFields(u, fs, one.value, r)
    ensures AreFields(t, [f] + fs, e, r)
  {
    assert ([f] + fs)[1..] == fs;
  }

  lemma {:induction false} FieldsAre(s: string, e: Entry) returns (fs: seq<Field>)
    requires ParseFields(s, e, false).Ok?
    ensures AreFields(SkipSpace(s), fs, e, ParseFields(s, e, false))
    decreases |s|
  {
    var t := SkipSpace(s);
    if Expect(s, '}').Ok? {
      fs := [];
      FirstOf(t, '}');
    } else {
      FirstOf(t, ',');
      var one := ParseField(t[1..], e);
      var f := FieldIs(t[1..], e);
      var tail := FieldsAre(one.rest, one.value);
      fs := [f] + tail;
      MoreFields(t, f, SkipSpace(one.rest), tail, e, one, ParseFields(s, e, false), t[1..]);
    }
  }

  /** An entry, the white space before it included. */
  predicate IsEntry(s: string, w: string, ws: string, fs: seq<Field>, r: Parse<Entry>)
  {
    && r.Ok? && IsBlank(w) && IsBlank(ws) && ValidFields(fs) && RecordAll(NO_FIELDS, fs) == Some(r.value)
    && s == w + MemberValueThen(TensorEntry(ws, fs), r.rest)
  }

  lemma FirstField(s: string, w: string, u: string, f: Field, t: string, fs: seq<Field>, one: Parse<Entry>, r: Parse<Entry>)
    requires IsBlank(w) && s == w + (['{'] + u) && IsField(u, f, t, NO_FIELDS, one) && AreFields(t, fs, one.value, r)
    ensures IsEntry(s, w, "", [f] + fs, r)
  {
    assert ([f] + fs)[1..] == fs;
  }

  lemma EntryIs(s: string) returns (w: string, ws: string, fs: seq<Field>)
    requires ParseEntry(s).Ok?
    ensures IsEntry(s, w, ws, fs, ParseEntry(s))
  {
    w := SpaceIsBlank(s);
    ExpectIs(s, '{');
    var u := Expect(s, '{').rest;
    if Expect(u, '}').Ok? {
      ws := SpaceIsBlank(u);
      fs := [];
      FirstOf(SkipSpace(u), '}');
    } else {
      ws := "";
      var one := ParseField(u, NO_FIELDS);
      var f := FieldIs(u, NO_FIELDS);
      var tail := FieldsAre(one.rest, one.value);
      fs := [f] + tail;
      FirstField(s, w, u, f, SkipSpace(one.rest), tail, one, ParseEntry(s));
    }
  }

  // ---- Headers ----

  /** A member's value after the white space `w`. */
  predicate IsMemberValue(s: string, w: string, v: MemberValue, name: string, r: Parse<Header>)
  {
    && r.Ok? && IsBlank(w) && s == w + MemberValueThen(v, r.rest)
    && match v
       case Metadata(x) => name == METADATA && ValidExtra(x) && (x == Token("") ==> r.rest != "" && !IsSpace(r.rest[0]))
       case TensorEntry(ws, fs) => name != METADATA && IsBlank(ws) && ValidFields(fs)
  }

  /** The value is added to the header as its meaning is. */
  predicate Adds(h: Header, v: MemberValue, name: string, base: nat, payload: nat, r: Parse<Header>)
    requires v.TensorEntry? ==> ValidFields(v.fields)
  {
    r.Ok? && match v
      case Metadata(_) => !h.seenMetadata && r.value == h.(seenMetadata := true)
      case TensorEntry(_, fs) =>
        && RecordAll(NO_FIELDS, fs).Some?
        && var view := MakeView(name, RecordAll(NO_FIELDS, fs).value, base, payload);
           view.Good? && AddView(h, view.value) == Good(r.value)
  }

  lemma MemberValueIs(s: string, name: string, h: Header, base: nat, payload: nat) returns (w: string, v: MemberValue)
    requires ParseMemberValue(s, name, h, base, payload).Ok?
    ensures IsMemberValue(s, w, v, name, ParseMemberValue(s, name, h, base, payload))
    ensures Adds(h, v, name, base, payload, ParseMemberValue(s, name, h, base, payload))
  {
    if name == METADATA {
      var x;
      w, x := ExtraIs(s);
      v := Metadata(x);
    } else {
      var ws, fs;
      w, ws, fs := EntryIs(s);
      v := TensorEntry(ws, fs);
    }
  }

  /** A member, the white space around it included; `t` starts with what follows. */
  predicate IsMember(s: string, m: Member, t: string, h: Header, base: nat, payload: nat, r: Parse<Header>)
  {
    r.Ok? && ValidMember(m) && s == MemberThen(m, t) && Admit(h, m, base, payload) == Some(r.value)
  }

  lemma MemberParts(s: string, m: Member, t: string, h: Header, base: nat, payload: nat, key: Parse<string>, u: string, r: Parse<Header>)
    requires IsString(s, m.w0, m.key, key) && IsBlank(m.w1) && key.rest == m.w1 + ([':'] + u)
    requires IsMemberValue(u, m.w2, m.v, key.value, r) && Adds(h, m.v, key.value, base, payload, r)
    requires IsBlank(m.w3) && r.rest == m.w3 + t
    ensures IsMember(s, m, t, h, base, payload, r)
  {
  }

  lemma MemberIs(s: string, h: Header, base: nat, payload: nat) returns (m: Member)
    requires ParseMember(s, h, base, payload).Ok?
    ensures IsMember(s, m, SkipSpace(ParseMember(s, h, base, payload).rest), h, base, payload, ParseMember(s, h, base, payload))
  {
    var r := ParseMember(s, h, base, payload);
    var w0, ps := StringIsPieces(s);
    var key := ParseString(s);
    var w1 := SpaceIsBlank(key.rest);
    ExpectIs(key.rest, ':');
    var u := Expect(key.rest, ':').rest;
    var w2, v := MemberValueIs(u, key.value, h, base, payload);
    var w3 := SpaceIsBlank(r.rest);
    m := Member(w0, ps, w1, w2, v, w3);
    MemberParts(s, m, SkipSpace(r.rest), h, base, payload, key, u, r);
  }

  /** The members after the first, up to the closing brace. */
  predicate AreMembers(t: string, ms: seq<Member>, h: Header, base: nat, payload: nat, r: Parse<Header>)
  {
    r.Ok? && ValidMembers(ms) && AdmitAll(h, ms, base, payload) == Some(r.value) && t == MembersAfter(ms, r.rest)
  }

  lemma {:induction false} AdmitMore(m: Member, ms: seq<Member>, h: Header, h': Header, base: nat, payload: nat, r: Header)
    requires ValidMember(m) && ValidMembers(ms) && Admit(h, m, base, payload) == Some(h') && AdmitAll(h', ms, base, payload) == Some(r)
    ensures ValidMembers([m] + ms) && AdmitAll(h, [m] + ms, base, payload) == Some(r)
  {
    assert ([m] + ms)[1..] == ms;
  }

  lemma MoreMembers(t: string, m: Member, u: string, ms: seq<Member>, h: Header, base: nat, payload: nat,
      one: Parse<Header>, r: Parse<Header>, s: string)
    requires t == [','] + s && IsMember(s, m, u, h, base, payload, one) && AreMembers(u, ms, one.value, base, payload, r)
    ensures AreMembers(t, [m] + ms, h, base, payload, r)
  {
    AdmitMore(m, ms, h, one.value, base, payload, r.value);
    assert ([m] + ms)[1..] == ms;
  }

  lemma {:induction false} MembersAre(s: string, h: Header, base: nat, payload: nat) returns (ms: seq<Member>)
    requires ParseMembers(s, h, false, base, payload).Ok?
    ensures AreMembers(SkipSpace(s), ms, h, base, payload, ParseMembers(s, h, false, base, payload))
    decreases |s|
  {
    var t := SkipSpace(s);
    if Expect(s, '}').Ok? {
      ms := [];
      FirstOf(t, '}');
    } else {
      FirstOf(t, ',');
      var one := ParseMember(t[1..], h, base, payload);
      var m := MemberIs(t[1..], h, base, payload);
      var tail := MembersAre(one.rest, one.value, base, payload);
      ms := [m] + tail;
      MoreMembers(t, m, SkipSpace(one.rest), tail, h, base, payload, one, ParseMembers(s, h, false, base, payload), t[1..]);
    }
  }

  /** The members of the header object, after its opening brace. */
  predicate AreAllMembers(s: string, w: string, ms: seq<Member>, h: Header, base: nat, payload: nat, r: Parse<Header>)
  {
    && r.Ok? && IsBlank(w) && ValidMembers(ms) && AdmitAll(h, ms, base, payload) == Some(r.value)
    && s == if ms == [] then w + (['}'] + r.rest) else MemberThen(ms[0], MembersAfter(ms[1..], r.rest))
  }

  lemma FirstMember(s: string, m: Member, u: string, ms: seq<Member>, h: Header, base: nat, payload: nat,
      one: Parse<Header>, r: Parse<Header>)
    requires IsMember(s, m, u, h, base, payload, one) && AreMembers(u, ms, one.value, base, payload, r)
    ensures AreAllMembers(s, "", [m] + ms, h, base, payload, r)
  {
    AdmitMore(m, ms, h, one.value, base, payload, r.value);
    assert ([m] + ms)[1..] == ms;
  }

  lemma AllMembersAre(s: string, h: Header, base: nat, payload: nat) returns (w: string, ms: seq<Member>)
    requires ParseMembers(s, h, true, base, payload).Ok?
    ensures AreAllMembers(s, w, ms, h, base, payload, ParseMembers(s, h, true, base, payload))
  {
    if Expect(s, '}').Ok? {
      w := SpaceIsBlank(s);
      ms := [];
      FirstOf(SkipSpace(s), '}');
    } else {
      w := "";
      var one := ParseMember(s, h, base, payload);
      var m := MemberIs(s, h, base, payload);
      var tail := MembersAre(one.rest, one.value, base, payload);
      ms := [m] + tail;
      FirstMember(s, m, SkipSpace(one.rest), tail, h, base, payload, one, ParseMembers(s, h, true, base, payload));
    }
  }

  /** The text is that of the header, which describes the views. */
  predicate Describes(s: string, h: HeaderDoc, base: nat, payload: nat, views: seq<TensorView>)
  {
    ValidHeader(h) && s == HeaderText(h) && HeaderMeaning(h, base, payload) == Some(views)
  }

  ghost predicate HasHeader(s: string, base: nat, payload: nat, views: seq<TensorView>)
  {
    exists h :: Describes(s, h, base, payload, views)
  }

  lemma HeaderParts(s: string, u: string, h: HeaderDoc, base: nat, payload: nat, r: Parse<Header>)
    requires IsBlank(h.w0) && s == h.w0 + (['{'] + u) && AreAllMembers(u, h.w, h.members, Header([], false), base, payload, r)
    requires IsBlank(h.w1) && r.rest == h.w1
    ensures Describes(s, h, base, payload, r.value.views)
  {
  }

  lemma HeaderIs(s: string, base: nat, payload: nat) returns (h: HeaderDoc)
    requires ParseHeader(s, base, payload).Good?
    ensures Describes(s, h, base, payload, ParseHeader(s, base, payload).value)
  {
    var w0 := SpaceIsBlank(s);
    ExpectIs(s, '{');
    var u := Expect(s, '{').rest;
    var w, ms := AllMembersAre(u, Header([], false), base, payload);
    var r := ParseMembers(u, Header([], false), true, base, payload);
    var w1 := SpaceIsBlank(r.rest);
    assert w1 + "" == w1;
    h := HeaderDoc(w0, w, ms, w1);
    HeaderParts(s, u, h, base, payload, r);
  }

  /**
   The reader accepts exactly the texts of headers that describe something, whatever is passed over in them included,
   and returns the views that any such header of the text describes.
   */
  lemma AcceptsExactlyHeaders(s: string, base: nat, payload: nat, views: seq<TensorView>)
    ensures ParseHeader(s, base, payload) == Good(views) <==> HasHeader(s, base, payload, views)
  {
    if ParseHeader(s, base, payload) == Good(views) {
      var h := HeaderIs(s, base, payload);
    }
    forall h | Describes(s, h, base, payload, views) ensures ParseHeader(s, base, payload) == Good(views) {
      HeaderReads(h, base, payload);
    }
  }

  // ---- Files ----

  /** Eight bytes as a number, the lowest first. */
  function Long(s: string): nat
    requires |s| == 8
  {
    s[0] as int + 0x100 * s[1] as int + 0x1_0000 * s[2] as int + 0x100_0000 * s[3] as int + 0x1_0000_0000 * s[4] as int
    + 0x100_0000_0000 * s[5] as int + 0x1_0000_0000_0000 * s[6] as int + 0x100_0000_0000_0000 * s[7] as int
  }

  lemma ByteMore(s: string, i: nat)
    requires i < |s|
    ensures FromLe(s[i..]) == s[i] as int + 0x100 * FromLe(s[i + 1..])
  {
    assert s[i..][1..] == s[i + 1..];
  }

  lemma {:induction false} LongRead(s: string)
    requires |s| == 8
    ensures FromLe(s) == Long(s)
  {
    ByteMore(s, 0);
    ByteMore(s, 1);
    ByteMore(s, 2);
    ByteMore(s, 3);
    ByteMore(s, 4);
    ByteMore(s, 5);
    ByteMore(s, 6);
    ByteMore(s, 7);
    assert s[0..] == s && s[8..] == "";
  }

  /** A file is its header's length, that header, and the payload the views lie in. */
  ghost predicate IsFile(file: string, size: string, header: string, payload: string, views: seq<TensorView>)
  {
    && file == size + header + payload && |size| == 8 && Long(size) == |header|
    && HasHeader(header, 8 + |header|, |payload|, views)
  }

  lemma PartsAccepted(size: string, header: string, payload: string, views: seq<TensorView>)
    requires |size| == 8 && Long(size) == |header|
    ensures Open(size + header + payload) == Good(views) <==> HasHeader(header, 8 + |header|, |payload|, views)
  {
    LongRead(size);
    OpenParts(size, header, payload, 8 + |header|);
    AcceptsExactlyHeaders(header, 8 + |header|, |payload|, views);
  }

  lemma OpenIsLong(file: string)
    requires Open(file).Good?
    ensures |file| >= 8 && FromLe(file[..8]) <= |file| - 8
  {
  }

  lemma FileIsParts(file: string) returns (size: string, header: string, payload: string)
    requires Open(file).Good?
    ensures file == size + header + payload && |size| == 8 && Long(size) == |header|
  {
    OpenIsLong(file);
    size := file[..8];
    LongRead(size);
    header, payload := file[8..8 + Long(size)], file[8 + Long(size)..];
  }

  /** A file opens exactly when it is such a file, and gives what its header describes. */
  lemma OpensExactly(file: string, views: seq<TensorView>)
    ensures Open(file) == Good(views) <==> exists size, header, payload :: IsFile(file, size, header, payload, views)
  {
    if Open(file) == Good(views) {
      var size, header, payload := FileIsParts(file);
      PartsAccepted(size, header, payload, views);
      assert IsFile(file, size, header, payload, views);
    }
    forall size, header, payload | IsFile(file, size, header, payload, views) ensures Open(file) == Good(views) {
      PartsAccepted(size, header, payload, views);
    }
  }
}

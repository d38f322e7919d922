/** The general JSON parser, as functions on the text that is left. */
module JsonParser {
  import opened Results
  import opened JsonText
  import opened JsonDocument

  const MAX_DEPTH: nat := 256

  /** A parsed value. A finite number is kept as its lexeme, the conversion to double being opaque. */
  datatype Value =
    | VNull
    | VBool(b: bool)
    | VNumber(lexeme: string)
    | VString(s: string)
    | VArray(elems: seq<Value>)
    | VObject(members: seq<(string, Value)>)

  /** `peek`: the next byte, NUL at the end. */
  function Peek(s: string): char
  {
    if s == "" then '\0' else s[0]
  }

  function SkipDigits(s: string): (r: string)
    ensures |r| <= |s|
    ensures s != "" && IsDigit(s[0]) ==> |r| < |s|
  {
    if s != "" && IsDigit(s[0]) then SkipDigits(s[1..]) else s
  }

  // ---- Strings ----

  function ParseHex4(s: string): Parse<nat>
  {
    if |s| < 4 then Fail("truncated \\u escape")
    else if Hex4(s) < 0 then Fail("bad hex digit in \\u escape")
    else Ok(Hex4(s), s[4..])
  }

  /** The code point of a \u escape, the text after it, and the bytes an unpaired high surrogate leaves behind. */
  function ParseUnicode(s: string): (r: Parse<string>)
    ensures r.Ok? ==> |r.rest| < |s|
  {
    var first := ParseHex4(s);
    if first.Fail? then Fail(first.message)
    else if IsHigh(first.value) && |first.rest| >= 2 && first.rest[0] == '\\' && first.rest[1] == 'u' then
      var second := ParseHex4(first.rest[2..]);
      if second.Fail? then Fail(second.message)
      else if IsLow(second.value) then Ok(Utf8(Combine(first.value, second.value)), second.rest)
      else Ok(Utf8(first.value) + Utf8(second.value), second.rest)
    else Ok(Utf8(first.value), first.rest)
  }

  /** What an escape denotes, after its backslash. */
  function ParseEscape(s: string): (r: Parse<string>)
    ensures r.Ok? ==> |r.rest| < |s|
  {
    if s == "" then Fail("unterminated escape in string")
    else if s[0] == 'u' then ParseUnicode(s[1..])
    else
      match Unescape(s[0])
      case None => Fail("unsupported escape sequence")
      case Some(c) => Ok([c], s[1..])
  }

  /** The body of a string literal, after the opening quote. */
  function ParseBody(s: string, out: string): (r: Parse<string>)
    ensures r.Ok? ==> |r.rest| < |s|
    decreases |s|
  {
    if s == "" then Fail("unterminated string")
    else if s[0] == '\"' then Ok(out, s[1..])
    else if s[0] == '\\' then
      var e := ParseEscape(s[1..]);
      if e.Fail? then Fail(e.message) else ParseBody(e.rest, out + e.value)
    else ParseBody(s[1..], out + [s[0]])
  }

  function ParseString(s: string): (r: Parse<string>)
    ensures r.Ok? ==> |r.rest| < |s|
  {
    if Peek(s) != '\"' then Fail("expected string") else ParseBody(s[1..], "")
  }

  // ---- Numbers and literals ----

  /** The text after the number at the head of `s`. */
  function NumberTail(s: string): (r: Parse<()>)
    ensures r.Ok? ==> |r.rest| < |s|
  {
    if Peek(s) == '-' then IntegerTail(s[1..]) else IntegerTail(s)
  }

  function IntegerTail(a: string): (r: Parse<()>)
    ensures r.Ok? ==> |r.rest| < |a|
  {
    if Peek(a) == 'I' then
      if "Infinity" <= a then Ok((), a[8..]) else Fail("invalid literal, expected 'Infinity'")
    else if Peek(a) == '0' then FractionTail(a[1..])
    else if '1' <= Peek(a) <= '9' then FractionTail(SkipDigits(a))
    else Fail("invalid number")
  }

  function FractionTail(s: string): (r: Parse<()>)
    ensures r.Ok? ==> |r.rest| <= |s|
  {
    if Peek(s) != '.' then ExponentTail(s)
    else if !IsDigit(Peek(s[1..])) then Fail("invalid number: digits expected after '.'")
    else ExponentTail(SkipDigits(s[1..]))
  }

  function ExponentTail(s: string): (r: Parse<()>)
    ensures r.Ok? ==> |r.rest| <= |s|
  {
    if Peek(s) != 'e' && Peek(s) != 'E' then Ok((), s)
    else
      var a := if Peek(s[1..]) == '+' || Peek(s[1..]) == '-' then s[2..] else s[1..];
      if !IsDigit(Peek(a)) then Fail("invalid number: digits expected in exponent")
      else Ok((), SkipDigits(a))
  }

  /** `fits` says which finite lexemes convert to a double without a range error. */
  function ParseNumber(s: string, fits: string -> bool): (r: Parse<Value>)
    ensures r.Ok? ==> |r.rest| < |s|
  {
    var tail := NumberTail(s);
    if tail.Fail? then Fail(tail.message)
    else
      var lexeme := s[..|s| - |tail.rest|];
      if IsInfinity(s) || fits(lexeme) then Ok(VNumber(lexeme), tail.rest) else Fail("number out of range")
  }

  /** The number at the head of `s` is a non-finite literal, which is not converted. */
  predicate IsInfinity(s: string)
  {
    Peek(s) == 'I' || (Peek(s) == '-' && Peek(s[1..]) == 'I')
  }

  function ParseLiteral(s: string, lit: string, v: Value, message: string): (r: Parse<Value>)
    requires lit != ""
    ensures r.Ok? ==> |r.rest| < |s|
  {
    if lit <= s then Ok(v, s[|lit|..]) else Fail(message)
  }

  // ---- Values ----

  /** A value at nesting depth `d`. */
  function ParseValue(s: string, d: nat, fits: string -> bool): (r: Parse<Value>)
    ensures r.Ok? ==> |r.rest| < |s|
    decreases |s|, 1
  {
    var t := SkipSpace(s);
    if t == "" then Fail("unexpected end of input")
    else match t[0]
      case '{' => ParseObject(t[1..], d, fits)
      case '[' => ParseArray(t[1..], d, fits)
      case '\"' =>
        var str := ParseString(t);
        if str.Fail? then Fail(str.message) else Ok(VString(str.value), str.rest)
      case 't' => ParseLiteral(t, "true", VBool(true), "invalid literal")
      case 'f' => ParseLiteral(t, "false", VBool(false), "invalid literal")
      case 'n' => ParseLiteral(t, "null", VNull, "invalid literal")
      case 'I' => ParseNumber(t, fits)
      case 'N' => ParseLiteral(t, "NaN", VNumber("NaN"), "invalid literal, expected 'NaN'")
      case c =>
        if c == '-' || IsDigit(c) then ParseNumber(t, fits) else Fail("unexpected character")
  }

  /** An object at depth `d`, after its opening brace. */
  function ParseObject(s: string, d: nat, fits: string -> bool): (r: Parse<Value>)
    ensures r.Ok? ==> |r.rest| <= |s|
    decreases |s|, 4
  {
    if d + 1 > MAX_DEPTH then Fail("maximum nesting depth exceeded")
    else
      var t := SkipSpace(s);
      if Peek(t) == '}' then Ok(VObject([]), t[1..]) else ParseMembers(t, [], d + 1, fits)
  }

  /** An array at depth `d`, after its opening bracket. */
  function ParseArray(s: string, d: nat, fits: string -> bool): (r: Parse<Value>)
    ensures r.Ok? ==> |r.rest| <= |s|
    decreases |s|, 4
  {
    if d + 1 > MAX_DEPTH then Fail("maximum nesting depth exceeded")
    else
      var t := SkipSpace(s);
      if Peek(t) == ']' then Ok(VArray([]), t[1..]) else ParseElems(t, [], d + 1, fits)
  }

  /** The elements of a nonempty array, `acc` holding the ones before. */
  function ParseElems(s: string, acc: seq<Value>, d: nat, fits: string -> bool): (r: Parse<Value>)
    ensures r.Ok? ==> |r.rest| < |s|
    decreases |s|, 2
  {
    var v := ParseValue(s, d, fits);
    if v.Fail? then v
    else
      var t := SkipSpace(v.rest);
      if Peek(t) == ',' then ParseElems(t[1..], acc + [v.value], d, fits)
      else if Peek(t) == ']' then Ok(VArray(acc + [v.value]), t[1..])
      else Fail("expected ',' or ']' in array")
  }

  /** A key, a colon and a value. */
  function ParseMember(s: string, d: nat, fits: string -> bool): (r: Parse<(string, Value)>)
    ensures r.Ok? ==> |r.rest| < |s|
    decreases |s|, 2
  {
    var t := SkipSpace(s);
    if Peek(t) != '\"' then Fail("expected object key string")
    else
      var key := ParseString(t);
      if key.Fail? then Fail(key.message)
      else
        var u := SkipSpace(key.rest);
        if Peek(u) != ':' then Fail("expected ':' after object key")
        else
          var v := ParseValue(u[1..], d, fits);
          if v.Fail? then Fail(v.message) else Ok((key.value, v.value), v.rest)
  }

  /** The members of a nonempty object, `acc` holding the ones before. */
  function ParseMembers(s: string, acc: seq<(string, Value)>, d: nat, fits: string -> bool): (r: Parse<Value>)
    ensures r.Ok? ==> |r.rest| < |s|
    decreases |s|, 3
  {
    var m := ParseMember(s, d, fits);
    if m.Fail? then Fail(m.message)
    else
      var t := SkipSpace(m.rest);
      if Peek(t) == ',' then ParseMembers(t[1..], acc + [m.value], d, fits)
      else if Peek(t) == '}' then Ok(VObject(acc + [m.value]), t[1..])
      else Fail("expected ',' or '}' in object")
  }

  function ParseDocument(s: string, fits: string -> bool): Parse<Value>
  {
    var v := ParseValue(s, 0, fits);
    if v.Fail? then v
    else if SkipSpace(v.rest) != "" then Fail("trailing characters after document")
    else Ok(v.value, "")
  }

  // ---- What the trees mean ----

  /** A tree this parser takes: as RFC 8259 has it, but with unpaired surrogates in its strings. */
  predicate Accepted(d: Doc)
  {
    match d
    case Num(n) => ValidNumber(n)
    case Str(ps) => LenientPieces(ps)
    case EmptyArr(w) => IsBlank(w)
    case Arr(elems) => AcceptedElems(elems)
    case EmptyObj(w) => IsBlank(w)
    case Obj(members) => AcceptedMembers(members)
    case _ => true
  }

  predicate AcceptedElems(e: Elems)
  {
    && IsBlank(e.w0) && Accepted(e.v) && IsBlank(e.w1)
    && (e.MoreElems? ==> AcceptedElems(e.tail))
  }

  predicate AcceptedMembers(m: Members)
  {
    && IsBlank(m.w0) && LenientPieces(m.key) && IsBlank(m.w1) && IsBlank(m.w2) && Accepted(m.v) && IsBlank(m.w3)
    && (m.MoreMembers? ==> AcceptedMembers(m.tail))
  }

  /** The standard's trees are among them. */
  lemma {:induction false} ValidIsAccepted(d: Doc)
    requires Valid(d)
    ensures Accepted(d)
    decreases d
  {
    match d
    case Str(ps) => ValidAreLenient(ps);
    case Arr(elems) => ValidElemsAccepted(elems);
    case Obj(members) => ValidMembersAccepted(members);
    case _ =>
  }

  lemma {:induction false} ValidElemsAccepted(e: Elems)
    requires ValidElems(e)
    ensures AcceptedElems(e)
    decreases e
  {
    ValidIsAccepted(e.v);
    if e.MoreElems? { ValidElemsAccepted(e.tail); }
  }

  lemma {:induction false} ValidMembersAccepted(m: Members)
    requires ValidMembers(m)
    ensures AcceptedMembers(m)
    decreases m
  {
    ValidAreLenient(m.key);
    ValidIsAccepted(m.v);
    if m.MoreMembers? { ValidMembersAccepted(m.tail); }
  }

  function Meaning(d: Doc): Value
  {
    match d
    case Null => VNull
    case True => VBool(true)
    case False => VBool(false)
    case Num(n) => VNumber(NumberText(n))
    case Str(ps) => VString(StringValue(ps))
    case EmptyArr(_) => VArray([])
    case Arr(elems) => VArray(ElemsMeaning(elems))
    case EmptyObj(_) => VObject([])
    case Obj(members) => VObject(MembersMeaning(members))
  }

  function ElemsMeaning(e: Elems): seq<Value>
  {
    [Meaning(e.v)] + if e.LastElem? then [] else ElemsMeaning(e.tail)
  }

  function MembersMeaning(m: Members): seq<(string, Value)>
  {
    [(StringValue(m.key), Meaning(m.v))] + if m.LastMember? then [] else MembersMeaning(m.tail)
  }

  /** Every finite number in the tree converts. */
  predicate Converts(d: Doc, fits: string -> bool)
  {
    match d
    case Num(n) => n.Finite? ==> fits(NumberText(n))
    case Arr(elems) => ElemsConvert(elems, fits)
    case Obj(members) => MembersConvert(members, fits)
    case _ => true
  }

  predicate ElemsConvert(e: Elems, fits: string -> bool)
  {
    Converts(e.v, fits) && (e.MoreElems? ==> ElemsConvert(e.tail, fits))
  }

  predicate MembersConvert(m: Members, fits: string -> bool)
  {
    Converts(m.v, fits) && (m.MoreMembers? ==> MembersConvert(m.tail, fits))
  }

  // ---- Parsing undoes rendering ----

  /** The text goes on with a unit, which a high surrogate before it would be read together with. */
  predicate StartsUnicode(k: string) { |k| >= 2 && k[0] == '\\' && k[1] == 'u' }

  lemma UnitParses(h: string, k: string)
    requires LenientPiece(Unit(h)) && (IsHigh(Hex4(h)) ==> !StartsUnicode(k))
    ensures ParseUnicode(h + k) == Ok(PieceValue(Unit(h)), k)
  {
    assert (h + k)[4..] == k;
    HexPrefixLocal(h, k, 4);
  }

  lemma PairParses(hi: string, lo: string, k: string)
    requires LenientPiece(Pair(hi, lo))
    ensures ParseUnicode(hi + (['\\', 'u'] + (lo + k))) == Ok(PieceValue(Pair(hi, lo)), k)
  {
    var t := ['\\', 'u'] + (lo + k);
    assert (hi + t)[4..] == t && t[2..] == lo + k && (lo + k)[4..] == k;
    HexPrefixLocal(hi, t, 4);
    HexPrefixLocal(lo, k, 4);
  }

  /** A \u escape or pair, once its code point is known. */
  lemma {:induction false} UnicodeParses(t: string, v: string, k: string, out: string)
    requires ParseUnicode(t) == Ok(v, k)
    ensures ParseBody(['\\', 'u'] + t, out) == ParseBody(k, out + v)
  {
    assert (['\\', 'u'] + t)[1..] == ['u'] + t && (['u'] + t)[1..] == t;
  }

  lemma {:induction false} PieceParses(p: Piece, k: string, out: string)
    requires LenientPiece(p) && (IsLoneHigh(p) ==> !StartsUnicode(k))
    ensures ParseBody(PieceThen(p, k), out) == ParseBody(k, out + PieceValue(p))
  {
    match p
    case Plain(c) =>
      assert ([c] + k)[1..] == k;
    case Short(e) =>
      assert (['\\', e] + k)[1..] == [e] + k && ([e] + k)[1..] == k;
    case Unit(h) =>
      UnitParses(h, k);
      UnicodeParses(h + k, PieceValue(p), k, out);
    case Pair(hi, lo) =>
      PairParses(hi, lo, k);
      UnicodeParses(hi + (['\\', 'u'] + (lo + k)), PieceValue(p), k, out);
  }

  lemma {:induction false} UnicodeStarts(ps: seq<Piece>, k: string)
    requires LenientPieces(ps)
    ensures StartsUnicode(PiecesThen(ps, ['\"'] + k)) <==> ps != [] && IsUnicode(ps[0])
  {
  }

  lemma {:induction false} BodyParses(ps: seq<Piece>, k: string, out: string)
    requires LenientPieces(ps)
    ensures ParseBody(PiecesThen(ps, ['\"'] + k), out) == Ok(out + StringValue(ps), k)
  {
    if ps == [] {
      assert (['\"'] + k)[1..] == k && out + "" == out;
    } else {
      UnicodeStarts(ps[1..], k);
      PieceParses(ps[0], PiecesThen(ps[1..], ['\"'] + k), out);
      BodyParses(ps[1..], k, out + PieceValue(ps[0]));
      assert out + PieceValue(ps[0]) + StringValue(ps[1..]) == out + StringValue(ps);
    }
  }

  lemma {:induction false} StringParses(ps: seq<Piece>, k: string)
    requires LenientPieces(ps)
    ensures LiteralThen(ps, k) != "" && LiteralThen(ps, k)[0] == '\"'
    ensures ParseString(LiteralThen(ps, k)) == Ok(StringValue(ps), k)
  {
    BodyParses(ps, k, "");
    assert LiteralThen(ps, k)[1..] == PiecesThen(ps, ['\"'] + k);
    Lead(StringValue(ps));
  }

  lemma {:induction false} DigitsSkipped(ds: string, k: string)
    requires AreDigits(ds) && !IsDigit(Peek(k))
    ensures SkipDigits(ds + k) == k
  {
    if ds == "" {
      assert ds + k == k;
    } else {
      assert (ds + k)[1..] == ds[1..] + k;
      DigitsSkipped(ds[1..], k);
    }
  }

  lemma ExponentParses(x: Exponent, k: string)
    requires ValidExponent(x) && Delimited(k)
    ensures ExponentTail(ExponentThen(x, k)) == Ok((), k)
  {
    if x.Exponent? {
      var s := ExponentThen(x, k);
      assert s[1..] == x.sign + (x.digits + k);
      DigitsSkipped(x.digits, k);
      if x.sign == "" {
        assert s[1..] == x.digits + k;
      } else {
        assert s[2..] == x.digits + k;
      }
    }
  }

  lemma FractionParses(frac: string, x: Exponent, k: string)
    requires AreDigits(frac) && ValidExponent(x) && Delimited(k)
    ensures !IsDigit(Peek(FractionThen(frac, ExponentThen(x, k))))
    ensures FractionTail(FractionThen(frac, ExponentThen(x, k))) == Ok((), k)
  {
    var t := ExponentThen(x, k);
    ExponentParses(x, k);
    if frac != "" {
      assert FractionThen(frac, t)[1..] == frac + t;
      DigitsSkipped(frac, t);
    }
  }

  lemma IntegerParses(digits: string, t: string)
    requires digits != "" && AreDigits(digits) && (digits[0] == '0' ==> |digits| == 1) && !IsDigit(Peek(t))
    ensures IntegerTail(digits + t) == FractionTail(t) && IsDigit(Peek(digits + t))
  {
    var a := digits + t;
    assert a[0] == digits[0];
    if digits[0] == '0' {
      assert a[1..] == t;
    } else {
      DigitsSkipped(digits, t);
    }
  }

  lemma FiniteParses(n: Number, k: string)
    requires n.Finite? && ValidNumber(n) && Delimited(k)
    ensures NumberTail(NumberThen(n, k)) == Ok((), k)
    ensures !IsInfinity(NumberThen(n, k))
  {
    var t := FractionThen(n.frac, ExponentThen(n.exp, k));
    FractionParses(n.frac, n.exp, k);
    IntegerParses(n.digits, t);
    if n.neg {
      assert NumberThen(n, k)[1..] == n.digits + t;
    }
  }

  lemma InfinityParses(neg: bool, k: string)
    ensures NumberTail(NumberThen(Infinity(neg), k)) == Ok((), k)
    ensures IsInfinity(NumberThen(Infinity(neg), k))
  {
    var a := "Infinity" + k;
    if neg {
      assert NumberThen(Infinity(neg), k)[1..] == a;
    }
    assert a[8..] == k;
  }

  /** The first byte of a number that is not the NaN literal. */
  lemma NumberStart(n: Number, k: string)
    requires ValidNumber(n) && !n.NaN?
    ensures var s := NumberThen(n, k); s != "" && (s[0] == '-' || IsDigit(s[0]) || s[0] == 'I')
  {
    if n.Finite? {
      assert (n.digits + FractionThen(n.frac, ExponentThen(n.exp, k)))[0] == n.digits[0];
    }
  }

  lemma NumberParses(n: Number, k: string, fits: string -> bool)
    requires ValidNumber(n) && !n.NaN? && Delimited(k)
    ensures ParseNumber(NumberThen(n, k), fits)
         == if n.Finite? && !fits(NumberText(n)) then Fail("number out of range") else Ok(VNumber(NumberText(n)), k)
  {
    var s := NumberThen(n, k);
    if n.Finite? {
      FiniteParses(n, k);
    } else {
      InfinityParses(n.neg, k);
    }
    NumberAppend(n, k);
    assert s[..|s| - |k|] == NumberText(n);
  }

  /** The result of parsing a rendering: the tree's meaning if it is shallow enough and its numbers convert, else a failure. */
  ghost predicate Answers(r: Parse<Value>, ok: bool, v: Value, k: string)
  {
    if ok then r == Ok(v, k) else r.Fail?
  }

  lemma {:induction false} KeywordParses(d: Doc, k: string, depth: nat, fits: string -> bool)
    requires d.Null? || d.True? || d.False? || d == Num(NaN)
    ensures ParseValue(Then(d, k), depth, fits) == Ok(Meaning(d), k)
  {
    var t := Then(d, k);
    var n := if d.Null? || d.True? then 4 else if d.False? then 5 else 3;
    assert t[n..] == k;
    assert t[0] == match d case Null => 'n' case True => 't' case False => 'f' case _ => 'N';
    assert NumberText(NaN) == "NaN";
  }

  lemma {:induction false} StringDispatch(s: string, depth: nat, fits: string -> bool, v: string, k: string)
    requires s != "" && s[0] == '\"' && ParseString(s) == Ok(v, k)
    ensures ParseValue(s, depth, fits) == Ok(VString(v), k)
  {
    assert SkipSpace(s) == s;
  }

  lemma {:induction false} NumberDispatch(s: string, depth: nat, fits: string -> bool)
    requires s != "" && (s[0] == '-' || IsDigit(s[0]) || s[0] == 'I')
    ensures ParseValue(s, depth, fits) == ParseNumber(s, fits)
  {
    assert SkipSpace(s) == s;
  }

  lemma {:induction false} ScalarParses(d: Doc, k: string, depth: nat, fits: string -> bool)
    requires Accepted(d) && Delimited(k) && !d.Arr? && !d.Obj? && !d.EmptyArr? && !d.EmptyObj?
    ensures Answers(ParseValue(Then(d, k), depth, fits), Converts(d, fits), Meaning(d), k)
  {
    if d.Str? {
      StringParses(d.ps, k);
      StringDispatch(LiteralThen(d.ps, k), depth, fits, StringValue(d.ps), k);
    } else if d.Num? && !d.n.NaN? {
      NumberStart(d.n, k);
      NumberParses(d.n, k, fits);
      NumberDispatch(NumberThen(d.n, k), depth, fits);
    } else {
      KeywordParses(d, k, depth, fits);
    }
  }

  /** White space before a value is skipped. */
  lemma {:induction false} LeadingBlank(w: string, t: string, depth: nat, fits: string -> bool)
    requires IsBlank(w)
    ensures ParseValue(w + t, depth, fits) == ParseValue(t, depth, fits)
  {
    SkipBlank(w, t);
  }

  lemma {:induction false} SkipTwice(s: string, depth: nat, fits: string -> bool)
    ensures ParseElems(SkipSpace(s), [], depth, fits) == ParseElems(s, [], depth, fits)
    ensures ParseMembers(SkipSpace(s), [], depth, fits) == ParseMembers(s, [], depth, fits)
  {
    assert SkipSpace(SkipSpace(s)) == SkipSpace(s);
    assert ParseValue(SkipSpace(s), depth, fits) == ParseValue(s, depth, fits);
    assert ParseMember(SkipSpace(s), depth, fits) == ParseMember(s, depth, fits);
  }

  lemma {:induction false} EmptyParses(w: string, k: string, depth: nat, fits: string -> bool)
    requires IsBlank(w) && depth + 1 <= MAX_DEPTH
    ensures ParseObject(w + (['}'] + k), depth, fits) == Ok(VObject([]), k)
    ensures ParseArray(w + ([']'] + k), depth, fits) == Ok(VArray([]), k)
  {
    EmptyContainer(w, '}', k);
    EmptyContainer(w, ']', k);
  }

  /** A container that is not empty is what its first member or element starts. */
  lemma {:induction false} NonEmptyParses(s: string, depth: nat, fits: string -> bool)
    requires depth + 1 <= MAX_DEPTH
    ensures Peek(SkipSpace(s)) != '}' ==> ParseObject(s, depth, fits) == ParseMembers(s, [], depth + 1, fits)
    ensures Peek(SkipSpace(s)) != ']' ==> ParseArray(s, depth, fits) == ParseElems(s, [], depth + 1, fits)
  {
    SkipTwice(s, depth + 1, fits);
  }

  lemma AfterBracket(c: char, t: string)
    ensures ([c] + t)[0] == c && ([c] + t)[1..] == t
  {
  }

  /** The outcome for a tree at some depth. */
  ghost predicate Parses(r: Parse<Value>, d: Doc, k: string, depth: nat, fits: string -> bool)
  {
    Answers(r, depth + Depth(d) <= MAX_DEPTH && Converts(d, fits), Meaning(d), k)
  }

  lemma {:induction false} ObjectFromMembers(m: Members, t: string, k: string, depth: nat, fits: string -> bool, r: Parse<Value>)
    requires AcceptedMembers(m) && depth + 1 <= MAX_DEPTH && t == MembersThen(m, ['}'] + k)
    requires r == ParseMembers(t, [], depth + 1, fits)
    requires Answers(r, depth + 1 + MembersDepth(m) <= MAX_DEPTH && MembersConvert(m, fits), VObject([] + MembersMeaning(m)), k)
    ensures Parses(ParseObject(t, depth, fits), Obj(m), k, depth, fits)
  {
    MembersStart(m, ['}'] + k);
    NonEmptyParses(t, depth, fits);
    assert [] + MembersMeaning(m) == MembersMeaning(m);
  }

  lemma {:induction false} ArrayFromElems(e: Elems, t: string, k: string, depth: nat, fits: string -> bool, r: Parse<Value>)
    requires AcceptedElems(e) && depth + 1 <= MAX_DEPTH && t == ElemsThen(e, [']'] + k)
    requires r == ParseElems(t, [], depth + 1, fits)
    requires Answers(r, depth + 1 + ElemsDepth(e) <= MAX_DEPTH && ElemsConvert(e, fits), VArray([] + ElemsMeaning(e)), k)
    ensures Parses(ParseArray(t, depth, fits), Arr(e), k, depth, fits)
  {
    ElemsStart(e, [']'] + k);
    NonEmptyParses(t, depth, fits);
    assert [] + ElemsMeaning(e) == ElemsMeaning(e);
  }

  /** A container's text after its bracket. */
  function Inside(d: Doc, k: string): (t: string)
    requires d.Obj? || d.EmptyObj? || d.Arr? || d.EmptyArr?
    ensures Then(d, k) == [if d.Obj? || d.EmptyObj? then '{' else '['] + t
  {
    match d
    case Obj(members) => MembersThen(members, ['}'] + k)
    case EmptyObj(w) => w + (['}'] + k)
    case Arr(elems) => ElemsThen(elems, [']'] + k)
    case EmptyArr(w) => w + ([']'] + k)
  }

  lemma {:induction false} TooDeep(d: Doc, s: string, k: string, depth: nat, fits: string -> bool)
    requires Depth(d) >= 1 && depth + 1 > MAX_DEPTH
    ensures Parses(ParseObject(s, depth, fits), d, k, depth, fits) && Parses(ParseArray(s, depth, fits), d, k, depth, fits)
  {
  }

  lemma {:induction false} EmptyParsesAs(w: string, k: string, depth: nat, fits: string -> bool)
    requires IsBlank(w) && depth + 1 <= MAX_DEPTH
    ensures Parses(ParseObject(Inside(EmptyObj(w), k), depth, fits), EmptyObj(w), k, depth, fits)
    ensures Parses(ParseArray(Inside(EmptyArr(w), k), depth, fits), EmptyArr(w), k, depth, fits)
  {
    EmptyParses(w, k, depth, fits);
  }

  lemma {:induction false} ObjectParses(d: Doc, k: string, depth: nat, fits: string -> bool)
    requires Accepted(d) && (d.Obj? || d.EmptyObj?) && depth <= MAX_DEPTH
    ensures Parses(ParseObject(Inside(d, k), depth, fits), d, k, depth, fits)
    decreases d, 0
  {
    if depth + 1 > MAX_DEPTH {
      TooDeep(d, Inside(d, k), k, depth, fits);
    } else if d.EmptyObj? {
      EmptyParsesAs(d.w, k, depth, fits);
    } else {
      MembersParse(d.members, k, [], depth + 1, fits);
      ObjectFromMembers(d.members, Inside(d, k), k, depth, fits, ParseMembers(Inside(d, k), [], depth + 1, fits));
    }
  }

  lemma {:induction false} ArrayParses(d: Doc, k: string, depth: nat, fits: string -> bool)
    requires Accepted(d) && (d.Arr? || d.EmptyArr?) && depth <= MAX_DEPTH
    ensures Parses(ParseArray(Inside(d, k), depth, fits), d, k, depth, fits)
    decreases d, 0
  {
    if depth + 1 > MAX_DEPTH {
      TooDeep(d, Inside(d, k), k, depth, fits);
    } else if d.EmptyArr? {
      EmptyParsesAs(d.w, k, depth, fits);
    } else {
      ElemsParse(d.elems, k, [], depth + 1, fits);
      ArrayFromElems(d.elems, Inside(d, k), k, depth, fits, ParseElems(Inside(d, k), [], depth + 1, fits));
    }
  }

  /** The bracket decides what a container is parsed as. */
  lemma {:induction false} ContainerDispatch(t: string, depth: nat, fits: string -> bool)
    ensures ParseValue(['{'] + t, depth, fits) == ParseObject(t, depth, fits)
    ensures ParseValue(['['] + t, depth, fits) == ParseArray(t, depth, fits)
  {
    AfterBracket('{', t);
    AfterBracket('[', t);
  }

  lemma {:induction false} ValueParses(d: Doc, k: string, depth: nat, fits: string -> bool)
    requires Accepted(d) && Delimited(k) && depth <= MAX_DEPTH
    ensures Answers(ParseValue(Then(d, k), depth, fits),
                    depth + Depth(d) <= MAX_DEPTH && Converts(d, fits), Meaning(d), k)
    decreases d, 1
  {
    if d.Obj? || d.EmptyObj? {
      ContainerDispatch(Inside(d, k), depth, fits);
      ObjectParses(d, k, depth, fits);
    } else if d.Arr? || d.EmptyArr? {
      ContainerDispatch(Inside(d, k), depth, fits);
      ArrayParses(d, k, depth, fits);
    } else {
      ScalarParses(d, k, depth, fits);
    }
  }

  lemma {:induction false} EmptyContainer(w: string, close: char, k: string)
    requires IsBlank(w) && !IsSpace(close)
    ensures SkipSpace(w + ([close] + k)) == [close] + k && ([close] + k)[1..] == k
  {
    SkipBlank(w, [close] + k);
  }

  /** A value's text starts with neither white space nor a closing bracket. */
  lemma {:induction false} ValueStart(d: Doc, k: string)
    requires Accepted(d)
    ensures SkipSpace(Then(d, k)) == Then(d, k) != "" && Then(d, k)[0] != ']'
  {
    if d.Num? && !d.n.NaN? {
      NumberStart(d.n, k);
    }
  }

  lemma {:induction false} ElemsStart(e: Elems, k: string)
    requires AcceptedElems(e)
    ensures Peek(SkipSpace(ElemsThen(e, k))) != ']'
  {
    var k' := e.w1 + (if e.LastElem? then k else [','] + ElemsThen(e.tail, k));
    ValueStart(e.v, k');
    SkipBlank(e.w0, Then(e.v, k'));
  }

  lemma {:induction false} MembersStart(m: Members, k: string)
    requires AcceptedMembers(m)
    ensures Peek(SkipSpace(MembersThen(m, k))) == '\"'
  {
    var k' := m.w3 + (if m.LastMember? then k else [','] + MembersThen(m.tail, k));
    SkipBlank(m.w0, LiteralThen(m.key, m.w1 + ([':'] + (m.w2 + Then(m.v, k')))));
  }

  lemma {:induction false} ElemsParse(e: Elems, k: string, acc: seq<Value>, depth: nat, fits: string -> bool)
    requires AcceptedElems(e) && depth <= MAX_DEPTH
    ensures Answers(ParseElems(ElemsThen(e, [']'] + k), acc, depth, fits),
                    depth + ElemsDepth(e) <= MAX_DEPTH && ElemsConvert(e, fits), VArray(acc + ElemsMeaning(e)), k)
    decreases e, 2
  {
    var after := if e.LastElem? then [']'] + k else [','] + ElemsThen(e.tail, [']'] + k);
    BlankDelimited(e.w1, after);
    LeadingBlank(e.w0, Then(e.v, e.w1 + after), depth, fits);
    ValueParses(e.v, e.w1 + after, depth, fits);
    SkipBlank(e.w1, after);
    if e.LastElem? {
      assert after[1..] == k;
      assert acc + ElemsMeaning(e) == acc + [Meaning(e.v)];
    } else {
      assert after[1..] == ElemsThen(e.tail, [']'] + k);
      ElemsParse(e.tail, k, acc + [Meaning(e.v)], depth, fits);
      assert acc + ElemsMeaning(e) == acc + [Meaning(e.v)] + ElemsMeaning(e.tail);
    }
  }

  lemma {:induction false} MemberParses(m: Members, after: string, depth: nat, fits: string -> bool)
    requires AcceptedMembers(m) && depth <= MAX_DEPTH && Delimited(after)
    ensures var r := ParseMember(m.w0 + LiteralThen(m.key, m.w1 + ([':'] + (m.w2 + Then(m.v, m.w3 + after)))), depth, fits);
            if depth + Depth(m.v) <= MAX_DEPTH && Converts(m.v, fits)
            then r == Ok((StringValue(m.key), Meaning(m.v)), m.w3 + after) else r.Fail?
    decreases m, 2
  {
    var value := m.w2 + Then(m.v, m.w3 + after);
    var colon := m.w1 + ([':'] + value);
    SkipBlank(m.w0, LiteralThen(m.key, colon));
    StringParses(m.key, colon);
    SkipBlank(m.w1, [':'] + value);
    assert ([':'] + value)[1..] == value;
    BlankDelimited(m.w3, after);
    LeadingBlank(m.w2, Then(m.v, m.w3 + after), depth, fits);
    ValueParses(m.v, m.w3 + after, depth, fits);
  }

  lemma {:induction false} MembersParse(m: Members, k: string, acc: seq<(string, Value)>, depth: nat, fits: string -> bool)
    requires AcceptedMembers(m) && depth <= MAX_DEPTH
    ensures Answers(ParseMembers(MembersThen(m, ['}'] + k), acc, depth, fits),
                    depth + MembersDepth(m) <= MAX_DEPTH && MembersConvert(m, fits), VObject(acc + MembersMeaning(m)), k)
    decreases m, 3
  {
    var after := if m.LastMember? then ['}'] + k else [','] + MembersThen(m.tail, ['}'] + k);
    var member := (StringValue(m.key), Meaning(m.v));
    MemberParses(m, after, depth, fits);
    SkipBlank(m.w3, after);
    if m.LastMember? {
      assert after[1..] == k;
      assert acc + MembersMeaning(m) == acc + [member];
    } else {
      assert after[1..] == MembersThen(m.tail, ['}'] + k);
      MembersParse(m.tail, k, acc + [member], depth, fits);
      assert acc + MembersMeaning(m) == acc + [member] + MembersMeaning(m.tail);
    }
  }

  /**
   RFC 8259, and unpaired surrogates besides: whatever the white space, escapes and number spellings, a document
   parses to the value it denotes exactly when its containers nest at most 256 deep and its finite numbers convert.
   */
  lemma {:induction false} DocumentParses(w: string, d: Doc, w': string, fits: string -> bool)
    requires IsBlank(w) && Accepted(d) && IsBlank(w')
    ensures Answers(ParseDocument(w + Then(d, w'), fits), Depth(d) <= 256 && Converts(d, fits), Meaning(d), "")
  {
    assert w' == w' + "";
    BlankDelimited(w', "");
    LeadingBlank(w, Then(d, w'), 0, fits);
    ValueParses(d, w', 0, fits);
    SkipBlank(w', "");
  }
}

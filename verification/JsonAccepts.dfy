/** The other direction: whatever the general JSON parser accepts is the rendering of a tree that means what it returned. */
module JsonAccepts {
  import opened Results
  import opened JsonText
  import opened JsonDocument
  import opened JsonParser

  // ---- Strings ----

  /** The escape, its backslash before it, is the piece's text, and denotes what the piece does. */
  predicate IsEscape(s: string, p: Piece, r: Parse<string>)
  {
    && r.Ok? && LenientPiece(p) && r.value == PieceValue(p)
    && ['\\'] + s == PieceThen(p, r.rest)
    && (IsLoneHigh(p) ==> !StartsUnicode(r.rest))
  }

  lemma UnicodeIsPiece(s: string) returns (p: Piece)
    requires ParseUnicode(s).Ok?
    ensures IsEscape(['u'] + s, p, ParseUnicode(s))
  {
    var hi := HexIsLocal(s);
    var t := s[4..];
    TwoChars('\\', 'u', s);
    if IsHigh(Hex4(s)) && StartsUnicode(t) {
      var lo := HexIsLocal(t[2..]);
      p := Pair(hi, lo);
      assert t == ['\\', 'u'] + t[2..];
    } else {
      p := Unit(hi);
    }
  }

  lemma EscapeIsPiece(s: string) returns (p: Piece)
    requires ParseEscape(s).Ok?
    ensures IsEscape(s, p, ParseEscape(s))
  {
    FirstOf(s, s[0]);
    if s[0] == 'u' {
      p := UnicodeIsPiece(s[1..]);
    } else {
      p := Short(s[0]);
      TwoChars('\\', s[0], s[1..]);
    }
  }

  /** The text up to the closing quote is the pieces', and adds what they denote. */
  predicate IsBody(s: string, out: string, ps: seq<Piece>, r: Parse<string>)
  {
    && r.Ok? && LenientPieces(ps) && s == PiecesThen(ps, ['\"'] + r.rest)
    && r.value == out + StringValue(ps)
  }

  lemma NoPiece(s: string, out: string)
    requires s != "" && s[0] == '\"'
    ensures IsBody(s, out, [], Ok(out, s[1..]))
  {
    FirstOf(s, '\"');
    assert out + "" == out;
  }

  lemma OnePiece(s: string, out: string, p: Piece, t: string, tail: seq<Piece>, r: Parse<string>)
    requires LenientPiece(p) && s == PieceThen(p, t) && (IsLoneHigh(p) ==> !StartsUnicode(t))
    requires IsBody(t, out + PieceValue(p), tail, r)
    ensures IsBody(s, out, [p] + tail, r)
  {
    var ps := [p] + tail;
    assert ps[0] == p && ps[1..] == tail;
    UnicodeStarts(tail, r.rest);
    Reassociate(out, PieceValue(p), StringValue(tail));
  }

  lemma {:induction false} BodyIsPieces(s: string, out: string) returns (ps: seq<Piece>)
    requires ParseBody(s, out).Ok?
    ensures IsBody(s, out, ps, ParseBody(s, out))
    decreases |s|
  {
    FirstOf(s, s[0]);
    if s[0] == '\"' {
      ps := [];
      NoPiece(s, out);
    } else if s[0] == '\\' {
      var e := ParseEscape(s[1..]);
      var p := EscapeIsPiece(s[1..]);
      var tail := BodyIsPieces(e.rest, out + e.value);
      ps := [p] + tail;
      OnePiece(s, out, p, e.rest, tail, ParseBody(s, out));
    } else {
      var tail := BodyIsPieces(s[1..], out + [s[0]]);
      ps := [Plain(s[0])] + tail;
      OnePiece(s, out, Plain(s[0]), s[1..], tail, ParseBody(s, out));
    }
  }

  /** A string literal and what it denotes. */
  predicate IsString(s: string, ps: seq<Piece>, r: Parse<string>)
  {
    r.Ok? && LenientPieces(ps) && s == LiteralThen(ps, r.rest) && r.value == StringValue(ps)
  }

  lemma StringIsPieces(s: string) returns (ps: seq<Piece>)
    requires ParseString(s).Ok?
    ensures IsString(s, ps, ParseString(s))
  {
    FirstOf(s, '\"');
    ps := BodyIsPieces(s[1..], "");
    Lead(StringValue(ps));
  }

  // ---- Numbers ----

  lemma {:induction false} DigitsArePrefix(s: string) returns (ds: string)
    ensures AreDigits(ds) && s == ds + SkipDigits(s) && (IsDigit(Peek(s)) ==> ds != "" && ds[0] == s[0])
    decreases |s|
  {
    ds := "";
    if s != "" && IsDigit(s[0]) {
      var tail := DigitsArePrefix(s[1..]);
      ds := [s[0]] + tail;
      FirstOf(s, s[0]);
      Reassociate([s[0]], tail, SkipDigits(s));
    } else {
      Lead(s);
    }
  }

  lemma ExponentIsSpelled(s: string) returns (x: Exponent)
    requires ExponentTail(s).Ok?
    ensures ValidExponent(x) && s == ExponentThen(x, ExponentTail(s).rest)
  {
    if Peek(s) != 'e' && Peek(s) != 'E' {
      x := NoExponent;
    } else {
      FirstOf(s, s[0]);
      var signed := Peek(s[1..]) == '+' || Peek(s[1..]) == '-';
      var a := if signed then s[2..] else s[1..];
      var ds := DigitsArePrefix(a);
      if signed {
        FirstOf(s[1..], s[1]);
        x := Exponent(s[0], [s[1]], ds);
      } else {
        Lead(a);
        x := Exponent(s[0], "", ds);
      }
    }
  }

  lemma FractionIsSpelled(s: string) returns (frac: string, x: Exponent)
    requires FractionTail(s).Ok?
    ensures AreDigits(frac) && ValidExponent(x) && s == FractionThen(frac, ExponentThen(x, FractionTail(s).rest))
  {
    if Peek(s) != '.' {
      frac := "";
      x := ExponentIsSpelled(s);
    } else {
      FirstOf(s, '.');
      frac := DigitsArePrefix(s[1..]);
      x := ExponentIsSpelled(SkipDigits(s[1..]));
    }
  }

  /** The number after its sign. */
  function UnsignedThen(n: Number, k: string): string
  {
    match n
    case Finite(_, digits, frac, exp) => digits + FractionThen(frac, ExponentThen(exp, k))
    case _ => "Infinity" + k
  }

  lemma IntegerIsSpelled(a: string, neg: bool) returns (n: Number)
    requires IntegerTail(a).Ok?
    ensures ValidNumber(n) && a == UnsignedThen(n, IntegerTail(a).rest)
    ensures if Peek(a) == 'I' then n == Infinity(neg) else n.Finite? && n.neg == neg
  {
    if Peek(a) == 'I' {
      n := Infinity(neg);
      assert a == "Infinity" + a[8..];
    } else if Peek(a) == '0' {
      FirstOf(a, '0');
      var frac, x := FractionIsSpelled(a[1..]);
      n := Finite(neg, ['0'], frac, x);
    } else {
      var ds := DigitsArePrefix(a);
      var frac, x := FractionIsSpelled(SkipDigits(a));
      n := Finite(neg, ds, frac, x);
    }
  }

  lemma NumberIsSpelled(s: string) returns (n: Number)
    requires NumberTail(s).Ok?
    ensures ValidNumber(n) && !n.NaN? && s == NumberThen(n, NumberTail(s).rest) && (n.Finite? <==> !IsInfinity(s))
  {
    if Peek(s) == '-' {
      FirstOf(s, '-');
      n := IntegerIsSpelled(s[1..], true);
    } else {
      n := IntegerIsSpelled(s, false);
    }
  }

  // ---- Values ----

  /** The text is the tree's, at a depth and with numbers the parser takes, and the tree means the value. */
  ghost predicate IsValue(t: string, d: Doc, depth: nat, fits: string -> bool, r: Parse<Value>)
  {
    && r.Ok? && Accepted(d) && t == Then(d, r.rest) && r.value == Meaning(d)
    && depth + Depth(d) <= MAX_DEPTH && Converts(d, fits)
  }

  lemma NumberIsValue(s: string, depth: nat, fits: string -> bool) returns (d: Doc)
    requires ParseNumber(s, fits).Ok? && depth <= MAX_DEPTH
    ensures IsValue(s, d, depth, fits, ParseNumber(s, fits))
  {
    var rest := NumberTail(s).rest;
    var n := NumberIsSpelled(s);
    NumberAppend(n, rest);
    assert s[..|s| - |rest|] == NumberText(n);
    d := Num(n);
  }

  lemma LiteralIs(t: string, lit: string)
    requires lit <= t
    ensures t == lit + t[|lit|..]
  {
  }

  lemma {:induction false} KeywordIsValue(t: string, d: Doc, lit: string, depth: nat, fits: string -> bool)
    requires depth <= MAX_DEPTH && lit <= t
    requires (d == Null && lit == "null") || (d == True && lit == "true") || (d == False && lit == "false") || (d == Num(NaN) && lit == "NaN")
    ensures IsValue(t, d, depth, fits, Ok(Meaning(d), t[|lit|..]))
  {
    LiteralIs(t, lit);
  }

  lemma StringIsValue(t: string, depth: nat, fits: string -> bool) returns (d: Doc)
    requires ParseString(t).Ok? && depth <= MAX_DEPTH
    ensures IsValue(t, d, depth, fits, Ok(VString(ParseString(t).value), ParseString(t).rest))
  {
    var ps := StringIsPieces(t);
    d := Str(ps);
  }

  /** A value that is no container; its first byte decides which. */
  lemma ScalarIsValue(t: string, depth: nat, fits: string -> bool) returns (d: Doc)
    requires t != "" && SkipSpace(t) == t && t[0] != '{' && t[0] != '[' && depth <= MAX_DEPTH
    requires ParseValue(t, depth, fits).Ok?
    ensures IsValue(t, d, depth, fits, ParseValue(t, depth, fits))
  {
    match t[0]
    case '\"' => d := StringIsValue(t, depth, fits);
    case 't' => d := True; KeywordIsValue(t, d, "true", depth, fits);
    case 'f' => d := False; KeywordIsValue(t, d, "false", depth, fits);
    case 'n' => d := Null; KeywordIsValue(t, d, "null", depth, fits);
    case 'N' =>
      d := Num(NaN);
      KeywordIsValue(t, d, "NaN", depth, fits);
      assert NumberText(NaN) == "NaN";
    case _ => d := NumberIsValue(t, depth, fits);
  }

  /** White space, then a value. */
  ghost predicate IsSpaced(s: string, w: string, d: Doc, depth: nat, fits: string -> bool, r: Parse<Value>)
  {
    IsBlank(w) && s == w + SkipSpace(s) && IsValue(SkipSpace(s), d, depth, fits, r)
  }

  lemma {:induction false} ValueIsTree(s: string, depth: nat, fits: string -> bool) returns (w: string, d: Doc)
    requires ParseValue(s, depth, fits).Ok? && depth <= MAX_DEPTH
    ensures IsSpaced(s, w, d, depth, fits, ParseValue(s, depth, fits))
    decreases |s|, 1
  {
    w := SpaceIsBlank(s);
    var t := SkipSpace(s);
    FirstOf(t, t[0]);
    if t[0] == '{' {
      d := ObjectIsTree(t[1..], depth, fits);
    } else if t[0] == '[' {
      d := ArrayIsTree(t[1..], depth, fits);
    } else {
      assert ParseValue(t, depth, fits) == ParseValue(s, depth, fits);
      d := ScalarIsValue(t, depth, fits);
    }
  }

  lemma EmptyIsValue(w: string, k: string, depth: nat, fits: string -> bool)
    requires IsBlank(w) && depth + 1 <= MAX_DEPTH
    ensures IsValue(['{'] + (w + (['}'] + k)), EmptyObj(w), depth, fits, Ok(VObject([]), k))
    ensures IsValue(['['] + (w + ([']'] + k)), EmptyArr(w), depth, fits, Ok(VArray([]), k))
  {
  }

  lemma MembersAreValue(s: string, m: Members, depth: nat, fits: string -> bool, r: Parse<Value>)
    requires AreMembers(s, m, [], depth + 1, fits, r)
    ensures IsValue(['{'] + s, Obj(m), depth, fits, r)
  {
    assert [] + MembersMeaning(m) == MembersMeaning(m);
  }

  lemma ElemsAreValue(s: string, e: Elems, depth: nat, fits: string -> bool, r: Parse<Value>)
    requires AreElems(s, e, [], depth + 1, fits, r)
    ensures IsValue(['['] + s, Arr(e), depth, fits, r)
  {
    assert [] + ElemsMeaning(e) == ElemsMeaning(e);
  }

  lemma {:induction false} ObjectIsTree(s: string, depth: nat, fits: string -> bool) returns (d: Doc)
    requires ParseObject(s, depth, fits).Ok?
    ensures IsValue(['{'] + s, d, depth, fits, ParseObject(s, depth, fits))
    decreases |s|, 4
  {
    var t := SkipSpace(s);
    if Peek(t) == '}' {
      var w := SpaceIsBlank(s);
      FirstOf(t, '}');
      EmptyIsValue(w, t[1..], depth, fits);
      d := EmptyObj(w);
    } else {
      SkipTwice(s, depth + 1, fits);
      var m := MembersAreTree(s, [], depth + 1, fits);
      MembersAreValue(s, m, depth, fits, ParseMembers(s, [], depth + 1, fits));
      d := Obj(m);
    }
  }

  lemma {:induction false} ArrayIsTree(s: string, depth: nat, fits: string -> bool) returns (d: Doc)
    requires ParseArray(s, depth, fits).Ok?
    ensures IsValue(['['] + s, d, depth, fits, ParseArray(s, depth, fits))
    decreases |s|, 4
  {
    var t := SkipSpace(s);
    if Peek(t) == ']' {
      var w := SpaceIsBlank(s);
      FirstOf(t, ']');
      EmptyIsValue(w, t[1..], depth, fits);
      d := EmptyArr(w);
    } else {
      SkipTwice(s, depth + 1, fits);
      var e := ElemsAreTree(s, [], depth + 1, fits);
      ElemsAreValue(s, e, depth, fits, ParseElems(s, [], depth + 1, fits));
      d := Arr(e);
    }
  }

  /** The elements' text up to the closing bracket, `acc` holding what came before. */
  ghost predicate AreElems(s: string, e: Elems, acc: seq<Value>, depth: nat, fits: string -> bool, r: Parse<Value>)
  {
    && r.Ok? && AcceptedElems(e) && s == ElemsThen(e, [']'] + r.rest) && r.value == VArray(acc + ElemsMeaning(e))
    && depth + ElemsDepth(e) <= MAX_DEPTH && ElemsConvert(e, fits)
  }

  lemma LastElemIs(s: string, w0: string, d: Doc, w1: string, acc: seq<Value>, depth: nat, fits: string -> bool, v: Parse<Value>, k: string)
    requires IsSpaced(s, w0, d, depth, fits, v) && IsBlank(w1) && v.rest == w1 + ([']'] + k)
    ensures AreElems(s, LastElem(w0, d, w1), acc, depth, fits, Ok(VArray(acc + [v.value]), k))
  {
    assert ElemsMeaning(LastElem(w0, d, w1)) == [v.value];
  }

  lemma MoreElemsAre(s: string, w0: string, d: Doc, w1: string, t: string, e: Elems, acc: seq<Value>, depth: nat,
      fits: string -> bool, v: Parse<Value>, r: Parse<Value>)
    requires IsSpaced(s, w0, d, depth, fits, v) && IsBlank(w1) && v.rest == w1 + ([','] + t)
    requires AreElems(t, e, acc + [v.value], depth, fits, r)
    ensures AreElems(s, MoreElems(w0, d, w1, e), acc, depth, fits, r)
  {
    assert acc + [v.value] + ElemsMeaning(e) == acc + ([v.value] + ElemsMeaning(e));
  }

  lemma {:induction false} ElemsAreTree(s: string, acc: seq<Value>, depth: nat, fits: string -> bool) returns (e: Elems)
    requires ParseElems(s, acc, depth, fits).Ok? && depth <= MAX_DEPTH
    ensures AreElems(s, e, acc, depth, fits, ParseElems(s, acc, depth, fits))
    decreases |s|, 2
  {
    var v := ParseValue(s, depth, fits);
    var w0, d := ValueIsTree(s, depth, fits);
    var w1 := SpaceIsBlank(v.rest);
    var t := SkipSpace(v.rest);
    FirstOf(t, t[0]);
    if t[0] == ',' {
      var tail := ElemsAreTree(t[1..], acc + [v.value], depth, fits);
      e := MoreElems(w0, d, w1, tail);
      MoreElemsAre(s, w0, d, w1, t[1..], tail, acc, depth, fits, v, ParseElems(s, acc, depth, fits));
    } else {
      e := LastElem(w0, d, w1);
      LastElemIs(s, w0, d, w1, acc, depth, fits, v, t[1..]);
    }
  }

  /** A member's text, with the white space before its key and that around the colon. */
  ghost predicate IsMember(s: string, w0: string, key: seq<Piece>, w1: string, w2: string, d: Doc, depth: nat,
    fits: string -> bool, r: Parse<(string, Value)>)
  {
    && r.Ok? && IsBlank(w0) && LenientPieces(key) && IsBlank(w1) && IsBlank(w2) && Accepted(d)
    && s == w0 + LiteralThen(key, w1 + ([':'] + (w2 + Then(d, r.rest))))
    && r.value == (StringValue(key), Meaning(d)) && depth + Depth(d) <= MAX_DEPTH && Converts(d, fits)
  }

  lemma {:induction false} MemberIsTree(s: string, depth: nat, fits: string -> bool)
      returns (w0: string, key: seq<Piece>, w1: string, w2: string, d: Doc)
    requires ParseMember(s, depth, fits).Ok? && depth <= MAX_DEPTH
    ensures IsMember(s, w0, key, w1, w2, d, depth, fits, ParseMember(s, depth, fits))
    decreases |s|, 2
  {
    w0 := SpaceIsBlank(s);
    var t := SkipSpace(s);
    key := StringIsPieces(t);
    var k := ParseString(t);
    w1 := SpaceIsBlank(k.rest);
    var u := SkipSpace(k.rest);
    FirstOf(u, ':');
    w2, d := ValueIsTree(u[1..], depth, fits);
  }

  /** The members' text up to the closing brace, `acc` holding what came before. */
  ghost predicate AreMembers(s: string, m: Members, acc: seq<(string, Value)>, depth: nat, fits: string -> bool, r: Parse<Value>)
  {
    && r.Ok? && AcceptedMembers(m) && s == MembersThen(m, ['}'] + r.rest) && r.value == VObject(acc + MembersMeaning(m))
    && depth + MembersDepth(m) <= MAX_DEPTH && MembersConvert(m, fits)
  }

  lemma LastMemberIs(s: string, m: Members, acc: seq<(string, Value)>, depth: nat, fits: string -> bool,
      v: Parse<(string, Value)>, k: string)
    requires m.LastMember? && IsMember(s, m.w0, m.key, m.w1, m.w2, m.v, depth, fits, v)
    requires IsBlank(m.w3) && v.rest == m.w3 + (['}'] + k)
    ensures AreMembers(s, m, acc, depth, fits, Ok(VObject(acc + [v.value]), k))
  {
    assert MembersMeaning(m) == [v.value];
  }

  lemma MoreMembersAre(s: string, m: Members, acc: seq<(string, Value)>, t: string, depth: nat, fits: string -> bool,
      v: Parse<(string, Value)>, r: Parse<Value>)
    requires m.MoreMembers? && IsMember(s, m.w0, m.key, m.w1, m.w2, m.v, depth, fits, v)
    requires IsBlank(m.w3) && v.rest == m.w3 + ([','] + t)
    requires AreMembers(t, m.tail, acc + [v.value], depth, fits, r)
    ensures AreMembers(s, m, acc, depth, fits, r)
  {
    assert acc + [v.value] + MembersMeaning(m.tail) == acc + ([v.value] + MembersMeaning(m.tail));
  }

  lemma {:induction false} MembersAreTree(s: string, acc: seq<(string, Value)>, depth: nat, fits: string -> bool) returns (m: Members)
    requires ParseMembers(s, acc, depth, fits).Ok? && depth <= MAX_DEPTH
    ensures AreMembers(s, m, acc, depth, fits, ParseMembers(s, acc, depth, fits))
    decreases |s|, 3
  {
    var v := ParseMember(s, depth, fits);
    var w0, key, w1, w2, d := MemberIsTree(s, depth, fits);
    var w3 := SpaceIsBlank(v.rest);
    var t := SkipSpace(v.rest);
    FirstOf(t, t[0]);
    if t[0] == ',' {
      var tail := MembersAreTree(t[1..], acc + [v.value], depth, fits);
      m := MoreMembers(w0, key, w1, w2, d, w3, tail);
      MoreMembersAre(s, m, acc, t[1..], depth, fits, v, ParseMembers(s, acc, depth, fits));
    } else {
      m := LastMember(w0, key, w1, w2, d, w3);
      LastMemberIs(s, m, acc, depth, fits, v, t[1..]);
    }
  }

  // ---- Documents ----

  /** The text is the tree's between two stretches of white space, and the parser takes trees like it. */
  ghost predicate Renders(s: string, w: string, d: Doc, w': string, fits: string -> bool)
  {
    && IsBlank(w) && Accepted(d) && IsBlank(w') && s == w + Then(d, w')
    && Depth(d) <= 256 && Converts(d, fits)
  }

  lemma DocumentIsTree(s: string, fits: string -> bool) returns (w: string, d: Doc, w': string)
    requires ParseDocument(s, fits).Ok?
    ensures Renders(s, w, d, w', fits) && ParseDocument(s, fits).value == Meaning(d)
  {
    w, d := ValueIsTree(s, 0, fits);
    var v := ParseValue(s, 0, fits);
    w' := SpaceIsBlank(v.rest);
    assert w' + "" == w';
  }

  /**
   The parser accepts exactly the renderings of trees that nest at most 256 deep and whose finite numbers convert,
   unpaired surrogates included, and the value it returns is what any such tree of the text means.
   */
  lemma AcceptsExactlyRenderings(s: string, fits: string -> bool, v: Value)
    ensures ParseDocument(s, fits) == Ok(v, "") <==> exists w, d, w' :: Renders(s, w, d, w', fits) && v == Meaning(d)
  {
    if ParseDocument(s, fits) == Ok(v, "") {
      var w, d, w' := DocumentIsTree(s, fits);
    }
    forall w, d, w' | Renders(s, w, d, w', fits) && v == Meaning(d) ensures ParseDocument(s, fits) == Ok(v, "") {
      DocumentParses(w, d, w', fits);
    }
  }
}

/** The safetensors reader on the text of any header, tokens first. */
module SafetensorsReads {
  import opened MachineWords
  import opened JsonText
  import opened SafetensorsParser
  import opened SafetensorsDocument
  import J = JsonDocument

  // ---- Tokens parse ----

  lemma ExpectAfterBlank(w: string, c: char, k: string)
    requires IsBlank(w) && !IsSpace(c)
    ensures Expect(w + ([c] + k), c) == Ok((), k)
  {
    SkipBlank(w, [c] + k);
    assert ([c] + k)[1..] == k;
  }

  lemma ExpectOther(w: string, c: char, d: char, k: string)
    requires IsBlank(w) && !IsSpace(d) && c != d
    ensures Expect(w + ([d] + k), c).Fail?
  {
    SkipBlank(w, [d] + k);
  }

  lemma UnitParses(h: string, k: string)
    requires ValidPiece(Unit(h))
    ensures ParseUnicode(h + k) == Ok(PieceValue(Unit(h)), k)
  {
    assert (h + k)[4..] == k;
    HexPrefixLocal(h, k, 4);
  }

  lemma PairParses(hi: string, lo: string, k: string)
    requires ValidPiece(Pair(hi, lo))
    ensures ParseUnicode(hi + (['\\', 'u'] + (lo + k))) == Ok(PieceValue(Pair(hi, lo)), k)
  {
    var t := ['\\', 'u'] + (lo + k);
    assert (hi + t)[4..] == t && t[2..] == lo + k && t[6..] == k;
    HexPrefixLocal(hi, t, 4);
    HexPrefixLocal(lo, k, 4);
  }

  lemma {:induction false} UnicodeParses(t: string, v: string, k: string, out: string)
    requires ParseUnicode(t) == Ok(v, k)
    ensures ParseBody(['\\', 'u'] + t, out) == ParseBody(k, out + v)
  {
    assert (['\\', 'u'] + t)[1..] == ['u'] + t && (['u'] + t)[1..] == t;
  }

  lemma {:induction false} PieceParses(p: Piece, k: string, out: string)
    requires ValidPiece(p)
    ensures ParseBody(PieceThen(p, k), out) == ParseBody(k, out + PieceValue(p))
  {
    match p
    case Plain(c) =>
      assert ([c] + k)[1..] == k;
    case Short(e) =>
      assert (['\\', e] + k)[1..] == [e] + k && ([e] + k)[1..] == k;
    case Unit(h) =>
      UnitParses(h, k);
      UnicodeParses(h + k, PieceValue(p), k, out);
    case Pair(hi, lo) =>
      PairParses(hi, lo, k);
      UnicodeParses(hi + (['\\', 'u'] + (lo + k)), PieceValue(p), k, out);
  }

  lemma {:induction false} BodyParses(ps: seq<Piece>, k: string, out: string)
    requires ValidPieces(ps)
    ensures ParseBody(PiecesThen(ps, ['\"'] + k), out) == Ok(out + StringValue(ps), k)
  {
    if ps == [] {
      assert (['\"'] + k)[1..] == k && out + "" == out;
    } else {
      PieceParses(ps[0], PiecesThen(ps[1..], ['\"'] + k), out);
      BodyParses(ps[1..], k, out + PieceValue(ps[0]));
      assert out + PieceValue(ps[0]) + StringValue(ps[1..]) == out + StringValue(ps);
    }
  }

  lemma {:induction false} StringParses(w: string, ps: seq<Piece>, k: string)
    requires IsBlank(w) && ValidPieces(ps)
    ensures ParseString(w + LiteralThen(ps, k)) == Ok(StringValue(ps), k)
  {
    SkipBlank(w, LiteralThen(ps, k));
    BodyParses(ps, k, "");
    assert LiteralThen(ps, k)[1..] == PiecesThen(ps, ['\"'] + k);
    Lead(StringValue(ps));
  }

  /** Reading a decimal back, digits before it included: the value, or a refusal past INT64_MAX. */
  lemma {:induction false} DecimalParses(n: nat, k: string)
    ensures StartsDigit(Decimal(n) + k)
    ensures if n <= INT64_MAX then ParseDigits(Decimal(n) + k, 0) == ParseDigits(k, n) else ParseDigits(Decimal(n) + k, 0).Fail?
  {
    var d := n % 10;
    var t := [Digit(d)] + k;
    assert t[0] == Digit(d) && t[1..] == k && DigitValue(t[0]) == d;
    if n < 10 {
      assert Decimal(n) + k == t;
    } else {
      DecimalParses(n / 10, t);
      assert Decimal(n) + k == Decimal(n / 10) + t;
      if n / 10 <= INT64_MAX {
        assert n / 10 > (INT64_MAX - d) / 10 <==> n > INT64_MAX;
      }
    }
  }

  lemma {:induction false} ZerosParse(z: string, t: string)
    requires AllZeros(z) && StartsDigit(t)
    ensures StartsDigit(z + t) && ParseDigits(z + t, 0) == ParseDigits(t, 0)
  {
    if z == "" {
      assert z + t == t;
    } else {
      assert (z + t)[0] == '0' && (z + t)[1..] == z[1..] + t;
      ZerosParse(z[1..], t);
    }
  }

  /** What follows an integer is no digit. */
  lemma DigitsEnd(w: string, k: string)
    requires IsBlank(w) && (k == "" || !IsDigit(k[0]))
    ensures !StartsDigit(w + k)
  {
    assert w + k != "" ==> (w + k)[0] == if w != "" then w[0] else k[0];
  }

  lemma DigitsParse(i: Int, k: string)
    requires ValidInt(i) && (k == "" || !IsDigit(k[0]))
    ensures StartsDigit(DigitsThen(i, k))
    ensures var r := ParseDigits(DigitsThen(i, k), 0); if i.n <= INT64_MAX then r == Ok(i.n, i.w1 + k) else r.Fail?
  {
    DecimalParses(i.n, i.w1 + k);
    ZerosParse(i.zeros, Decimal(i.n) + (i.w1 + k));
    DigitsEnd(i.w1, k);
  }

  lemma {:induction false} SignParses(w: string, neg: bool, t: string, v: Parse<nat>)
    requires IsBlank(w) && StartsDigit(t) && v == ParseDigits(t, 0)
    ensures SkipSpace(w + MinusThen(neg, t)) == MinusThen(neg, t)
    ensures ParseInt(w + MinusThen(neg, t))
      == if v.Fail? then Fail(v.message) else Ok(if neg then 0 - v.value else v.value, v.rest)
  {
    SkipBlank(w, MinusThen(neg, t));
    if neg { assert MinusThen(neg, t)[1..] == t; }
  }

  lemma IntParses(i: Int, k: string)
    requires ValidInt(i) && (k == "" || !IsDigit(k[0]))
    ensures if i.n <= INT64_MAX then ParseInt(IntThen(i, k)) == Ok(IntValue(i), i.w1 + k) else ParseInt(IntThen(i, k)).Fail?
  {
    var t := DigitsThen(i, k);
    DigitsParse(i, k);
    SignParses(i.w0, i.neg, t, ParseDigits(t, 0));
  }

  // ---- Values are passed over exactly ----

  predicate IsWordChar(c: char)
  {
    '0' <= c <= '9' || 'a' <= c <= 'z' || 'A' <= c <= 'Z' || c == '+' || c == '-' || c == '.'
  }

  predicate IsWord(s: string)
  {
    forall i | 0 <= i < |s| :: IsWordChar(s[i])
  }

  lemma WordAppend(s: string, k: string)
    requires IsWord(s) && IsWord(k)
    ensures IsWord(s + k)
  {
  }

  lemma DigitsAreWord(s: string)
    requires J.AreDigits(s)
    ensures IsWord(s)
  {
    forall i | 0 <= i < |s| ensures IsWordChar(s[i]) {
      assert J.IsDigit(s[i]);
    }
  }

  lemma ExponentIsWord(x: J.Exponent)
    requires J.ValidExponent(x)
    ensures IsWord(J.ExponentThen(x, ""))
  {
    if x.Exponent? {
      DigitsAreWord(x.digits);
      WordAppend(x.digits, "");
      WordAppend(x.sign, x.digits + "");
      WordAppend([x.e], x.sign + (x.digits + ""));
    }
  }

  lemma FractionIsWord(frac: string, k: string)
    requires J.AreDigits(frac) && IsWord(k)
    ensures IsWord(J.FractionThen(frac, k))
  {
    DigitsAreWord(frac);
    WordAppend(frac, k);
    WordAppend(['.'], frac + k);
  }

  lemma NumberIsWord(n: J.Number)
    requires J.ValidNumber(n)
    ensures IsWord(J.NumberText(n))
  {
    match n
    case Finite(neg, digits, frac, exp) =>
      ExponentIsWord(exp);
      FractionIsWord(frac, J.ExponentThen(exp, ""));
      DigitsAreWord(digits);
      WordAppend(digits, J.FractionThen(frac, J.ExponentThen(exp, "")));
      WordAppend(['-'], digits + J.FractionThen(frac, J.ExponentThen(exp, "")));
    case Infinity(neg) =>
      WordAppend(['-'], "Infinity" + "");
    case NaN =>
  }

  /** Bracket pairs, either of which may be the one being counted. */
  predicate IsBrackets(open: char, close: char)
  {
    (open == '{' && close == '}') || (open == '[' && close == ']')
  }

  lemma {:induction false} ScanOne(c: char, k: string, open: char, close: char, depth: nat)
    requires IsBrackets(open, close) && depth > 0 && c != '\"'
    ensures SkipContainer([c] + k, open, close, depth)
         == SkipContainer(k, open, close, if c == open then depth + 1 else if c == close then depth - 1 else depth)
  {
    assert ([c] + k)[1..] == k;
  }

  lemma {:induction false} ScanBlank(w: string, k: string, open: char, close: char, depth: nat)
    requires IsBrackets(open, close) && depth > 0 && (IsBlank(w) || IsWord(w))
    ensures SkipContainer(w + k, open, close, depth) == SkipContainer(k, open, close, depth)
  {
    if w == "" {
      assert w + k == k;
    } else {
      assert w + k == [w[0]] + (w[1..] + k);
      assert IsSpace(w[0]) || IsWordChar(w[0]);
      ScanOne(w[0], w[1..] + k, open, close, depth);
      ScanBlank(w[1..], k, open, close, depth);
    }
  }

  lemma {:induction false} ScanLiteral(ps: seq<Piece>, k: string, open: char, close: char, depth: nat)
    requires depth > 0 && ValidPieces(ps)
    ensures SkipContainer(LiteralThen(ps, k), open, close, depth) == SkipContainer(k, open, close, depth)
  {
    StringParses("", ps, k);
    Lead(LiteralThen(ps, k));
  }

  /** Inside a container, a value leaves the bracket count as it was. */
  lemma {:induction false} ScanDoc(d: J.Doc, k: string, open: char, close: char, depth: nat)
    requires IsBrackets(open, close) && depth > 0 && J.Valid(d)
    ensures SkipContainer(J.Then(d, k), open, close, depth) == SkipContainer(k, open, close, depth)
  {
    match d
    case Null => ScanBlank("null", k, open, close, depth);
    case True => ScanBlank("true", k, open, close, depth);
    case False => ScanBlank("false", k, open, close, depth);
    case Num(n) =>
      J.NumberAppend(n, k);
      NumberIsWord(n);
      ScanBlank(J.NumberText(n), k, open, close, depth);
    case Str(ps) => ScanLiteral(ps, k, open, close, depth);
    case EmptyArr(w) => ScanPair('[', w, ']', k, open, close, depth);
    case EmptyObj(w) => ScanPair('{', w, '}', k, open, close, depth);
    case Arr(elems) =>
      var inner := if open == '[' then depth + 1 else depth;
      ScanOne('[', J.ElemsThen(elems, [']'] + k), open, close, depth);
      ScanElems(elems, [']'] + k, open, close, inner);
      ScanOne(']', k, open, close, inner);
    case Obj(members) =>
      var inner := if open == '{' then depth + 1 else depth;
      ScanOne('{', J.MembersThen(members, ['}'] + k), open, close, depth);
      ScanMembers(members, ['}'] + k, open, close, inner);
      ScanOne('}', k, open, close, inner);
  }

  lemma {:induction false} ScanPair(a: char, w: string, b: char, k: string, open: char, close: char, depth: nat)
    requires IsBrackets(open, close) && IsBrackets(a, b) && depth > 0 && IsBlank(w)
    ensures SkipContainer([a] + (w + ([b] + k)), open, close, depth) == SkipContainer(k, open, close, depth)
  {
    var inner := if a == open then depth + 1 else depth;
    ScanOne(a, w + ([b] + k), open, close, depth);
    ScanBlank(w, [b] + k, open, close, inner);
    ScanOne(b, k, open, close, inner);
  }

  lemma {:induction false} ScanElems(e: J.Elems, k: string, open: char, close: char, depth: nat)
    requires IsBrackets(open, close) && depth > 0 && J.ValidElems(e)
    ensures SkipContainer(J.ElemsThen(e, k), open, close, depth) == SkipContainer(k, open, close, depth)
  {
    var t := if e.LastElem? then k else [','] + J.ElemsThen(e.tail, k);
    ScanBlank(e.w0, J.Then(e.v, e.w1 + t), open, close, depth);
    ScanDoc(e.v, e.w1 + t, open, close, depth);
    ScanBlank(e.w1, t, open, close, depth);
    if e.MoreElems? {
      ScanOne(',', J.ElemsThen(e.tail, k), open, close, depth);
      ScanElems(e.tail, k, open, close, depth);
    }
  }

  lemma {:induction false} ScanKey(w0: string, key: seq<Piece>, w1: string, w2: string, k: string, open: char, close: char, depth: nat)
    requires IsBrackets(open, close) && depth > 0
    requires IsBlank(w0) && ValidPieces(key) && IsBlank(w1) && IsBlank(w2)
    ensures SkipContainer(w0 + LiteralThen(key, w1 + ([':'] + (w2 + k))), open, close, depth)
         == SkipContainer(k, open, close, depth)
  {
    ScanBlank(w0, LiteralThen(key, w1 + ([':'] + (w2 + k))), open, close, depth);
    ScanLiteral(key, w1 + ([':'] + (w2 + k)), open, close, depth);
    ScanBlank(w1, [':'] + (w2 + k), open, close, depth);
    ScanOne(':', w2 + k, open, close, depth);
    ScanBlank(w2, k, open, close, depth);
  }

  lemma {:induction false} ScanMembers(m: J.Members, k: string, open: char, close: char, depth: nat)
    requires IsBrackets(open, close) && depth > 0 && J.ValidMembers(m)
    ensures SkipContainer(J.MembersThen(m, k), open, close, depth) == SkipContainer(k, open, close, depth)
  {
    var t := if m.LastMember? then k else [','] + J.MembersThen(m.tail, k);
    ScanKey(m.w0, m.key, m.w1, m.w2, J.Then(m.v, m.w3 + t), open, close, depth);
    ScanDoc(m.v, m.w3 + t, open, close, depth);
    ScanBlank(m.w3, t, open, close, depth);
    if m.MoreMembers? {
      ScanOne(',', J.MembersThen(m.tail, k), open, close, depth);
      ScanMembers(m.tail, k, open, close, depth);
    }
  }

  lemma {:induction false} TokenSkipped(s: string, k: string)
    requires IsWord(s) && J.Delimited(k)
    ensures SkipToken(s + k) == k
  {
    if s == "" {
      assert s + k == k;
    } else {
      assert (s + k)[1..] == s[1..] + k && IsWordChar(s[0]);
      TokenSkipped(s[1..], k);
    }
  }

  lemma WordSkipped(w: string, s: string, k: string)
    requires IsBlank(w) && s != "" && IsWord(s) && J.Delimited(k)
    ensures SkipValue(w + (s + k)) == Ok((), k)
  {
    SkipBlank(w, s + k);
    TokenSkipped(s, k);
    assert (s + k)[0] == s[0] && IsWordChar(s[0]);
    assert SkipSpace(s + k) == s + k;
  }

  lemma {:induction false} ContainerSkipped(w: string, open: char, body: string, close: char, k: string)
    requires IsBlank(w) && IsBrackets(open, close)
    requires SkipContainer(body, open, close, 1) == SkipContainer([close] + k, open, close, 1)
    ensures SkipValue(w + ([open] + body)) == Ok((), k)
  {
    SkipBlank(w, [open] + body);
    ScanOne(close, k, open, close, 1);
    assert ([open] + body)[1..] == body;
  }

  /** Skipping a value stops exactly where it ends. */
  lemma {:induction false} ValueSkipped(w: string, d: J.Doc, k: string)
    requires IsBlank(w) && J.Valid(d) && J.Delimited(k)
    ensures SkipValue(w + J.Then(d, k)) == Ok((), k)
  {
    match d
    case Null => WordSkipped(w, "null", k);
    case True => WordSkipped(w, "true", k);
    case False => WordSkipped(w, "false", k);
    case Num(n) =>
      J.NumberAppend(n, k);
      NumberIsWord(n);
      WordSkipped(w, J.NumberText(n), k);
    case Str(ps) =>
      SkipBlank(w, LiteralThen(ps, k));
      StringParses("", ps, k);
      Lead(LiteralThen(ps, k));
    case EmptyArr(ws) =>
      ScanBlank(ws, [']'] + k, '[', ']', 1);
      ContainerSkipped(w, '[', ws + ([']'] + k), ']', k);
    case EmptyObj(ws) =>
      ScanBlank(ws, ['}'] + k, '{', '}', 1);
      ContainerSkipped(w, '{', ws + (['}'] + k), '}', k);
    case Arr(elems) =>
      ScanElems(elems, [']'] + k, '[', ']', 1);
      ContainerSkipped(w, '[', J.ElemsThen(elems, [']'] + k), ']', k);
    case Obj(members) =>
      ScanMembers(members, ['}'] + k, '{', '}', 1);
      ContainerSkipped(w, '{', J.MembersThen(members, ['}'] + k), '}', k);
  }

  // ---- Looser values ----

  lemma {:induction false} TokenPassed(t: string, k: string)
    requires (forall i | 0 <= i < |t| :: !EndsToken(t[i])) && J.Delimited(k)
    ensures SkipToken(t + k) == k
  {
    if t == "" {
      assert t + k == k;
    } else {
      assert (t + k)[0] == t[0] && (t + k)[1..] == t[1..] + k;
      TokenPassed(t[1..], k);
    }
  }

  /** Balanced text leads to the bracket that closes the container. */
  lemma {:induction false} PartsPassed(parts: seq<Part>, curly: bool, depth: nat, k: string)
    requires Balanced(parts, curly, depth) && depth > 0
    ensures SkipContainer(PartsThen(parts, [CloseOf(curly)] + k), OpenOf(curly), CloseOf(curly), depth) == Ok((), k)
    decreases |parts|
  {
    var open, close := OpenOf(curly), CloseOf(curly);
    if parts == [] {
      ScanOne(close, k, open, close, 1);
    } else {
      var t := PartsThen(parts[1..], [close] + k);
      match parts[0]
      case Lit(ps) =>
        ScanLiteral(ps, t, open, close, depth);
        PartsPassed(parts[1..], curly, depth, k);
      case Ch(c) =>
        ScanOne(c, t, open, close, depth);
        PartsPassed(parts[1..], curly, if c == open then depth + 1 else if c == close then depth - 1 else depth, k);
    }
  }

  /** What may follow a value: as in a document, and where the value is no text at all, something there. */
  predicate Follows(x: Extra, k: string)
  {
    J.Delimited(k) && (x == Token("") ==> k != "" && !IsSpace(k[0]))
  }

  lemma TokenSkippedWhole(w: string, t: string, k: string)
    requires IsBlank(w) && IsToken(t) && Follows(Token(t), k)
    ensures SkipValue(w + (t + k)) == Ok((), k)
  {
    SkipBlank(w, t + k);
    TokenPassed(t, k);
    if t != "" {
      assert (t + k)[0] == t[0] && !EndsToken(t[0]);
    } else {
      assert t + k == k;
    }
    assert SkipSpace(t + k) == t + k;
  }

  lemma {:induction false} BracketedSkipped(w: string, curly: bool, parts: seq<Part>, k: string)
    requires IsBlank(w) && Balanced(parts, curly, 1)
    ensures SkipValue(w + ([OpenOf(curly)] + PartsThen(parts, [CloseOf(curly)] + k))) == Ok((), k)
  {
    var body := PartsThen(parts, [CloseOf(curly)] + k);
    SkipBlank(w, [OpenOf(curly)] + body);
    PartsPassed(parts, curly, 1, k);
    assert ([OpenOf(curly)] + body)[1..] == body;
  }

  /** Skipping stops exactly where the value ends, for whatever the reader passes over. */
  lemma ExtraSkipped(w: string, x: Extra, k: string)
    requires IsBlank(w) && ValidExtra(x) && Follows(x, k)
    ensures SkipValue(w + ExtraThen(x, k)) == Ok((), k)
  {
    match x
    case Json(d) => ValueSkipped(w, d, k);
    case Token(t) => TokenSkippedWhole(w, t, k);
    case Bracketed(curly, parts) => BracketedSkipped(w, curly, parts, k);
  }
}

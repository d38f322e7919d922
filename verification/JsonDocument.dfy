/** Concrete syntax trees of JSON values (RFC 8259 sections 2 to 7, plus the non-finite literals Python writes). */
module JsonDocument {
  import opened JsonText

  predicate IsDigit(c: char) { '0' <= c <= '9' }

  const DIGITS: string := "0123456789"

  lemma DigitAt(i: nat)
    requires i < 10
    ensures DIGITS[i] == ('0' as int + i) as char
  {
  }

  /** The digits are those ten characters. */
  lemma DigitExact(c: char)
    ensures IsDigit(c) <==> exists i: nat | i < 10 :: DIGITS[i] == c
  {
    if IsDigit(c) { DigitAt(c as int - '0' as int); }
    forall i: nat | i < 10 && DIGITS[i] == c ensures IsDigit(c) {
      DigitAt(i);
    }
  }

  predicate AreDigits(s: string)
  {
    forall i | 0 <= i < |s| :: IsDigit(s[i])
  }

  /** A number spelling; `frac` and `exp` are absent when empty. */
  datatype Number =
    | Finite(neg: bool, digits: string, frac: string, exp: Exponent)
    | Infinity(neg: bool)
    | NaN

  datatype Exponent = NoExponent | Exponent(e: char, sign: string, digits: string)

  predicate ValidNumber(n: Number)
  {
    match n
    case Finite(_, digits, frac, exp) =>
      && digits != "" && AreDigits(digits) && (digits[0] == '0' ==> |digits| == 1)
      && AreDigits(frac)
      && ValidExponent(exp)
    case _ => true
  }

  predicate ValidExponent(x: Exponent)
  {
    match x
    case NoExponent => true
    case Exponent(e, sign, digits) =>
      (e == 'e' || e == 'E') && sign in ["", "+", "-"] && digits != "" && AreDigits(digits)
  }

  // The parts of a number's text, then `k`.

  function SignThen(neg: bool, k: string): string { if neg then ['-'] + k else k }

  function FractionThen(frac: string, k: string): string { if frac == "" then k else ['.'] + (frac + k) }

  function ExponentThen(x: Exponent, k: string): string
  {
    match x
    case NoExponent => k
    case Exponent(e, sign, digits) => [e] + (sign + (digits + k))
  }

  function NumberThen(n: Number, k: string): string
  {
    match n
    case Finite(neg, digits, frac, exp) => SignThen(neg, digits + FractionThen(frac, ExponentThen(exp, k)))
    case Infinity(neg) => SignThen(neg, "Infinity" + k)
    case NaN => "NaN" + k
  }

  function NumberText(n: Number): string { NumberThen(n, "") }

  lemma SignAppend(neg: bool, t: string, k: string)
    ensures SignThen(neg, t + k) == SignThen(neg, t) + k
  {
    Reassociate(['-'], t, k);
  }

  lemma ExponentAppend(x: Exponent, k: string)
    ensures ExponentThen(x, k) == ExponentThen(x, "") + k
  {
    if x.Exponent? {
      Reassociate(x.digits, "", k);
      Reassociate(x.sign, x.digits + "", k);
      Reassociate([x.e], x.sign + (x.digits + ""), k);
    }
    Lead(k);
  }

  lemma FractionAppend(frac: string, t: string, k: string)
    ensures FractionThen(frac, t + k) == FractionThen(frac, t) + k
  {
    Reassociate(frac, t, k);
    Reassociate(['.'], frac + t, k);
  }

  lemma NumberAppend(n: Number, k: string)
    ensures NumberThen(n, k) == NumberText(n) + k
  {
    match n
    case Finite(neg, digits, frac, exp) =>
      var e := ExponentThen(exp, "");
      ExponentAppend(exp, k);
      FractionAppend(frac, e, k);
      Reassociate(digits, FractionThen(frac, e), k);
      SignAppend(neg, digits + FractionThen(frac, e), k);
    case Infinity(neg) =>
      Reassociate("Infinity", "", k);
      SignAppend(neg, "Infinity" + "", k);
      Lead(k);
    case NaN =>
      Reassociate("NaN", "", k);
      Lead(k);
  }

  /** Strings of the grammar named w0, w1 and so on are the white space at that place. */
  datatype Doc =
    | Null | True | False
    | Num(n: Number)
    | Str(ps: seq<Piece>)
    | EmptyArr(w: string)
    | Arr(elems: Elems)
    | EmptyObj(w: string)
    | Obj(members: Members)

  datatype Elems =
    | LastElem(w0: string, v: Doc, w1: string)
    | MoreElems(w0: string, v: Doc, w1: string, tail: Elems)

  datatype Members =
    | LastMember(w0: string, key: seq<Piece>, w1: string, w2: string, v: Doc, w3: string)
    | MoreMembers(w0: string, key: seq<Piece>, w1: string, w2: string, v: Doc, w3: string, tail: Members)

  predicate Valid(d: Doc)
  {
    match d
    case Num(n) => ValidNumber(n)
    case Str(ps) => ValidPieces(ps)
    case EmptyArr(w) => IsBlank(w)
    case Arr(elems) => ValidElems(elems)
    case EmptyObj(w) => IsBlank(w)
    case Obj(members) => ValidMembers(members)
    case _ => true
  }

  predicate ValidElems(e: Elems)
  {
    && IsBlank(e.w0) && Valid(e.v) && IsBlank(e.w1)
    && (e.MoreElems? ==> ValidElems(e.tail))
  }

  predicate ValidMembers(m: Members)
  {
    && IsBlank(m.w0) && ValidPieces(m.key) && IsBlank(m.w1) && IsBlank(m.w2) && Valid(m.v) && IsBlank(m.w3)
    && (m.MoreMembers? ==> ValidMembers(m.tail))
  }

  /** The value's text, then `k`. */
  function Then(d: Doc, k: string): string
  {
    match d
    case Null => "null" + k
    case True => "true" + k
    case False => "false" + k
    case Num(n) => NumberThen(n, k)
    case Str(ps) => LiteralThen(ps, k)
    case EmptyArr(w) => ['['] + (w + ([']'] + k))
    case Arr(elems) => ['['] + ElemsThen(elems, [']'] + k)
    case EmptyObj(w) => ['{'] + (w + (['}'] + k))
    case Obj(members) => ['{'] + MembersThen(members, ['}'] + k)
  }

  function ElemsThen(e: Elems, k: string): string
  {
    match e
    case LastElem(w0, v, w1) => w0 + Then(v, w1 + k)
    case MoreElems(w0, v, w1, tail) => w0 + Then(v, w1 + ([','] + ElemsThen(tail, k)))
  }

  function MembersThen(m: Members, k: string): string
  {
    match m
    case LastMember(w0, key, w1, w2, v, w3) =>
      w0 + LiteralThen(key, w1 + ([':'] + (w2 + Then(v, w3 + k))))
    case MoreMembers(w0, key, w1, w2, v, w3, tail) =>
      w0 + LiteralThen(key, w1 + ([':'] + (w2 + Then(v, w3 + ([','] + MembersThen(tail, k))))))
  }

  /** How deeply containers nest. */
  function Depth(d: Doc): nat
  {
    match d
    case EmptyArr(_) => 1
    case Arr(elems) => 1 + ElemsDepth(elems)
    case EmptyObj(_) => 1
    case Obj(members) => 1 + MembersDepth(members)
    case _ => 0
  }

  function Max(a: nat, b: nat): nat { if a < b then b else a }

  function ElemsDepth(e: Elems): nat
  {
    match e
    case LastElem(_, v, _) => Depth(v)
    case MoreElems(_, v, _, tail) => Max(Depth(v), ElemsDepth(tail))
  }

  function MembersDepth(m: Members): nat
  {
    match m
    case LastMember(_, _, _, _, v, _) => Depth(v)
    case MoreMembers(_, _, _, _, v, _, tail) => Max(Depth(v), MembersDepth(tail))
  }

  /** What may follow a value in a document: nothing, white space, a comma or a closing bracket. */
  predicate Delimited(k: string)
  {
    k == "" || IsSpace(k[0]) || k[0] in {',', '}', ']'}
  }

  lemma BlankDelimited(w: string, k: string)
    requires IsBlank(w) && Delimited(k)
    ensures Delimited(w + k)
  {
    if w != "" {
      assert (w + k)[0] == w[0];
    } else {
      assert w + k == k;
    }
  }
}

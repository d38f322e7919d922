/**
 JSON text as concrete syntax: every legal choice of white space, escape and number spelling is part of
 the tree, so a statement about all trees is a statement about all renderings. A char stands for one byte.
 Renderings take the text that follows, which keeps them free of reassociation.
 */
module JsonText {
  import opened Results

  datatype Parse<+T> = Ok(value: T, rest: string) | Fail(message: string)

  /** The method's answer is the specification's, and the cursor stands where the specification's remaining text starts. */
  ghost predicate Tracks<T>(r: Result<T>, spec: Parse<T>, rest: string)
  {
    match r
    case Success(v) => spec == Ok(v, rest)
    case Failure(m) => spec == Fail(m)
  }

  lemma Lead(s: string)
    ensures "" + s == s
  {
  }

  lemma Reassociate(a: string, b: string, c: string)
    ensures a + (b + c) == (a + b) + c
  {
  }

  // ---- White space ----

  predicate IsSpace(c: char)
  {
    c == ' ' || c == '\t' || c == '\n' || c == '\r'
  }

  const SPACES: string := " \t\n\r"

  lemma SpaceExact(c: char)
    ensures IsSpace(c) <==> c in SPACES
  {
    assert SPACES[0] == ' ' && SPACES[1] == '\t' && SPACES[2] == '\n' && SPACES[3] == '\r';
  }

  predicate IsBlank(w: string)
  {
    forall i | 0 <= i < |w| :: IsSpace(w[i])
  }

  /** The loop both parsers skip white space with. */
  function SkipSpace(s: string): (r: string)
    ensures |r| <= |s|
    ensures r != "" ==> !IsSpace(r[0])
  {
    if s != "" && IsSpace(s[0]) then SkipSpace(s[1..]) else s
  }

  lemma {:induction false} SkipBlank(w: string, k: string)
    requires IsBlank(w)
    ensures SkipSpace(w + k) == SkipSpace(k)
  {
    if w == "" {
      assert w + k == k;
    } else {
      assert (w + k)[1..] == w[1..] + k;
      SkipBlank(w[1..], k);
    }
  }

  lemma {:induction false} SpaceIsBlank(s: string) returns (w: string)
    ensures IsBlank(w) && s == w + SkipSpace(s)
    decreases |s|
  {
    w := "";
    if s != "" && IsSpace(s[0]) {
      var tail := SpaceIsBlank(s[1..]);
      w := [s[0]] + tail;
      assert s == [s[0]] + s[1..];
      Reassociate([s[0]], tail, SkipSpace(s));
    } else {
      Lead(s);
    }
  }

  lemma FirstOf(s: string, c: char)
    requires s != "" && s[0] == c
    ensures s == [c] + s[1..]
  {
  }

  lemma TwoChars(a: char, b: char, t: string)
    ensures [a] + ([b] + t) == [a, b] + t
  {
  }

  // ---- Characters of string literals ----

  function HexDigit(c: char): (d: int)
    ensures -1 <= d < 16
  {
    if '0' <= c <= '9' then c as int - '0' as int
    else if 'a' <= c <= 'f' then c as int - 'a' as int + 10
    else if 'A' <= c <= 'F' then c as int - 'A' as int + 10
    else -1
  }

  /** The value of the first `n` hex digits, or -1 if any is not a hex digit. */
  function HexPrefix(h: string, n: nat): (v: int)
    requires n <= 4 && n <= |h|
    ensures -1 <= v < if n == 0 then 1 else if n == 1 then 0x10 else if n == 2 then 0x100 else if n == 3 then 0x1000 else 0x1_0000
  {
    if n == 0 then 0
    else
      var v, d := HexPrefix(h, n - 1), HexDigit(h[n - 1]);
      if v < 0 || d < 0 then -1 else v * 0x10 + d
  }

  function Hex4(h: string): (v: int)
    requires |h| >= 4
    ensures -1 <= v < 0x1_0000
  {
    HexPrefix(h, 4)
  }

  /** A digit that is not hexadecimal spoils the whole. */
  lemma {:induction false} NoHexAfter(h: string, i: nat)
    requires i < 4 <= |h| && HexDigit(h[i]) < 0
    ensures Hex4(h) < 0
  {
    var j := i + 1;
    while j < 4
      invariant i < j <= 4 && HexPrefix(h, j) < 0
    {
      j := j + 1;
    }
  }

  const LOWER: string := "0123456789abcdef"
  const UPPER: string := "0123456789ABCDEF"

  /** The hexadecimal digit of that value, in either case. */
  predicate IsHexDigitOf(c: char, d: nat)
    requires d < 16
  {
    c == LOWER[d] || c == UPPER[d]
  }

  lemma HexAlphabet(d: nat)
    requires d < 16
    ensures LOWER[d] == (if d < 10 then '0' as int + d else 'a' as int + d - 10) as char
    ensures UPPER[d] == (if d < 10 then '0' as int + d else 'A' as int + d - 10) as char
  {
  }

  lemma HexDigitReads(c: char, d: nat)
    requires d < 16
    ensures HexDigit(c) == d <==> IsHexDigitOf(c, d)
  {
    HexAlphabet(d);
  }

  /** A character is read as the digit it is, and as none exactly if it is none. */
  lemma HexDigitExact(c: char)
    ensures forall d: nat | d < 16 :: HexDigit(c) == d <==> IsHexDigitOf(c, d)
    ensures HexDigit(c) == -1 <==> c !in LOWER && c !in UPPER
  {
    forall d: nat | d < 16 ensures HexDigit(c) == d <==> IsHexDigitOf(c, d) {
      HexDigitReads(c, d);
    }
    if HexDigit(c) >= 0 { HexDigitReads(c, HexDigit(c)); }
    if c in LOWER {
      var i :| 0 <= i < 16 && LOWER[i] == c;
      HexDigitReads(c, i);
    }
    if c in UPPER {
      var i :| 0 <= i < 16 && UPPER[i] == c;
      HexDigitReads(c, i);
    }
  }

  /** Four hexadecimal digits, each in either case, spelling `u`. */
  predicate IsHexOf(h: string, u: nat)
    requires u < 0x1_0000
  {
    && |h| == 4
    && IsHexDigitOf(h[0], u / 0x1000) && IsHexDigitOf(h[1], u / 0x100 % 0x10)
    && IsHexDigitOf(h[2], u / 0x10 % 0x10) && IsHexDigitOf(h[3], u % 0x10)
  }

  /** The value of four digits, by place. */
  lemma Hex4Places(h: string)
    requires |h| == 4
    ensures var a, b, c, d := HexDigit(h[0]), HexDigit(h[1]), HexDigit(h[2]), HexDigit(h[3]);
      Hex4(h) == if a < 0 || b < 0 || c < 0 || d < 0 then -1 else a * 0x1000 + b * 0x100 + c * 0x10 + d
  {
    var a, b, c := HexDigit(h[0]), HexDigit(h[1]), HexDigit(h[2]);
    assert HexPrefix(h, 0) == 0;
    assert HexPrefix(h, 1) == a;
    assert HexPrefix(h, 2) == if a < 0 || b < 0 then -1 else a * 0x10 + b;
    assert HexPrefix(h, 3) == if a < 0 || b < 0 || c < 0 then -1 else (a * 0x10 + b) * 0x10 + c;
  }

  lemma Places(a: nat, b: nat, c: nat, d: nat, u: nat)
    requires a < 16 && b < 16 && c < 16 && d < 16 && u < 0x1_0000
    ensures u == a * 0x1000 + b * 0x100 + c * 0x10 + d
      <==> u / 0x1000 == a && u / 0x100 % 0x10 == b && u / 0x10 % 0x10 == c && u % 0x10 == d
  {
    if u == a * 0x1000 + b * 0x100 + c * 0x10 + d {
      assert u / 0x10 == a * 0x100 + b * 0x10 + c && u / 0x100 == a * 0x10 + b;
    }
  }

  /** Four characters are read as `u` exactly when they spell it. */
  lemma Hex4Exact(h: string, u: nat)
    requires |h| == 4 && u < 0x1_0000
    ensures Hex4(h) == u <==> IsHexOf(h, u)
  {
    Hex4Places(h);
    HexDigitReads(h[0], u / 0x1000);
    HexDigitReads(h[1], u / 0x100 % 0x10);
    HexDigitReads(h[2], u / 0x10 % 0x10);
    HexDigitReads(h[3], u % 0x10);
    var a, b, c, d := HexDigit(h[0]), HexDigit(h[1]), HexDigit(h[2]), HexDigit(h[3]);
    if a >= 0 && b >= 0 && c >= 0 && d >= 0 { Places(a, b, c, d, u); }
  }

  lemma {:induction false} HexPrefixLocal(h: string, k: string, n: nat)
    requires n <= 4 && n <= |h|
    ensures HexPrefix(h + k, n) == HexPrefix(h, n)
  {
    if n > 0 { HexPrefixLocal(h, k, n - 1); }
  }

  lemma HexIsLocal(s: string) returns (h: string)
    requires |s| >= 4
    ensures h == s[..4] && s == h + s[4..] && Hex4(h) == Hex4(s)
  {
    h := s[..4];
    assert s == h + s[4..];
    HexPrefixLocal(h, s[4..], 4);
  }

  predicate IsHigh(u: int) { 0xD800 <= u <= 0xDBFF }
  predicate IsLow(u: int) { 0xDC00 <= u <= 0xDFFF }

  /** RFC 2781 section 2.2: the scalar value of a surrogate pair. */
  function Combine(hi: int, lo: int): (cp: nat)
    requires IsHigh(hi) && IsLow(lo)
    ensures 0x1_0000 <= cp <= 0x10_FFFF
  {
    0x1_0000 + (hi - 0xD800) * 0x400 + (lo - 0xDC00)
  }

  /** `append_utf8`: the bytes RFC 3629 section 3 gives a code point. */
  function Utf8(cp: nat): string
    requires cp <= 0x10_FFFF
  {
    if cp < 0x80 then [cp as char]
    else if cp < 0x800 then [(0xC0 + cp / 0x40) as char, (0x80 + cp % 0x40) as char]
    else if cp < 0x1_0000 then
      [(0xE0 + cp / 0x1000) as char, (0x80 + cp / 0x40 % 0x40) as char, (0x80 + cp % 0x40) as char]
    else
      [(0xF0 + cp / 0x4_0000) as char, (0x80 + cp / 0x1000 % 0x40) as char,
       (0x80 + cp / 0x40 % 0x40) as char, (0x80 + cp % 0x40) as char]
  }

  /** The byte a one-letter escape stands for. */
  function Unescape(e: char): Option<char>
  {
    match e
    case '\"' => Some('\"')
    case '\\' => Some('\\')
    case '/' => Some('/')
    case 'n' => Some('\n')
    case 't' => Some('\t')
    case 'r' => Some('\r')
    case 'b' => Some('\U{08}')
    case 'f' => Some('\U{0C}')
    case _ => None
  }

  const ESCAPES: string := "\"\\/bfnrt"
  const ESCAPED: string := "\"\\/\U{08}\U{0C}\n\r\t"

  /** RFC 8259 section 7: the letters after a backslash, and the bytes they stand for in the same order. */
  lemma UnescapeExact(e: char)
    ensures forall i | 0 <= i < 8 :: Unescape(ESCAPES[i]) == Some(ESCAPED[i])
    ensures e !in ESCAPES ==> Unescape(e) == None
  {
    if e !in ESCAPES {
      assert forall i | 0 <= i < 8 :: ESCAPES[i] != e;
    }
  }

  /** One element of a string literal: a byte as itself, a one-letter escape, or one or two \u escapes. */
  datatype Piece = Plain(c: char) | Short(e: char) | Unit(h: string) | Pair(hi: string, lo: string)

  predicate ValidPiece(p: Piece)
  {
    match p
    case Plain(c) => c != '\"' && c != '\\'
    case Short(e) => Unescape(e).Some?
    case Unit(h) => |h| == 4 && Hex4(h) >= 0 && !IsHigh(Hex4(h)) && !IsLow(Hex4(h))
    case Pair(hi, lo) => |hi| == 4 && |lo| == 4 && IsHigh(Hex4(hi)) && IsLow(Hex4(lo))
  }

  predicate ValidPieces(ps: seq<Piece>)
  {
    forall i | 0 <= i < |ps| :: ValidPiece(ps[i])
  }

  /**
   What the general parser takes beyond that: a surrogate that is not part of a pair, and a high one followed by
   some other unit, which are kept as they are.
   */
  predicate LenientPiece(p: Piece)
  {
    match p
    case Unit(h) => |h| == 4 && Hex4(h) >= 0
    case Pair(hi, lo) => |hi| == 4 && |lo| == 4 && IsHigh(Hex4(hi)) && Hex4(lo) >= 0
    case _ => ValidPiece(p)
  }

  /** A high surrogate on its own. */
  predicate IsLoneHigh(p: Piece) { p.Unit? && |p.h| == 4 && IsHigh(Hex4(p.h)) }

  predicate IsUnicode(p: Piece) { p.Unit? || p.Pair? }

  /** A lone high surrogate is not followed by a unit it would be read together with. */
  predicate LenientPieces(ps: seq<Piece>)
  {
    ps == []
    || (LenientPiece(ps[0]) && (IsLoneHigh(ps[0]) && |ps| > 1 ==> !IsUnicode(ps[1])) && LenientPieces(ps[1..]))
  }

  lemma {:induction false} ValidAreLenient(ps: seq<Piece>)
    requires ValidPieces(ps)
    ensures LenientPieces(ps)
  {
    if ps != [] { ValidAreLenient(ps[1..]); }
  }

  /** The piece's text, then `k`. */
  function PieceThen(p: Piece, k: string): string
  {
    match p
    case Plain(c) => [c] + k
    case Short(e) => ['\\', e] + k
    case Unit(h) => ['\\', 'u'] + (h + k)
    case Pair(hi, lo) => ['\\', 'u'] + (hi + (['\\', 'u'] + (lo + k)))
  }

  /** The bytes a piece denotes, none if it is no piece. */
  function PieceValue(p: Piece): string
  {
    match p
    case Plain(c) => [c]
    case Short(e) => if Unescape(e).Some? then [Unescape(e).value] else ""
    case Unit(h) => if |h| == 4 && Hex4(h) >= 0 then Utf8(Hex4(h)) else ""
    case Pair(hi, lo) =>
      if |hi| != 4 || |lo| != 4 || !IsHigh(Hex4(hi)) || Hex4(lo) < 0 then ""
      else if IsLow(Hex4(lo)) then Utf8(Combine(Hex4(hi), Hex4(lo)))
      else Utf8(Hex4(hi)) + Utf8(Hex4(lo))
  }

  /** The pieces' text, then `k`. */
  function PiecesThen(ps: seq<Piece>, k: string): string
  {
    if ps == [] then k else PieceThen(ps[0], PiecesThen(ps[1..], k))
  }

  /** The string a literal denotes. */
  function StringValue(ps: seq<Piece>): string
  {
    if ps == [] then "" else PieceValue(ps[0]) + StringValue(ps[1..])
  }

  function LiteralThen(ps: seq<Piece>, k: string): string
  {
    ['\"'] + PiecesThen(ps, ['\"'] + k)
  }

  // ---- Unicode ----

  predicate IsScalar(cp: nat)
  {
    cp < 0xD800 || 0xE000 <= cp <= 0x10_FFFF
  }

  /** A byte that continues a multi-byte sequence. */
  predicate IsTail(c: char) { 0x80 <= c as int < 0xC0 }

  function TailBits(c: char): nat { c as int % 0x40 }

  /**
   The decoder of RFC 3629 section 3, which accepts only shortest forms of scalar values. It is the
   independent meaning the encoder's bytes are measured against.
   */
  function DecodeUtf8(s: string): Option<seq<nat>>
  {
    if s == "" then Some([])
    else
      var c := s[0] as int;
      if c < 0x80 then Prepend(c, DecodeUtf8(s[1..]))
      else if 0xC0 <= c < 0xE0 && |s| >= 2 && IsTail(s[1]) then
        var cp := c % 0x20 * 0x40 + TailBits(s[1]);
        if cp < 0x80 then None else Prepend(cp, DecodeUtf8(s[2..]))
      else if 0xE0 <= c < 0xF0 && |s| >= 3 && IsTail(s[1]) && IsTail(s[2]) then
        var cp := c % 0x10 * 0x1000 + TailBits(s[1]) * 0x40 + TailBits(s[2]);
        if cp < 0x800 || !IsScalar(cp) then None else Prepend(cp, DecodeUtf8(s[3..]))
      else if 0xF0 <= c < 0xF8 && |s| >= 4 && IsTail(s[1]) && IsTail(s[2]) && IsTail(s[3]) then
        var cp := c % 0x08 * 0x4_0000 + TailBits(s[1]) * 0x1000 + TailBits(s[2]) * 0x40 + TailBits(s[3]);
        if cp < 0x1_0000 || !IsScalar(cp) then None else Prepend(cp, DecodeUtf8(s[4..]))
      else None
  }

  function Prepend(cp: nat, r: Option<seq<nat>>): Option<seq<nat>>
  {
    if r.None? then None else Some([cp] + r.value)
  }

  lemma TailByte(n: nat)
    requires n < 0x40
    ensures IsTail((0x80 + n) as char) && TailBits((0x80 + n) as char) == n
  {
  }

  /** The payload bits of the first byte of three, and of four when they fit. */
  lemma LeadBits(n: nat)
    requires n < 0x10
    ensures (0xE0 + n) % 0x10 == n && (n < 8 ==> (0xF0 + n) % 0x08 == n)
  {
  }

  lemma {:induction false} Utf8One(cp: nat, k: string)
    requires cp < 0x80
    ensures DecodeUtf8(Utf8(cp) + k) == Prepend(cp, DecodeUtf8(k))
  {
    assert ([cp as char] + k)[1..] == k;
  }

  lemma {:induction false} Utf8Two(a: nat, b: nat, k: string)
    requires 2 <= a < 0x20 && b < 0x40
    ensures DecodeUtf8(Utf8(a * 0x40 + b) + k) == Prepend(a * 0x40 + b, DecodeUtf8(k))
  {
    var t := [(0xC0 + a) as char, (0x80 + b) as char];
    assert Utf8(a * 0x40 + b) == t;
    assert (t + k)[2..] == k;
  }

  lemma EncodeThree(a: nat, b: nat, c: nat)
    requires a < 0x10 && b < 0x40 && c < 0x40 && (a > 0 || b >= 0x20)
    ensures Utf8(a * 0x1000 + b * 0x40 + c) == [(0xE0 + a) as char, (0x80 + b) as char, (0x80 + c) as char]
  {
    var cp := a * 0x1000 + b * 0x40 + c;
    assert cp / 0x1000 == a;
    assert cp / 0x40 == a * 0x40 + b;
  }

  lemma {:induction false} ThreeChars(x: char, y: char, z: char, cp: nat, k: string)
    requires 0xE0 <= x as int < 0xF0 && IsTail(y) && IsTail(z)
    requires cp == x as int % 0x10 * 0x1000 + TailBits(y) * 0x40 + TailBits(z) && 0x800 <= cp && IsScalar(cp)
    ensures DecodeUtf8([x, y, z] + k) == Prepend(cp, DecodeUtf8(k))
  {
    assert ([x, y, z] + k)[3..] == k;
  }

  lemma {:induction false} DecodeThree(a: nat, b: nat, c: nat, k: string)
    requires a < 0x10 && b < 0x40 && c < 0x40
    requires var cp := a * 0x1000 + b * 0x40 + c; 0x800 <= cp && IsScalar(cp)
    ensures DecodeUtf8([(0xE0 + a) as char, (0x80 + b) as char, (0x80 + c) as char] + k)
         == Prepend(a * 0x1000 + b * 0x40 + c, DecodeUtf8(k))
  {
    LeadBits(a);
    TailByte(b);
    TailByte(c);
    ThreeChars((0xE0 + a) as char, (0x80 + b) as char, (0x80 + c) as char, a * 0x1000 + b * 0x40 + c, k);
  }

  lemma EncodeFour(a: nat, b: nat, c: nat, d: nat)
    requires a < 8 && b < 0x40 && c < 0x40 && d < 0x40
    requires 0x1_0000 <= a * 0x4_0000 + b * 0x1000 + c * 0x40 + d <= 0x10_FFFF
    ensures Utf8(a * 0x4_0000 + b * 0x1000 + c * 0x40 + d)
         == [(0xF0 + a) as char, (0x80 + b) as char, (0x80 + c) as char, (0x80 + d) as char]
  {
    var cp := a * 0x4_0000 + b * 0x1000 + c * 0x40 + d;
    assert cp / 0x4_0000 == a;
    assert cp / 0x1000 == a * 0x40 + b;
    assert cp / 0x40 == (a * 0x40 + b) * 0x40 + c;
  }

  lemma {:induction false} FourChars(x: char, y: char, z: char, t: char, cp: nat, k: string)
    requires 0xF0 <= x as int < 0xF8 && IsTail(y) && IsTail(z) && IsTail(t)
    requires cp == x as int % 0x08 * 0x4_0000 + TailBits(y) * 0x1000 + TailBits(z) * 0x40 + TailBits(t)
    requires 0x1_0000 <= cp && IsScalar(cp)
    ensures DecodeUtf8([x, y, z, t] + k) == Prepend(cp, DecodeUtf8(k))
  {
    assert ([x, y, z, t] + k)[4..] == k;
  }

  lemma {:induction false} DecodeFour(a: nat, b: nat, c: nat, d: nat, k: string)
    requires a < 8 && b < 0x40 && c < 0x40 && d < 0x40
    requires var cp := a * 0x4_0000 + b * 0x1000 + c * 0x40 + d; 0x1_0000 <= cp && IsScalar(cp)
    ensures DecodeUtf8([(0xF0 + a) as char, (0x80 + b) as char, (0x80 + c) as char, (0x80 + d) as char] + k)
         == Prepend(a * 0x4_0000 + b * 0x1000 + c * 0x40 + d, DecodeUtf8(k))
  {
    LeadBits(a);
    TailByte(b);
    TailByte(c);
    TailByte(d);
    FourChars((0xF0 + a) as char, (0x80 + b) as char, (0x80 + c) as char, (0x80 + d) as char,
      a * 0x4_0000 + b * 0x1000 + c * 0x40 + d, k);
  }

  /** Base-64 digits of a code point. */
  lemma Digits(cp: nat) returns (a: nat, b: nat, c: nat, d: nat)
    requires cp <= 0x10_FFFF
    ensures a < 8 && b < 0x40 && c < 0x40 && d < 0x40
    ensures cp == a * 0x4_0000 + b * 0x1000 + c * 0x40 + d
  {
    d := cp % 0x40;
    var q := cp / 0x40;
    c := q % 0x40;
    b, a := q / 0x40 % 0x40, q / 0x40 / 0x40;
  }

  /** The decoder undoes the encoder on every scalar value, whatever follows. */
  lemma {:induction false} Utf8First(cp: nat, k: string)
    requires IsScalar(cp)
    ensures DecodeUtf8(Utf8(cp) + k) == Prepend(cp, DecodeUtf8(k))
  {
    var a, b, c, d := Digits(cp);
    if cp < 0x80 {
      Utf8One(cp, k);
    } else if cp < 0x800 {
      Utf8Two(b * 0x40 + c, d, k);
    } else if cp < 0x1_0000 {
      EncodeThree(b, c, d);
      DecodeThree(b, c, d, k);
    } else {
      EncodeFour(a, b, c, d);
      DecodeFour(a, b, c, d, k);
    }
  }

  function HighOf(cp: nat): nat
    requires cp >= 0x1_0000
  {
    0xD800 + (cp - 0x1_0000) / 0x400
  }

  function LowOf(cp: nat): nat
    requires cp >= 0x1_0000
  {
    0xDC00 + (cp - 0x1_0000) % 0x400
  }

  /**
   The escape spells the code point: one unit of four digits, or the pair RFC 2781 section 2.1 gives it, each digit in
   either case.
   */
  predicate SpellsOne(p: Piece, cp: nat)
  {
    match p
    case Unit(h) => cp < 0x1_0000 && IsScalar(cp) && IsHexOf(h, cp)
    case Pair(hi, lo) => 0x1_0000 <= cp <= 0x10_FFFF && IsHexOf(hi, HighOf(cp)) && IsHexOf(lo, LowOf(cp))
    case _ => false
  }

  predicate Spells(ps: seq<Piece>, cps: seq<nat>)
  {
    |ps| == |cps| && forall i | 0 <= i < |ps| :: SpellsOne(ps[i], cps[i])
  }

  lemma HalvesCombine(cp: nat)
    requires 0x1_0000 <= cp <= 0x10_FFFF
    ensures IsHigh(HighOf(cp)) && IsLow(LowOf(cp)) && Combine(HighOf(cp), LowOf(cp)) == cp
  {
  }

  lemma UnitDenotes(h: string, cp: nat)
    requires cp < 0x1_0000 && IsScalar(cp) && IsHexOf(h, cp)
    ensures ValidPiece(Unit(h)) && PieceValue(Unit(h)) == Utf8(cp)
  {
    Hex4Exact(h, cp);
  }

  lemma PairDenotes(hi: string, lo: string, cp: nat, a: nat, b: nat)
    requires IsHigh(a) && IsLow(b) && Combine(a, b) == cp && IsHexOf(hi, a) && IsHexOf(lo, b)
    ensures ValidPiece(Pair(hi, lo)) && PieceValue(Pair(hi, lo)) == Utf8(cp)
  {
    Hex4Exact(hi, a);
    Hex4Exact(lo, b);
  }

  lemma SpelledOne(p: Piece, cp: nat)
    requires SpellsOne(p, cp)
    ensures IsScalar(cp) && ValidPiece(p) && PieceValue(p) == Utf8(cp)
  {
    match p
    case Unit(h) => UnitDenotes(h, cp);
    case Pair(hi, lo) =>
      HalvesCombine(cp);
      PairDenotes(hi, lo, cp, HighOf(cp), LowOf(cp));
  }

  lemma SpellsSplit(ps: seq<Piece>, cps: seq<nat>)
    requires ps != [] && Spells(ps, cps)
    ensures SpellsOne(ps[0], cps[0]) && Spells(ps[1..], cps[1..]) && cps == [cps[0]] + cps[1..]
  {
  }

  lemma ValidMore(ps: seq<Piece>)
    requires ps != [] && ValidPiece(ps[0]) && ValidPieces(ps[1..])
    ensures ValidPieces(ps)
  {
    assert ps == [ps[0]] + ps[1..];
  }

  /** Escapes, however their digits are written, denote the shortest-form UTF-8 of exactly the code points they spell. */
  lemma {:induction false} EscapesAreUtf8(ps: seq<Piece>, cps: seq<nat>)
    requires Spells(ps, cps)
    ensures ValidPieces(ps) && DecodeUtf8(StringValue(ps)) == Some(cps)
  {
    if ps == [] {
      assert cps == [];
    } else {
      SpellsSplit(ps, cps);
      SpelledOne(ps[0], cps[0]);
      EscapesAreUtf8(ps[1..], cps[1..]);
      ValidMore(ps);
      Utf8First(cps[0], StringValue(ps[1..]));
    }
  }

  /** The digits of a unit, `caps` saying which are written as capitals. */
  function HexText(u: nat, caps: seq<bool>): (h: string)
    requires u < 0x1_0000 && |caps| == 4
    ensures IsHexOf(h, u)
  {
    [if caps[0] then UPPER[u / 0x1000] else LOWER[u / 0x1000],
     if caps[1] then UPPER[u / 0x100 % 0x10] else LOWER[u / 0x100 % 0x10],
     if caps[2] then UPPER[u / 0x10 % 0x10] else LOWER[u / 0x10 % 0x10],
     if caps[3] then UPPER[u % 0x10] else LOWER[u % 0x10]]
  }

  /** Every unit, in any mix of cases, is read back. */
  lemma EveryUnitRead(u: nat, caps: seq<bool>)
    requires u < 0x1_0000 && |caps| == 4
    ensures Hex4(HexText(u, caps)) == u
  {
    Hex4Exact(HexText(u, caps), u);
  }

  /** So different code point sequences, however they are escaped, denote different bytes. */
  lemma {:induction false} EscapesInjective(ps: seq<Piece>, cps: seq<nat>, ps': seq<Piece>, cps': seq<nat>)
    requires Spells(ps, cps) && Spells(ps', cps')
    requires StringValue(ps) == StringValue(ps')
    ensures cps == cps'
  {
    EscapesAreUtf8(ps, cps);
    EscapesAreUtf8(ps', cps');
  }
}

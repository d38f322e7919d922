/**
 Safetensors headers as concrete syntax, with any white space, escapes, field order and unknown fields, and
 what they mean without reference to text. Reading a rendering gives the meaning, errors included.
 */
module SafetensorsDocument {
  import opened MachineWords
  import opened Results
  import opened JsonText
  import opened SafetensorsParser
  import J = JsonDocument

  // ---- Decimal integers ----

  function Digit(d: nat): char
    requires d < 10
  {
    ('0' as int + d) as char
  }

  /** `std::to_string` of a nonnegative integer. */
  function Decimal(n: nat): string
  {
    if n < 10 then [Digit(n)] else Decimal(n / 10) + [Digit(n % 10)]
  }

  // ---- Syntax ----

  /** An integer as it may be spelled: a minus sign, any number of zeros, then the decimal. */
  datatype Int = Int(w0: string, neg: bool, zeros: string, n: nat, w1: string)

  /** The spelling a writer uses. */
  function Canonical(n: nat): Int { Int("", false, "", n, "") }

  /** A piece of skipped text: a character, or a string literal, inside which brackets do not count. */
  datatype Part = Ch(c: char) | Lit(ps: seq<Piece>)

  /**
   A value the reader passes over: any JSON value, but also less than that, a run of characters that ends where a
   token does, or a bracket with anything up to the one that closes it.
   */
  datatype Extra =
    | Json(d: J.Doc)
    | Token(t: string)
    | Bracketed(curly: bool, parts: seq<Part>)

  datatype FieldValue =
    | DtypeField(ps: seq<Piece>)
    | ShapeField(w: string, ns: seq<Int>)
    | OffsetsField(a: Int, b: Int)
    | OtherField(x: Extra)

  datatype Field = Field(w0: string, key: seq<Piece>, w1: string, w2: string, v: FieldValue, w3: string)

  datatype MemberValue =
    | TensorEntry(w: string, fields: seq<Field>)
    | Metadata(x: Extra)

  datatype Member = Member(w0: string, key: seq<Piece>, w1: string, w2: string, v: MemberValue, w3: string)

  /** `w` is the white space of an empty list; `w0` and `w1` surround the object. */
  datatype HeaderDoc = HeaderDoc(w0: string, w: string, members: seq<Member>, w1: string)

  predicate AllZeros(z: string) { forall i | 0 <= i < |z| :: z[i] == '0' }

  predicate ValidInt(i: Int) { IsBlank(i.w0) && AllZeros(i.zeros) && IsBlank(i.w1) }

  function IntValue(i: Int): int { if i.neg then 0 - i.n else i.n }

  predicate ValidInts(ns: seq<Int>) { ns == [] || (ValidInt(ns[0]) && ValidInts(ns[1..])) }

  function OpenOf(curly: bool): char { if curly then '{' else '[' }
  function CloseOf(curly: bool): char { if curly then '}' else ']' }

  /** With `depth` brackets of the kind open before the parts, one is open after them, and never none between. */
  predicate Balanced(parts: seq<Part>, curly: bool, depth: nat)
  {
    if parts == [] then depth == 1
    else
      match parts[0]
      case Lit(ps) => ValidPieces(ps) && Balanced(parts[1..], curly, depth)
      case Ch(c) =>
        && c != '\"'
        && if c == OpenOf(curly) then Balanced(parts[1..], curly, depth + 1)
           else if c == CloseOf(curly) then depth > 1 && Balanced(parts[1..], curly, depth - 1)
           else Balanced(parts[1..], curly, depth)
  }

  predicate IsToken(t: string)
  {
    (forall i | 0 <= i < |t| :: !EndsToken(t[i])) && (t != "" ==> t[0] !in {'\"', '{', '['})
  }

  predicate ValidExtra(x: Extra)
  {
    match x
    case Json(d) => J.Valid(d)
    case Token(t) => IsToken(t)
    case Bracketed(curly, parts) => Balanced(parts, curly, 1)
  }

  predicate ValidFieldValue(v: FieldValue, key: string)
  {
    match v
    case DtypeField(ps) => key == "dtype" && ValidPieces(ps)
    case ShapeField(w, ns) => key == "shape" && IsBlank(w) && ValidInts(ns)
    case OffsetsField(a, b) => key == "data_offsets" && ValidInt(a) && ValidInt(b)
    case OtherField(x) => key !in {"dtype", "shape", "data_offsets"} && ValidExtra(x)
  }

  predicate ValidField(f: Field)
  {
    && IsBlank(f.w0) && ValidPieces(f.key) && IsBlank(f.w1) && IsBlank(f.w2) && IsBlank(f.w3)
    && ValidFieldValue(f.v, StringValue(f.key))
    && (f.v == OtherField(Token("")) ==> f.w3 == "")
  }

  predicate ValidFields(fs: seq<Field>) { fs == [] || (ValidField(fs[0]) && ValidFields(fs[1..])) }

  predicate ValidMember(m: Member)
  {
    && IsBlank(m.w0) && ValidPieces(m.key) && IsBlank(m.w1) && IsBlank(m.w2) && IsBlank(m.w3)
    && match m.v
       case TensorEntry(w, fields) =>
         StringValue(m.key) != METADATA && IsBlank(w) && ValidFields(fields)
       case Metadata(x) => StringValue(m.key) == METADATA && ValidExtra(x) && (x == Token("") ==> m.w3 == "")
  }

  predicate ValidMembers(ms: seq<Member>) { ms == [] || (ValidMember(ms[0]) && ValidMembers(ms[1..])) }

  predicate ValidHeader(h: HeaderDoc)
  {
    IsBlank(h.w0) && IsBlank(h.w) && IsBlank(h.w1) && ValidMembers(h.members)
  }

  // ---- Text ----

  function DigitsThen(i: Int, k: string): string { i.zeros + (Decimal(i.n) + (i.w1 + k)) }

  function MinusThen(neg: bool, t: string): string { if neg then ['-'] + t else t }

  function IntThen(i: Int, k: string): string { i.w0 + MinusThen(i.neg, DigitsThen(i, k)) }

  /** The rest of a shape after an element, its closing bracket included. */
  function IntsAfter(ns: seq<Int>, k: string): string
  {
    if ns == [] then [']'] + k else [','] + IntThen(ns[0], IntsAfter(ns[1..], k))
  }

  function PartsThen(parts: seq<Part>, k: string): string
  {
    if parts == [] then k
    else
      match parts[0]
      case Ch(c) => [c] + PartsThen(parts[1..], k)
      case Lit(ps) => LiteralThen(ps, PartsThen(parts[1..], k))
  }

  function ExtraThen(x: Extra, k: string): string
  {
    match x
    case Json(d) => J.Then(d, k)
    case Token(t) => t + k
    case Bracketed(curly, parts) => [OpenOf(curly)] + PartsThen(parts, [CloseOf(curly)] + k)
  }

  function FieldValueThen(v: FieldValue, k: string): string
  {
    match v
    case DtypeField(ps) => LiteralThen(ps, k)
    case ShapeField(w, ns) => ['['] + if ns == [] then w + ([']'] + k) else IntThen(ns[0], IntsAfter(ns[1..], k))
    case OffsetsField(a, b) => ['['] + IntThen(a, [','] + IntThen(b, [']'] + k))
    case OtherField(x) => ExtraThen(x, k)
  }

  function FieldThen(f: Field, k: string): string
  {
    f.w0 + LiteralThen(f.key, f.w1 + ([':'] + (f.w2 + FieldValueThen(f.v, f.w3 + k))))
  }

  function FieldsAfter(fs: seq<Field>, k: string): string
  {
    if fs == [] then ['}'] + k else [','] + FieldThen(fs[0], FieldsAfter(fs[1..], k))
  }

  function MemberValueThen(v: MemberValue, k: string): string
  {
    match v
    case TensorEntry(w, fs) => ['{'] + if fs == [] then w + (['}'] + k) else FieldThen(fs[0], FieldsAfter(fs[1..], k))
    case Metadata(x) => ExtraThen(x, k)
  }

  function MemberThen(m: Member, k: string): string
  {
    m.w0 + LiteralThen(m.key, m.w1 + ([':'] + (m.w2 + MemberValueThen(m.v, m.w3 + k))))
  }

  function MembersAfter(ms: seq<Member>, k: string): string
  {
    if ms == [] then ['}'] + k else [','] + MemberThen(ms[0], MembersAfter(ms[1..], k))
  }

  function HeaderText(h: HeaderDoc): string
  {
    h.w0 + (['{'] + if h.members == [] then h.w + (['}'] + h.w1) else MemberThen(h.members[0], MembersAfter(h.members[1..], h.w1)))
  }

  // ---- Meaning ----

  /** The integers of a shape, None if one does not fit in 64 bits. */
  function Values(ns: seq<Int>): Option<seq<int>>
  {
    if ns == [] then Some([])
    else
      var tail := Values(ns[1..]);
      if ns[0].n > INT64_MAX || tail.None? then None else Some([IntValue(ns[0])] + tail.value)
  }

  /** A field recorded in an entry; None where the reader throws. */
  function Record(e: Entry, v: FieldValue): Option<Entry>
    requires v.DtypeField? ==> ValidPieces(v.ps)
  {
    match v
    case DtypeField(ps) =>
      var d := ParseDtype(StringValue(ps));
      if e.seenDtype || d == Unknown then None else Some(e.(dtype := d, seenDtype := true))
    case ShapeField(_, ns) =>
      var v := Values(ns);
      if e.seenShape || v.None? then None else Some(e.(shape := v.value, seenShape := true))
    case OffsetsField(a, b) =>
      if e.seenOffsets || a.n > INT64_MAX || b.n > INT64_MAX || IntValue(a) < 0 || IntValue(b) < 0 then None
      else Some(e.(offStart := IntValue(a), offEnd := IntValue(b), seenOffsets := true))
    case OtherField(_) => Some(e)
  }

  function RecordAll(e: Entry, fs: seq<Field>): Option<Entry>
    requires ValidFields(fs)
    decreases |fs|
  {
    if fs == [] then if e.seenDtype && e.seenShape && e.seenOffsets then Some(e) else None
    else
      var e' := Record(e, fs[0].v);
      if e'.None? then None else RecordAll(e'.value, fs[1..])
  }

  /** A member added to the header read so far. */
  function Admit(h: Header, m: Member, base: nat, payload: nat): Option<Header>
    requires ValidMember(m)
  {
    match m.v
    case Metadata(_) => if h.seenMetadata then None else Some(h.(seenMetadata := true))
    case TensorEntry(_, fs) =>
      var e := RecordAll(NO_FIELDS, fs);
      if e.None? then None
      else
        var v := MakeView(StringValue(m.key), e.value, base, payload);
        if v.Bad? then None
        else
          var h' := AddView(h, v.value);
          if h'.Bad? then None else Some(h'.value)
  }

  function AdmitAll(h: Header, ms: seq<Member>, base: nat, payload: nat): Option<Header>
    requires ValidMembers(ms)
    decreases |ms|
  {
    if ms == [] then Some(h)
    else
      var h' := Admit(h, ms[0], base, payload);
      if h'.None? then None else AdmitAll(h'.value, ms[1..], base, payload)
  }

  /** The views a header describes, None where the reader throws. */
  function HeaderMeaning(h: HeaderDoc, base: nat, payload: nat): Option<seq<TensorView>>
    requires ValidHeader(h)
  {
    var r := AdmitAll(Header([], false), h.members, base, payload);
    if r.None? then None else Some(r.value.views)
  }
}

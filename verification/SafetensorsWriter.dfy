/** The safetensors writer: its checks, the header it prints and the file it produces. */
module SafetensorsWriter {
  import opened MachineWords
  import opened Results
  import opened JsonText
  import opened SafetensorsParser
  import opened SafetensorsDocument

  /** `bytes` bytes at `data`, None being a null pointer. */
  datatype WriteEntry = WriteEntry(name: string, dtype: Dtype, shape: seq<int>, data: Option<string>, bytes: nat)

  /** What the C++ types say: 64-bit sizes and dimensions, and a data pointer that covers its bytes. */
  predicate Typed(e: WriteEntry)
  {
    && e.bytes <= SIZE_MAX
    && (e.data.Some? ==> |e.data.value| == e.bytes)
    && forall i | 0 <= i < |e.shape| :: -(INT64_MAX as int) - 1 <= e.shape[i] <= INT64_MAX
  }

  predicate AllTyped(es: seq<WriteEntry>) { es == [] || (Typed(es[0]) && AllTyped(es[1..])) }

  /** The checks on one entry, given the names before it and the offset it would get; the offset after it. */
  function CheckEntry(e: WriteEntry, seen: set<string>, cursor: nat): Checked<nat>
  {
    if e.name == "" then Bad("empty tensor name")
    else if e.name in seen then Bad("duplicate tensor name")
    else if e.data.None? && e.bytes > 0 then Bad("null data")
    else if DtypeSize(e.dtype) == 0 then Bad("bad dtype")
    else
      var n := Numel(e.shape, 1);
      if n.Bad? then Bad(n.message)
      else if n.value > SIZE_MAX / DtypeSize(e.dtype) then Bad("byte count overflows size_t")
      else if n.value * DtypeSize(e.dtype) != e.bytes then Bad("byte count mismatch")
      else if cursor > SIZE_MAX || e.bytes > SIZE_MAX - cursor then Bad("offset overflows uint64")
      else Good(cursor + e.bytes)
  }

  /** The whole validation pass, ending with the payload's size. */
  function CheckAll(es: seq<WriteEntry>, seen: set<string>, cursor: nat): Checked<nat>
    decreases |es|
  {
    if es == [] then Good(cursor)
    else
      var c := CheckEntry(es[0], seen, cursor);
      if c.Bad? then c else CheckAll(es[1..], seen + {es[0].name}, c.value)
  }

  // ---- Header text ----

  /** A lower-case hex digit. */
  function HexChar(d: nat): char
    requires d < 16
  {
    if d < 10 then ('0' as int + d) as char else ('a' as int + (d - 10)) as char
  }

  /** What `json_escape_append` writes for one byte. */
  function EscapeChar(c: char): string
  {
    if c == '\"' then "\\\""
    else if c == '\\' then "\\\\"
    else if c == '\n' then "\\n"
    else if c == '\t' then "\\t"
    else if c == '\r' then "\\r"
    else if c == '\U{08}' then "\\b"
    else if c == '\U{0C}' then "\\f"
    else if c as int < 0x20 then "\\u00" + [HexChar(c as int / 16), HexChar(c as int % 16)]
    else [c]
  }

  function Escaped(s: string): string
  {
    if s == "" then "" else EscapeChar(s[0]) + Escaped(s[1..])
  }

  function DtypeName(d: Dtype): string
    requires d != Unknown
  {
    match d
    case F32 => "F32"
    case F16 => "F16"
    case BF16 => "BF16"
    case I32 => "I32"
    case I64 => "I64"
    case U8 => "U8"
    case BOOL => "BOOL"
  }

  /** `std::to_string`. */
  function ToString(n: int): string
  {
    if n < 0 then "-" + Decimal(-n) else Decimal(n)
  }

  /** Dimensions separated by commas. */
  function ShapeText(ns: seq<int>, first: bool): string
  {
    if ns == [] then "" else (if first then "" else ",") + ToString(ns[0]) + ShapeText(ns[1..], false)
  }

  /** An entry's text around its name, dtype, shape and offsets, then `k`. */
  function EntryThen(n: string, d: string, s: string, a: string, b: string, k: string): string
  {
    "\"" + (n + ("\":{\"dtype\":\"" + (d + ("\",\"shape\":[" + (s + ("],\"data_offsets\":[" + (a + ("," + (b + ("]}" + k))))))))))
  }

  function WriteThen(e: WriteEntry, off: nat, k: string): string
    requires e.dtype != Unknown
  {
    EntryThen(Escaped(e.name), DtypeName(e.dtype), ShapeText(e.shape, true), Decimal(off), Decimal(off + e.bytes), k)
  }

  predicate AllKnown(es: seq<WriteEntry>) { es == [] || (es[0].dtype != Unknown && AllKnown(es[1..])) }

  /** The entries from the one at offset `off` on, then `k`. */
  function EntriesThen(es: seq<WriteEntry>, off: nat, first: bool, k: string): string
    requires AllKnown(es)
    decreases |es|
  {
    if es == [] then k
    else
      var e := WriteThen(es[0], off, EntriesThen(es[1..], off + es[0].bytes, false, k));
      if first then e else "," + e
  }

  function Spaces(n: nat): string { seq(n, _ => ' ') }

  function Padding(n: nat): (p: nat)
    ensures p < 8 && (n + p) % 8 == 0
  {
    (8 - n % 8) % 8
  }

  /** The header, padded with spaces to a multiple of eight bytes. */
  function HeaderBytes(es: seq<WriteEntry>): (h: string)
    requires AllKnown(es)
    ensures |h| % 8 == 0
  {
    var t := "{" + EntriesThen(es, 0, true, "}");
    t + Spaces(Padding(|t|))
  }

  // ---- The file ----

  /** The low `n` bytes of a number, little-endian. */
  function ToLe(v: nat, n: nat): (s: string)
    ensures |s| == n
    decreases n, v
  {
    if n == 0 then "" else [(v % 0x100) as char] + ToLe(v / 0x100, n - 1)
  }

  function Payload(es: seq<WriteEntry>): string
  {
    if es == [] then ""
    else (if es[0].data.Some? then es[0].data.value else "") + Payload(es[1..])
  }

  /** The bytes `write_file` leaves on disk, or its refusal. */
  function FileBytes(es: seq<WriteEntry>): Checked<string>
  {
    var total := CheckAll(es, {}, 0);
    if total.Bad? then Bad(total.message)
    else
      CheckedAreKnown(es, {}, 0);
      Good(ToLe(|HeaderBytes(es)|, 8) + HeaderBytes(es) + Payload(es))
  }

  lemma {:induction false} CheckedAreKnown(es: seq<WriteEntry>, seen: set<string>, cursor: nat)
    requires CheckAll(es, seen, cursor).Good?
    ensures AllKnown(es)
    decreases |es|
  {
    if es != [] {
      CheckedAreKnown(es[1..], seen + {es[0].name}, CheckEntry(es[0], seen, cursor).value);
    }
  }

  // ---- The header as a document ----

  function PieceOf(c: char): (p: Piece)
    ensures ValidPiece(p) && PieceValue(p) == [c]
  {
    if c == '\"' then Short('\"')
    else if c == '\\' then Short('\\')
    else if c == '\n' then Short('n')
    else if c == '\t' then Short('t')
    else if c == '\r' then Short('r')
    else if c == '\U{08}' then Short('b')
    else if c == '\U{0C}' then Short('f')
    else if c as int < 0x20 then
      ControlHex(c as int);
      Unit("00" + [HexChar(c as int / 16), HexChar(c as int % 16)])
    else Plain(c)
  }

  lemma ControlHex(v: nat)
    requires v < 0x20
    ensures Hex4("00" + [HexChar(v / 16), HexChar(v % 16)]) == v
  {
    var h := "00" + [HexChar(v / 16), HexChar(v % 16)];
    assert HexDigit(h[2]) == v / 16 && HexDigit(h[3]) == v % 16;
    assert HexPrefix(h, 1) == 0;
    assert HexPrefix(h, 2) == 0;
    assert HexPrefix(h, 3) == v / 16;
  }

  function PiecesOf(s: string): seq<Piece>
  {
    seq(|s|, i requires 0 <= i < |s| => PieceOf(s[i]))
  }

  lemma PiecesStep(s: string)
    requires s != ""
    ensures PiecesOf(s)[0] == PieceOf(s[0]) && PiecesOf(s)[1..] == PiecesOf(s[1..])
  {
  }

  lemma {:induction false} PiecesDenote(s: string)
    ensures ValidPieces(PiecesOf(s)) && StringValue(PiecesOf(s)) == s
  {
    if s != "" {
      PiecesStep(s);
      PiecesDenote(s[1..]);
      assert s == [s[0]] + s[1..];
    }
  }

  lemma PieceIsEscape(c: char, k: string)
    ensures PieceThen(PieceOf(c), k) == EscapeChar(c) + k
  {
  }

  lemma {:induction false} PiecesAreEscaped(s: string, k: string)
    ensures PiecesThen(PiecesOf(s), k) == Escaped(s) + k
  {
    if s != "" {
      PiecesStep(s);
      PiecesAreEscaped(s[1..], k);
      PieceIsEscape(s[0], Escaped(s[1..]) + k);
    }
  }

  predicate IsPlain(s: string) { forall i | 0 <= i < |s| :: EscapeChar(s[i]) == [s[i]] }

  lemma {:induction false} PlainIsEscaped(s: string)
    requires IsPlain(s)
    ensures Escaped(s) == s
  {
    if s != "" {
      PlainIsEscaped(s[1..]);
      assert s == [s[0]] + s[1..];
    }
  }

  predicate NonNegative(ns: seq<int>) { forall i | 0 <= i < |ns| :: ns[i] >= 0 }

  function IntsOf(ns: seq<int>): (r: seq<Int>)
    requires NonNegative(ns)
    ensures |r| == |ns|
  {
    if ns == [] then [] else [Canonical(ns[0])] + IntsOf(ns[1..])
  }

  const DTYPE_KEY: string := "dtype"
  const SHAPE_KEY: string := "shape"
  const OFFSETS_KEY: string := "data_offsets"

  function DtypeFieldOf(d: Dtype): Field
    requires d != Unknown
  {
    Field("", PiecesOf(DTYPE_KEY), "", "", DtypeField(PiecesOf(DtypeName(d))), "")
  }

  function ShapeFieldOf(shape: seq<int>): Field
    requires NonNegative(shape)
  {
    Field("", PiecesOf(SHAPE_KEY), "", "", ShapeField("", IntsOf(shape)), "")
  }

  function OffsetsFieldOf(a: nat, b: nat): Field
  {
    Field("", PiecesOf(OFFSETS_KEY), "", "", OffsetsField(Canonical(a), Canonical(b)), "")
  }

  function FieldsOf(e: WriteEntry, off: nat): seq<Field>
    requires e.dtype != Unknown && NonNegative(e.shape)
  {
    [DtypeFieldOf(e.dtype), ShapeFieldOf(e.shape), OffsetsFieldOf(off, off + e.bytes)]
  }

  function MemberOf(e: WriteEntry, off: nat): Member
    requires e.dtype != Unknown && NonNegative(e.shape)
  {
    Member("", PiecesOf(e.name), "", "", TensorEntry("", FieldsOf(e, off)), "")
  }

  predicate Printable(es: seq<WriteEntry>)
  {
    es == [] || (es[0].dtype != Unknown && NonNegative(es[0].shape) && Printable(es[1..]))
  }

  function MembersOf(es: seq<WriteEntry>, off: nat): (ms: seq<Member>)
    requires Printable(es)
    ensures |ms| == |es|
  {
    if es == [] then [] else [MemberOf(es[0], off)] + MembersOf(es[1..], off + es[0].bytes)
  }

  // ---- The text is the document's ----

  lemma {:induction false} PlainInt(n: nat, k: string)
    ensures IntThen(Canonical(n), k) == Decimal(n) + k
  {
    Lead(k);
    Lead(Decimal(n) + k);
    Lead("" + (Decimal(n) + k));
  }

  lemma {:induction false} IntsMore(i: Int, tail: seq<Int>, k: string)
    ensures IntsAfter([i] + tail, k) == [','] + IntThen(i, IntsAfter(tail, k))
  {
    assert ([i] + tail)[1..] == tail;
  }

  lemma {:induction false} ShapeTextMore(ns: seq<int>)
    requires ns != []
    ensures ShapeText(ns, false) == "," + ToString(ns[0]) + ShapeText(ns[1..], false)
  {
  }

  lemma {:induction false} IntsText(ns: seq<int>, k: string)
    requires NonNegative(ns)
    ensures IntsAfter(IntsOf(ns), k) == ShapeText(ns, false) + ("]" + k)
  {
    if ns != [] {
      var rest := ShapeText(ns[1..], false);
      IntsText(ns[1..], k);
      IntsMore(Canonical(ns[0]), IntsOf(ns[1..]), k);
      PlainInt(ns[0], rest + ("]" + k));
      ShapeTextMore(ns);
      Chain3(",", Decimal(ns[0]), rest, "]" + k);
    }
  }

  lemma Chain3(a: string, b: string, c: string, k: string)
    ensures a + b + c + k == a + (b + (c + k))
  {
  }

  lemma {:induction false} ShapeFieldText(ns: seq<int>, k: string)
    requires NonNegative(ns)
    ensures FieldValueThen(ShapeField("", IntsOf(ns)), k) == "[" + (ShapeText(ns, true) + ("]" + k))
  {
    if ns == [] {
      Lead("]" + k);
    } else {
      var rest := ShapeText(ns[1..], false);
      IntsText(ns[1..], k);
      PlainInt(ns[0], rest + ("]" + k));
      ShapeOfMore(Canonical(ns[0]), IntsOf(ns[1..]), k);
      Chain3("", Decimal(ns[0]), rest, "]" + k);
      Lead(Decimal(ns[0]) + (rest + ("]" + k)));
    }
  }

  lemma {:induction false} ShapeOfMore(i: Int, tail: seq<Int>, k: string)
    ensures FieldValueThen(ShapeField("", [i] + tail), k) == ['['] + IntThen(i, IntsAfter(tail, k))
  {
    assert ([i] + tail)[1..] == tail;
  }

  /** Two chunks of text written as one. */
  lemma Merge(a: string, b: string, ab: string, k: string)
    requires a + b == ab
    ensures a + (b + k) == ab + k
  {
    assert a + (b + k) == (a + b) + k;
  }

  lemma {:induction false} LiteralText(s: string, k: string)
    ensures LiteralThen(PiecesOf(s), k) == "\"" + (Escaped(s) + ("\"" + k))
  {
    PiecesAreEscaped(s, "\"" + k);
  }

  /** A key that needs no escape, up to its value; `lead` is the key quoted, with its colon. */
  lemma KeyText(key: string, lead: string, v: FieldValue, k: string)
    requires IsPlain(key) && lead == "\"" + key + "\":"
    ensures FieldThen(Field("", PiecesOf(key), "", "", v, ""), k) == lead + FieldValueThen(v, k)
  {
    var t := FieldValueThen(v, k);
    Lead(k);
    Lead(t);
    Lead(":" + t);
    LiteralText(key, ":" + t);
    PlainIsEscaped(key);
    Merge("\"", ":", "\":", t);
    Merge(key, "\":", key + "\":", t);
    Merge("\"", key + "\":", lead, t);
  }

  lemma DtypeIsPlain(d: Dtype)
    requires d != Unknown
    ensures IsPlain(DtypeName(d)) && ParseDtype(DtypeName(d)) == d
  {
  }

  lemma DtypeFieldText(d: Dtype, k: string)
    requires d != Unknown
    ensures FieldThen(DtypeFieldOf(d), k)
         == "\"dtype\":\"" + (DtypeName(d) + ("\"" + k))
  {
    KeyText(DTYPE_KEY, "\"dtype\":", DtypeField(PiecesOf(DtypeName(d))), k);
    LiteralText(DtypeName(d), k);
    DtypeIsPlain(d);
    PlainIsEscaped(DtypeName(d));
    Merge("\"dtype\":", "\"", "\"dtype\":\"", DtypeName(d) + ("\"" + k));
  }

  lemma {:induction false} ShapeFieldLine(ns: seq<int>, k: string)
    requires NonNegative(ns)
    ensures FieldThen(ShapeFieldOf(ns), k)
         == "\"shape\":[" + (ShapeText(ns, true) + ("]" + k))
  {
    KeyText(SHAPE_KEY, "\"shape\":", ShapeField("", IntsOf(ns)), k);
    ShapeFieldText(ns, k);
    Merge("\"shape\":", "[", "\"shape\":[", ShapeText(ns, true) + ("]" + k));
  }

  lemma {:induction false} OffsetsFieldText(a: nat, b: nat, k: string)
    ensures FieldValueThen(OffsetsField(Canonical(a), Canonical(b)), k)
         == "[" + (Decimal(a) + ("," + (Decimal(b) + ("]" + k))))
  {
    PlainInt(b, "]" + k);
    PlainInt(a, "," + (Decimal(b) + ("]" + k)));
  }

  /** The same, when the value's text starts with `head`; `full` is `lead` and `head` as one. */
  lemma KeyTextWith(key: string, lead: string, head: string, full: string, v: FieldValue, t: string, k: string)
    requires IsPlain(key) && lead == "\"" + key + "\":" && full == lead + head && FieldValueThen(v, k) == head + t
    ensures FieldThen(Field("", PiecesOf(key), "", "", v, ""), k) == full + t
  {
    KeyText(key, lead, v, k);
    Merge(lead, head, full, t);
  }

  lemma OffsetsLead()
    ensures IsPlain(OFFSETS_KEY) && "\"" + OFFSETS_KEY + "\":" == "\"data_offsets\":"
    ensures "\"data_offsets\":" + "[" == "\"data_offsets\":["
  {
  }

  lemma OffsetsKey(v: FieldValue, t: string, k: string)
    requires FieldValueThen(v, k) == "[" + t
    ensures FieldThen(Field("", PiecesOf(OFFSETS_KEY), "", "", v, ""), k) == "\"data_offsets\":[" + t
  {
    OffsetsLead();
    KeyTextWith(OFFSETS_KEY, "\"data_offsets\":", "[", "\"data_offsets\":[", v, t, k);
  }

  lemma {:induction false} OffsetsFieldLine(a: nat, b: nat, k: string)
    ensures FieldThen(OffsetsFieldOf(a, b), k)
         == "\"data_offsets\":[" + (Decimal(a) + ("," + (Decimal(b) + ("]" + k))))
  {
    OffsetsFieldText(a, b, k);
    OffsetsKey(OffsetsField(Canonical(a), Canonical(b)), Decimal(a) + ("," + (Decimal(b) + ("]" + k))), k);
  }

  lemma Merge3(a: string, b: string, c: string, abc: string, k: string)
    requires a + b + c == abc
    ensures a + (b + (c + k)) == abc + k
  {
    assert a + (b + (c + k)) == (a + b + c) + k;
  }

  // The places where the writer's chunks run across the grammar's units.

  lemma CloseEntry(k: string)
    ensures "]" + ("}" + k) == "]}" + k
  {
    Merge("]", "}", "]}", k);
  }

  lemma OpenOffsets(k: string)
    ensures "]" + ("," + ("\"data_offsets\":[" + k)) == "],\"data_offsets\":[" + k
  {
    Merge3("]", ",", "\"data_offsets\":[", "],\"data_offsets\":[", k);
  }

  lemma OpenShape(k: string)
    ensures "\"" + ("," + ("\"shape\":[" + k)) == "\",\"shape\":[" + k
  {
    Merge3("\"", ",", "\"shape\":[", "\",\"shape\":[", k);
  }

  lemma OpenEntry(k: string)
    ensures "\"" + (":" + ("{" + ("\"dtype\":\"" + k))) == "\":{\"dtype\":\"" + k
  {
    Merge("{", "\"dtype\":\"", "{\"dtype\":\"", k);
    Merge3("\"", ":", "{\"dtype\":\"", "\":{\"dtype\":\"", k);
  }

  /** The fields of an entry, its closing brace included. */
  lemma FieldsText(e: WriteEntry, off: nat, k: string, d: string, s: string, a: string, b: string)
    requires e.dtype != Unknown && NonNegative(e.shape)
    requires d == DtypeName(e.dtype) && s == ShapeText(e.shape, true) && a == Decimal(off) && b == Decimal(off + e.bytes)
    ensures MemberValueThen(TensorEntry("", FieldsOf(e, off)), k)
         == "{" + ("\"dtype\":\"" + (d + ("\",\"shape\":[" + (s + ("],\"data_offsets\":[" + (a + ("," + (b + ("]}" + k)))))))))
  {
    var fs := FieldsOf(e, off);
    FieldsOfThree(fs[0], fs[1], fs[2], k);
    OffsetsFieldLine(off, off + e.bytes, "}" + k);
    CloseEntry(k);
    var t2 := a + ("," + (b + ("]}" + k)));
    ShapeFieldLine(e.shape, "," + ("\"data_offsets\":[" + t2));
    OpenOffsets(t2);
    var t1 := s + ("],\"data_offsets\":[" + t2);
    DtypeFieldText(e.dtype, "," + ("\"shape\":[" + t1));
    OpenShape(t1);
  }

  lemma FieldsOfThree(f0: Field, f1: Field, f2: Field, k: string)
    ensures MemberValueThen(TensorEntry("", [f0, f1, f2]), k)
         == "{" + FieldThen(f0, "," + FieldThen(f1, "," + FieldThen(f2, "}" + k)))
  {
    assert [f2][1..] == [];
    assert FieldsAfter([f2], k) == "," + FieldThen(f2, "}" + k);
    assert [f1, f2][1..] == [f2];
    assert [f0, f1, f2][1..] == [f1, f2];
  }

  lemma {:induction false} MemberText(n: string, v: MemberValue, t: string, k: string)
    requires MemberValueThen(v, k) == t
    ensures MemberThen(Member("", PiecesOf(n), "", "", v, ""), k) == "\"" + (Escaped(n) + ("\"" + (":" + t)))
  {
    Lead(k);
    Lead(t);
    Lead(":" + t);
    LiteralText(n, ":" + t);
    Lead(LiteralThen(PiecesOf(n), ":" + t));
  }

  /** The writer prints an entry as the member of the header grammar that describes it. */
  lemma EntryIsMember(e: WriteEntry, off: nat, k: string)
    requires e.dtype != Unknown && NonNegative(e.shape)
    ensures MemberThen(MemberOf(e, off), k) == WriteThen(e, off, k)
  {
    var d, s, a, b := DtypeName(e.dtype), ShapeText(e.shape, true), Decimal(off), Decimal(off + e.bytes);
    var t := d + ("\",\"shape\":[" + (s + ("],\"data_offsets\":[" + (a + ("," + (b + ("]}" + k)))))));
    FieldsText(e, off, k, d, s, a, b);
    MemberText(e.name, TensorEntry("", FieldsOf(e, off)), "{" + ("\"dtype\":\"" + t), k);
    OpenEntry(t);
  }

  lemma {:induction false} MembersMore(m: Member, ms: seq<Member>, k: string)
    ensures MembersAfter([m] + ms, k) == "," + MemberThen(m, MembersAfter(ms, k))
  {
    assert ([m] + ms)[1..] == ms;
  }

  /** The text of entries that are not the first is that of the members, closing brace included. */
  predicate AreMembers(es: seq<WriteEntry>, off: nat, ms: seq<Member>, k: string)
  {
    AllKnown(es) && EntriesThen(es, off, false, "}" + k) == MembersAfter(ms, k)
  }

  lemma {:induction false} EntriesOfFirst(es: seq<WriteEntry>, off: nat, next: nat, k: string, rest: string)
    requires es != [] && es[0].dtype != Unknown && AllKnown(es[1..]) && next == off + es[0].bytes
    requires rest == EntriesThen(es[1..], next, false, k)
    ensures AllKnown(es) && EntriesThen(es, off, false, k) == "," + WriteThen(es[0], off, rest)
  {
  }

  lemma MembersFirst(es: seq<WriteEntry>, off: nat, next: nat, m: Member, tail: seq<Member>, k: string)
    requires es != [] && es[0].dtype != Unknown && NonNegative(es[0].shape) && next == off + es[0].bytes
    requires m == MemberOf(es[0], off) && AreMembers(es[1..], next, tail, k)
    ensures AreMembers(es, off, [m] + tail, k)
  {
    var rest := MembersAfter(tail, k);
    EntriesOfFirst(es, off, next, "}" + k, rest);
    EntryIsMember(es[0], off, rest);
    MembersMore(m, tail, k);
  }

  lemma {:induction false} MembersUnfold(es: seq<WriteEntry>, off: nat, next: nat)
    requires es != [] && Printable(es) && next == off + es[0].bytes
    ensures Printable(es[1..]) && MembersOf(es, off) == [MemberOf(es[0], off)] + MembersOf(es[1..], next)
    ensures es[0].dtype != Unknown && NonNegative(es[0].shape)
  {
  }

  lemma {:induction false} EntriesAreMembers(es: seq<WriteEntry>, off: nat, k: string)
    requires Printable(es)
    ensures AreMembers(es, off, MembersOf(es, off), k)
    decreases |es|
  {
    if es != [] {
      var next := off + es[0].bytes;
      MembersUnfold(es, off, next);
      EntriesAreMembers(es[1..], next, k);
      MembersFirst(es, off, next, MemberOf(es[0], off), MembersOf(es[1..], next), k);
    }
  }

  lemma EntryAppend(n: string, d: string, s: string, a: string, b: string, k: string, t: string)
    ensures EntryThen(n, d, s, a, b, k) + t == EntryThen(n, d, s, a, b, k + t)
  {
    var k2 := "," + (b + ("]}" + k));
    var k1 := s + ("],\"data_offsets\":[" + (a + k2));
    assert "," + (b + ("]}" + (k + t))) == k2 + t;
    assert s + ("],\"data_offsets\":[" + (a + (k2 + t))) == k1 + t;
    assert "\"" + (n + ("\":{\"dtype\":\"" + (d + ("\",\"shape\":[" + (k1 + t)))))
        == "\"" + (n + ("\":{\"dtype\":\"" + (d + ("\",\"shape\":[" + k1)))) + t;
  }

  lemma WriteAppend(e: WriteEntry, off: nat, k: string, t: string)
    requires e.dtype != Unknown
    ensures WriteThen(e, off, k) + t == WriteThen(e, off, k + t)
  {
    EntryAppend(Escaped(e.name), DtypeName(e.dtype), ShapeText(e.shape, true), Decimal(off), Decimal(off + e.bytes), k, t);
  }

  lemma {:induction false} EntriesAppend(es: seq<WriteEntry>, off: nat, first: bool, k: string, t: string)
    requires AllKnown(es)
    ensures EntriesThen(es, off, first, k) + t == EntriesThen(es, off, first, k + t)
    decreases |es|
  {
    if es != [] {
      var x := EntriesThen(es[1..], off + es[0].bytes, false, k);
      EntriesAppend(es[1..], off + es[0].bytes, false, k, t);
      WriteAppend(es[0], off, x, t);
      var w := WriteThen(es[0], off, x);
      if !first { assert "," + w + t == "," + (w + t); }
    }
  }

  /** The header as a document of the grammar, its padding being white space at the end. */
  function DocOf(es: seq<WriteEntry>, pad: nat): HeaderDoc
    requires Printable(es)
  {
    HeaderDoc("", "", MembersOf(es, 0), Spaces(pad))
  }

  lemma {:induction false} EntriesAreDocument(es: seq<WriteEntry>, k: string)
    requires Printable(es)
    ensures AllKnown(es)
    ensures HeaderText(HeaderDoc("", "", MembersOf(es, 0), k)) == "{" + EntriesThen(es, 0, true, "}" + k)
  {
    EntriesAreMembers(es, 0, k);
    var t := EntriesThen(es, 0, true, "}" + k);
    Lead("{" + t);
    if es == [] {
      Lead("}" + k);
    } else {
      var b := es[0].bytes;
      EntriesAreMembers(es[1..], b, k);
      assert ([MemberOf(es[0], 0)] + MembersOf(es[1..], b))[1..] == MembersOf(es[1..], b);
      EntryIsMember(es[0], 0, MembersAfter(MembersOf(es[1..], b), k));
    }
  }

  lemma HeaderIsDocument(es: seq<WriteEntry>) returns (pad: nat)
    requires Printable(es)
    ensures AllKnown(es) && HeaderBytes(es) == HeaderText(DocOf(es, pad))
  {
    EntriesAreMembers(es, 0, "");
    var t := EntriesThen(es, 0, true, "}");
    pad := Padding(|"{" + t|);
    var p := Spaces(pad);
    EntriesAreDocument(es, p);
    EntriesAppend(es, 0, true, "}", p);
    Merge("{", t, "{" + t, p);
  }
}

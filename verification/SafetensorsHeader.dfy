/**
 Reading any rendering of a header gives the header's meaning, errors included; what a reader passes over
 does not matter.
 */
module SafetensorsHeader {
  import opened MachineWords
  import opened Results
  import opened JsonText
  import opened SafetensorsParser
  import opened SafetensorsDocument
  import opened SafetensorsReads
  import J = JsonDocument

  /** The parse succeeds with `v` and leaves `k`, or fails where there is no value. */
  predicate Yields<T(==)>(r: Parse<T>, v: Option<T>, k: string)
  {
    if v.Some? then r == Ok(v.value, k) else r.Fail?
  }

  // ---- Field values ----

  lemma {:induction false} ShapeTailReads(w: string, ns: seq<Int>, k: string, acc: seq<int>)
    requires IsBlank(w) && ValidInts(ns)
    ensures var v := Values(ns);
      Yields(ParseShape(w + IntsAfter(ns, k), acc, false), if v.Some? then Some(acc + v.value) else None, k)
    decreases |ns|
  {
    if ns == [] {
      ExpectAfterBlank(w, ']', k);
      assert acc + [] == acc;
    } else {
      var t := IntsAfter(ns[1..], k);
      ExpectOther(w, ']', ',', IntThen(ns[0], t));
      ExpectAfterBlank(w, ',', IntThen(ns[0], t));
      IntParses(ns[0], t);
      if ns[0].n <= INT64_MAX {
        ShapeTailReads(ns[0].w1, ns[1..], k, acc + [IntValue(ns[0])]);
        var tail := Values(ns[1..]);
        if tail.Some? {
          assert acc + [IntValue(ns[0])] + tail.value == acc + ([IntValue(ns[0])] + tail.value);
        }
      }
    }
  }

  /** An integer is not a bracket, whatever white space precedes it. */
  lemma IntIsNotClose(i: Int, k: string)
    requires ValidInt(i)
    ensures Expect(IntThen(i, k), ']').Fail?
  {
    var t := DigitsThen(i, k);
    DecimalParses(i.n, i.w1 + k);
    ZerosParse(i.zeros, Decimal(i.n) + (i.w1 + k));
    SignParses(i.w0, i.neg, t, ParseDigits(t, 0));
  }

  lemma {:induction false} ShapeReads(w: string, ns: seq<Int>, k: string)
    requires IsBlank(w) && ValidInts(ns)
    ensures Yields(ParseShape(if ns == [] then w + ([']'] + k) else IntThen(ns[0], IntsAfter(ns[1..], k)), [], true), Values(ns), k)
  {
    if ns == [] {
      ExpectAfterBlank(w, ']', k);
    } else {
      var t := IntsAfter(ns[1..], k);
      IntIsNotClose(ns[0], t);
      IntParses(ns[0], t);
      if ns[0].n <= INT64_MAX {
        ShapeTailReads(ns[0].w1, ns[1..], k, [IntValue(ns[0])]);
        assert [] + [IntValue(ns[0])] == [IntValue(ns[0])];
      }
    }
  }

  lemma OffsetsRead(w: string, a: Int, b: Int, k: string)
    requires IsBlank(w) && ValidInt(a) && ValidInt(b)
    ensures Yields(ParseOffsets(w + FieldValueThen(OffsetsField(a, b), k)),
      if a.n > INT64_MAX || b.n > INT64_MAX then None else Some((IntValue(a), IntValue(b))), k)
  {
    var t := [','] + IntThen(b, [']'] + k);
    ExpectAfterBlank(w, '[', IntThen(a, t));
    IntParses(a, t);
    ExpectAfterBlank(a.w1, ',', IntThen(b, [']'] + k));
    IntParses(b, [']'] + k);
    ExpectAfterBlank(b.w1, ']', k);
  }

  lemma FieldValueReads(w: string, v: FieldValue, key: string, k: string, e: Entry)
    requires IsBlank(w) && ValidFieldValue(v, key) && J.Delimited(k) && (v.OtherField? ==> Follows(v.x, k))
    ensures Yields(ParseFieldValue(w + FieldValueThen(v, k), key, e), Record(e, v), k)
  {
    match v
    case DtypeField(ps) => StringParses(w, ps, k);
    case ShapeField(ws, ns) =>
      ExpectAfterBlank(w, '[', if ns == [] then ws + ([']'] + k) else IntThen(ns[0], IntsAfter(ns[1..], k)));
      ShapeReads(ws, ns, k);
    case OffsetsField(a, b) => OffsetsRead(w, a, b, k);
    case OtherField(x) => ExtraSkipped(w, x, k);
  }

  /** A comma or a closing brace follows. */
  predicate Separated(k: string) { k != "" && k[0] in {',', '}'} }

  lemma FieldReads(f: Field, k: string, e: Entry)
    requires ValidField(f) && Separated(k)
    ensures Yields(ParseField(FieldThen(f, k), e), Record(e, f.v), f.w3 + k)
  {
    var t := f.w2 + FieldValueThen(f.v, f.w3 + k);
    StringParses(f.w0, f.key, f.w1 + ([':'] + t));
    ExpectAfterBlank(f.w1, ':', t);
    J.BlankDelimited(f.w3, k);
    if f.v == OtherField(Token("")) { Lead(k); }
    FieldValueReads(f.w2, f.v, StringValue(f.key), f.w3 + k, e);
  }

  // ---- Entries ----

  lemma KeyIsNotClose(w: string, key: seq<Piece>, k: string)
    requires IsBlank(w)
    ensures Expect(w + LiteralThen(key, k), '}').Fail?
  {
    ExpectOther(w, '}', '\"', PiecesThen(key, ['\"'] + k));
  }

  lemma {:induction false} FieldsTailRead(w: string, fs: seq<Field>, k: string, e: Entry)
    requires IsBlank(w) && ValidFields(fs)
    ensures Yields(ParseFields(w + FieldsAfter(fs, k), e, false), RecordAll(e, fs), k)
    decreases |fs|
  {
    if fs == [] {
      ExpectAfterBlank(w, '}', k);
    } else {
      var t := FieldsAfter(fs[1..], k);
      ExpectOther(w, '}', ',', FieldThen(fs[0], t));
      ExpectAfterBlank(w, ',', FieldThen(fs[0], t));
      FieldReads(fs[0], t, e);
      var e' := Record(e, fs[0].v);
      if e'.Some? { FieldsTailRead(fs[0].w3, fs[1..], k, e'.value); }
    }
  }

  lemma {:induction false} EntryReads(w: string, ws: string, fs: seq<Field>, k: string)
    requires IsBlank(w) && IsBlank(ws) && ValidFields(fs)
    ensures Yields(ParseEntry(w + MemberValueThen(TensorEntry(ws, fs), k)), RecordAll(NO_FIELDS, fs), k)
  {
    if fs == [] {
      ExpectAfterBlank(w, '{', ws + (['}'] + k));
      ExpectAfterBlank(ws, '}', k);
    } else {
      var t := FieldsAfter(fs[1..], k);
      ExpectAfterBlank(w, '{', FieldThen(fs[0], t));
      KeyIsNotClose(fs[0].w0, fs[0].key, fs[0].w1 + ([':'] + (fs[0].w2 + FieldValueThen(fs[0].v, fs[0].w3 + t))));
      FieldReads(fs[0], t, NO_FIELDS);
      var e := Record(NO_FIELDS, fs[0].v);
      if e.Some? { FieldsTailRead(fs[0].w3, fs[1..], k, e.value); }
    }
  }

  // ---- Members ----

  lemma MemberValueReads(m: Member, k: string, h: Header, base: nat, payload: nat)
    requires ValidMember(m) && J.Delimited(k) && (m.v.Metadata? ==> Follows(m.v.x, k))
    ensures Yields(ParseMemberValue(m.w2 + MemberValueThen(m.v, k), StringValue(m.key), h, base, payload),
      Admit(h, m, base, payload), k)
  {
    match m.v
    case Metadata(x) => ExtraSkipped(m.w2, x, k);
    case TensorEntry(ws, fs) => EntryReads(m.w2, ws, fs, k);
  }

  lemma MemberReads(m: Member, k: string, h: Header, base: nat, payload: nat)
    requires ValidMember(m) && Separated(k)
    ensures Yields(ParseMember(MemberThen(m, k), h, base, payload), Admit(h, m, base, payload), m.w3 + k)
  {
    var t := m.w2 + MemberValueThen(m.v, m.w3 + k);
    StringParses(m.w0, m.key, m.w1 + ([':'] + t));
    ExpectAfterBlank(m.w1, ':', t);
    J.BlankDelimited(m.w3, k);
    if m.v == Metadata(Token("")) { Lead(k); }
    MemberValueReads(m, m.w3 + k, h, base, payload);
  }

  lemma {:induction false} MembersTailRead(w: string, ms: seq<Member>, k: string, h: Header, base: nat, payload: nat)
    requires IsBlank(w) && ValidMembers(ms)
    ensures Yields(ParseMembers(w + MembersAfter(ms, k), h, false, base, payload), AdmitAll(h, ms, base, payload), k)
    decreases |ms|
  {
    if ms == [] {
      ExpectAfterBlank(w, '}', k);
    } else {
      var t := MembersAfter(ms[1..], k);
      ExpectOther(w, '}', ',', MemberThen(ms[0], t));
      ExpectAfterBlank(w, ',', MemberThen(ms[0], t));
      MemberReads(ms[0], t, h, base, payload);
      var h' := Admit(h, ms[0], base, payload);
      if h'.Some? { MembersTailRead(ms[0].w3, ms[1..], k, h'.value, base, payload); }
    }
  }

  lemma {:induction false} FirstMemberReads(m: Member, k: string, h: Header, base: nat, payload: nat)
    requires ValidMember(m) && J.Delimited(k)
    ensures ParseMembers(MemberThen(m, k), h, true, base, payload)
      == var r := ParseMember(MemberThen(m, k), h, base, payload);
         if r.Fail? then r else ParseMembers(r.rest, r.value, false, base, payload)
  {
    KeyIsNotClose(m.w0, m.key, m.w1 + ([':'] + (m.w2 + MemberValueThen(m.v, m.w3 + k))));
  }

  lemma {:induction false} MembersRead(ms: seq<Member>, k: string, h: Header, base: nat, payload: nat)
    requires ValidMembers(ms) && ms != []
    ensures Yields(ParseMembers(MemberThen(ms[0], MembersAfter(ms[1..], k)), h, true, base, payload),
      AdmitAll(h, ms, base, payload), k)
  {
    var t := MembersAfter(ms[1..], k);
    FirstMemberReads(ms[0], t, h, base, payload);
    MemberReads(ms[0], t, h, base, payload);
    var h' := Admit(h, ms[0], base, payload);
    if h'.Some? { MembersTailRead(ms[0].w3, ms[1..], k, h'.value, base, payload); }
  }

  /** Reading the text of a header gives exactly its views, or throws exactly where it has no meaning. */
  lemma HeaderReads(h: HeaderDoc, base: nat, payload: nat)
    requires ValidHeader(h)
    ensures var r := ParseHeader(HeaderText(h), base, payload);
      if HeaderMeaning(h, base, payload).Some? then r == Good(HeaderMeaning(h, base, payload).value) else r.Bad?
  {
    SkipBlank(h.w1, "");
    assert h.w1 + "" == h.w1;
    if h.members == [] {
      ExpectAfterBlank(h.w0, '{', h.w + (['}'] + h.w1));
      ExpectAfterBlank(h.w, '}', h.w1);
    } else {
      ExpectAfterBlank(h.w0, '{', MemberThen(h.members[0], MembersAfter(h.members[1..], h.w1)));
      MembersRead(h.members, h.w1, Header([], false), base, payload);
    }
  }

  // ---- What does not matter ----

  /** The fields a reader looks at. */
  function KnownFields(fs: seq<Field>): seq<Field>
  {
    if fs == [] then []
    else if fs[0].v.OtherField? then KnownFields(fs[1..])
    else [fs[0]] + KnownFields(fs[1..])
  }

  /** A header without its `__metadata__` members and without unknown fields. */
  function Stripped(ms: seq<Member>): seq<Member>
  {
    if ms == [] then []
    else
      match ms[0].v
      case Metadata(_) => Stripped(ms[1..])
      case TensorEntry(w, fs) => [ms[0].(v := TensorEntry(w, KnownFields(fs)))] + Stripped(ms[1..])
  }

  function MetadataCount(ms: seq<Member>): nat
  {
    if ms == [] then 0 else (if ms[0].v.Metadata? then 1 else 0) + MetadataCount(ms[1..])
  }

  lemma {:induction false} KnownFieldsSuffice(e: Entry, fs: seq<Field>)
    requires ValidFields(fs)
    ensures ValidFields(KnownFields(fs)) && RecordAll(e, KnownFields(fs)) == RecordAll(e, fs)
    decreases |fs|
  {
    if fs == [] {
    } else if fs[0].v.OtherField? {
      KnownFieldsSuffice(e, fs[1..]);
    } else {
      assert ([fs[0]] + KnownFields(fs[1..]))[1..] == KnownFields(fs[1..]);
      KnownFieldsSuffice(e, fs[1..]);
      var e' := Record(e, fs[0].v);
      if e'.Some? { KnownFieldsSuffice(e'.value, fs[1..]); }
    }
  }

  /** The views of a header, whether or not `__metadata__` was seen. */
  function ViewsOf(h: Option<Header>): Option<seq<TensorView>>
  {
    if h.None? then None else Some(h.value.views)
  }

  lemma StrippedMember(h: Header, m: Member, base: nat, payload: nat, h': Header)
    requires ValidMember(m) && m.v.TensorEntry? && h'.views == h.views
    ensures var m' := m.(v := TensorEntry(m.v.w, KnownFields(m.v.fields)));
      ValidMember(m') && ViewsOf(Admit(h', m', base, payload)) == ViewsOf(Admit(h, m, base, payload))
    ensures Admit(h, m, base, payload).Some? ==> Admit(h, m, base, payload).value.seenMetadata == h.seenMetadata
  {
    KnownFieldsSuffice(NO_FIELDS, m.v.fields);
  }

  lemma {:induction false} StrippedMembers(h: Header, ms: seq<Member>, base: nat, payload: nat, h': Header)
    requires ValidMembers(ms) && h'.views == h.views
    requires (if h.seenMetadata then 1 else 0) + MetadataCount(ms) <= 1
    ensures ValidMembers(Stripped(ms))
    ensures ViewsOf(AdmitAll(h', Stripped(ms), base, payload)) == ViewsOf(AdmitAll(h, ms, base, payload))
    decreases |ms|
  {
    if ms == [] {
    } else if ms[0].v.Metadata? {
      StrippedMembers(h.(seenMetadata := true), ms[1..], base, payload, h');
    } else {
      var m' := ms[0].(v := TensorEntry(ms[0].v.w, KnownFields(ms[0].v.fields)));
      assert ([m'] + Stripped(ms[1..]))[1..] == Stripped(ms[1..]);
      StrippedMember(h, ms[0], base, payload, h');
      var a, a' := Admit(h, ms[0], base, payload), Admit(h', m', base, payload);
      StrippedMembers(if a.Some? then a.value else h, ms[1..], base, payload, if a.Some? then a'.value else h');
    }
  }

  /**
   A header with at most one `__metadata__` member, and unknown fields anywhere, reads as the same views, or
   throws, as it would without them.
   */
  lemma ExtrasIgnored(h: HeaderDoc, base: nat, payload: nat)
    requires ValidHeader(h) && MetadataCount(h.members) <= 1
    ensures var s := h.(members := Stripped(h.members));
      var r, r' := ParseHeader(HeaderText(h), base, payload), ParseHeader(HeaderText(s), base, payload);
      (r.Good? <==> r'.Good?) && (r.Good? ==> r.value == r'.value)
  {
    StrippedMembers(Header([], false), h.members, base, payload, Header([], false));
    HeaderReads(h, base, payload);
    HeaderReads(h.(members := Stripped(h.members)), base, payload);
  }
}

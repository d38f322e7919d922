/** Writing entries and opening the file gives the entries back, exactly when the offsets fit and no name is reserved. */
module SafetensorsRoundTrip {
  import opened Arithmetic
  import opened MachineWords
  import opened Results
  import opened JsonText
  import opened SafetensorsParser
  import opened SafetensorsDocument
  import opened SafetensorsReads
  import opened SafetensorsHeader
  import SafetensorsOpen
  import opened SafetensorsWriter

  function ViewOf(e: WriteEntry, at: nat): TensorView
  {
    TensorView(e.name, e.dtype, e.shape, at, e.bytes)
  }

  /** The views the entries should come back as, the first at `at` in the file. */
  function ViewsOfEntries(es: seq<WriteEntry>, at: nat): (vs: seq<TensorView>)
    ensures |vs| == |es|
  {
    if es == [] then []
    else [ViewOf(es[0], at)] + ViewsOfEntries(es[1..], at + es[0].bytes)
  }

  /** No entry has the name the format keeps for itself. */
  predicate NoneReserved(es: seq<WriteEntry>)
  {
    es == [] || (es[0].name != METADATA && NoneReserved(es[1..]))
  }

  // ---- Accepted entries ----

  lemma {:induction false} NumelNonNegative(shape: seq<int>, n: nat)
    requires n <= INT64_MAX && Numel(shape, n).Good?
    ensures NonNegative(shape)
    decreases |shape|
  {
    if shape != [] {
      assert shape[0] != 0 ==> n <= INT64_MAX / shape[0];
      ProductFits(n, shape[0]);
      NumelNonNegative(shape[1..], n * shape[0]);
      assert shape == [shape[0]] + shape[1..];
    }
  }

  lemma {:induction false} CheckedArePrintable(es: seq<WriteEntry>, seen: set<string>, cursor: nat)
    requires CheckAll(es, seen, cursor).Good?
    ensures Printable(es)
    ensures cursor <= CheckAll(es, seen, cursor).value
    decreases |es|
  {
    if es != [] {
      NumelNonNegative(es[0].shape, 1);
      CheckedArePrintable(es[1..], seen + {es[0].name}, cursor + es[0].bytes);
    }
  }

  lemma {:induction false} IntsAreValues(ns: seq<int>)
    requires NonNegative(ns) && forall i | 0 <= i < |ns| :: ns[i] <= INT64_MAX
    ensures ValidInts(IntsOf(ns)) && Values(IntsOf(ns)) == Some(ns)
  {
    if ns != [] {
      IntsAreValues(ns[1..]);
      assert ([Canonical(ns[0])] + IntsOf(ns[1..]))[1..] == IntsOf(ns[1..]);
      assert ns == [ns[0]] + ns[1..];
    }
  }

  // ---- One entry ----

  /** An entry as the reader records it. */
  function Recorded(e: WriteEntry, off: nat): Entry
  {
    Entry(e.dtype, e.shape, off, off + e.bytes, true, true, true)
  }

  lemma {:induction false} RecordMore(e: Entry, f: Field, fs: seq<Field>)
    requires ValidField(f) && ValidFields(fs)
    ensures ValidFields([f] + fs)
    ensures RecordAll(e, [f] + fs)
      == var e' := Record(e, f.v); if e'.None? then None else RecordAll(e'.value, fs)
  {
    assert ([f] + fs)[1..] == fs;
  }

  /** Three fields recorded in turn, `ea` and `eb` being the entry after the first and the second. */
  lemma {:induction false} RecordThree(e: Entry, a: Field, b: Field, c: Field, ea: Entry, eb: Entry)
    requires ValidField(a) && ValidField(b) && ValidField(c)
    requires Record(e, a.v) == Some(ea) && Record(ea, b.v) == Some(eb)
    requires var ec := Record(eb, c.v); ec.Some? ==> ec.value.seenDtype && ec.value.seenShape && ec.value.seenOffsets
    ensures ValidFields([a, b, c]) && RecordAll(e, [a, b, c]) == Record(eb, c.v)
  {
    RecordMore(eb, c, []);
    RecordMore(ea, b, [c] + []);
    RecordMore(e, a, [b] + ([c] + []));
    assert [a] + ([b] + ([c] + [])) == [a, b, c];
  }

  lemma KeyDenotes(key: string)
    ensures ValidPieces(PiecesOf(key)) && StringValue(PiecesOf(key)) == key
  {
    PiecesDenote(key);
  }

  lemma KeyedField(key: string, v: FieldValue)
    requires ValidFieldValue(v, key)
    ensures ValidField(Field("", PiecesOf(key), "", "", v, ""))
  {
    KeyDenotes(key);
  }

  predicate GivesDtype(f: Field, d: Dtype)
  {
    ValidField(f) && f.v.DtypeField? && ParseDtype(StringValue(f.v.ps)) == d
  }

  predicate GivesShape(f: Field, shape: seq<int>)
  {
    ValidField(f) && f.v.ShapeField? && Values(f.v.ns) == Some(shape)
  }

  predicate GivesOffsets(f: Field, a: nat, b: nat)
  {
    ValidField(f) && f.v.OffsetsField? && f.v.a == Canonical(a) && f.v.b == Canonical(b)
  }

  /** The fields record the entry placed at offset `off`, unless its end does not fit in 64 signed bits. */
  predicate GivesEntry(fs: seq<Field>, e: WriteEntry, off: nat)
  {
    && ValidFields(fs)
    && RecordAll(NO_FIELDS, fs) == if off + e.bytes <= INT64_MAX then Some(Recorded(e, off)) else None
  }

  lemma DtypeRecorded(d: Dtype, f: Field)
    requires d != Unknown && f == DtypeFieldOf(d)
    ensures GivesDtype(f, d)
  {
    KeyDenotes(DtypeName(d));
    DtypeIsPlain(d);
    KeyedField(DTYPE_KEY, DtypeField(PiecesOf(DtypeName(d))));
  }

  lemma ShapeRecorded(shape: seq<int>, f: Field)
    requires NonNegative(shape) && (forall i | 0 <= i < |shape| :: shape[i] <= INT64_MAX) && f == ShapeFieldOf(shape)
    ensures GivesShape(f, shape)
  {
    IntsAreValues(shape);
    KeyedField(SHAPE_KEY, ShapeField("", IntsOf(shape)));
  }

  lemma OffsetsRecorded(a: nat, b: nat, f: Field)
    requires f == OffsetsFieldOf(a, b)
    ensures GivesOffsets(f, a, b)
  {
    KeyedField(OFFSETS_KEY, OffsetsField(Canonical(a), Canonical(b)));
  }

  lemma FieldsRecorded(e: WriteEntry, off: nat, a: Field, b: Field, c: Field)
    requires e.dtype != Unknown && GivesDtype(a, e.dtype) && GivesShape(b, e.shape) && GivesOffsets(c, off, off + e.bytes)
    ensures GivesEntry([a, b, c], e, off)
  {
    var ea := NO_FIELDS.(dtype := e.dtype, seenDtype := true);
    RecordThree(NO_FIELDS, a, b, c, ea, ea.(shape := e.shape, seenShape := true));
  }

  /** The header member is about the entry placed at offset `off`. */
  predicate Describes(m: Member, e: WriteEntry, off: nat)
  {
    ValidMember(m) && m.v.TensorEntry? && StringValue(m.key) == e.name && GivesEntry(m.v.fields, e, off)
  }

  lemma {:induction false} FieldsDescribe(key: seq<Piece>, fs: seq<Field>, e: WriteEntry, off: nat)
    requires ValidPieces(key) && StringValue(key) == e.name != METADATA && GivesEntry(fs, e, off)
    ensures Describes(Member("", key, "", "", TensorEntry("", fs), ""), e, off)
  {
  }

  lemma ThreeFields(e: WriteEntry, off: nat, a: Field, b: Field, c: Field)
    requires e.dtype != Unknown && NonNegative(e.shape)
    requires a == DtypeFieldOf(e.dtype) && b == ShapeFieldOf(e.shape) && c == OffsetsFieldOf(off, off + e.bytes)
    ensures FieldsOf(e, off) == [a, b, c]
  {
  }

  lemma FieldsOfRecorded(e: WriteEntry, off: nat)
    requires Typed(e) && e.dtype != Unknown && NonNegative(e.shape)
    ensures GivesEntry(FieldsOf(e, off), e, off)
  {
    var a, b, c := DtypeFieldOf(e.dtype), ShapeFieldOf(e.shape), OffsetsFieldOf(off, off + e.bytes);
    DtypeRecorded(e.dtype, a);
    ShapeRecorded(e.shape, b);
    OffsetsRecorded(off, off + e.bytes, c);
    FieldsRecorded(e, off, a, b, c);
    ThreeFields(e, off, a, b, c);
  }

  lemma MemberDescribes(e: WriteEntry, off: nat)
    requires Typed(e) && e.name != METADATA && e.dtype != Unknown && NonNegative(e.shape)
    ensures Describes(MemberOf(e, off), e, off)
  {
    FieldsOfRecorded(e, off);
    KeyDenotes(e.name);
    FieldsDescribe(PiecesOf(e.name), FieldsOf(e, off), e, off);
  }

  lemma ViewMade(e: WriteEntry, seen: set<string>, off: nat, base: nat, payload: nat)
    requires CheckEntry(e, seen, off).Good? && off + e.bytes <= payload
    ensures MakeView(e.name, Recorded(e, off), base, payload) == Good(ViewOf(e, base + off))
  {
  }

  /** The header after one more entry is admitted, its data at `at`. */
  function With(h: Header, e: WriteEntry, at: nat): Header
  {
    Header(h.views + [ViewOf(e, at)], h.seenMetadata)
  }

  /** A checked entry is admitted as its view unless its end does not fit in 64 signed bits. */
  lemma EntryAdmitted(h: Header, m: Member, e: WriteEntry, off: nat, base: nat, payload: nat, at: nat, h': Header)
    requires Describes(m, e, off) && at == base + off && h' == With(h, e, at)
    requires CheckEntry(e, Names(h.views), off).Good? && off + e.bytes <= payload
    ensures Admit(h, m, base, payload) == if off + e.bytes <= INT64_MAX then Some(h') else None
  {
    ViewMade(e, Names(h.views), off, base, payload);
    assert e.name !in Names(h.views);
  }

  // ---- All entries ----

  lemma NamesGrow(views: seq<TensorView>, v: TensorView)
    ensures Names(views + [v]) == Names(views) + {v.name}
  {
    assert v in views + [v];
    assert forall u | u in views :: u in views + [v];
  }

  lemma CheckStep(es: seq<WriteEntry>, seen: set<string>, off: nat)
    requires es != [] && CheckAll(es, seen, off).Good?
    ensures CheckEntry(es[0], seen, off) == Good(off + es[0].bytes)
    ensures CheckAll(es[1..], seen + {es[0].name}, off + es[0].bytes) == CheckAll(es, seen, off)
  {
  }

  predicate DescribesAll(ms: seq<Member>, es: seq<WriteEntry>, off: nat)
    decreases |ms|
  {
    if ms == [] || es == [] then ms == [] && es == []
    else Describes(ms[0], es[0], off) && DescribesAll(ms[1..], es[1..], off + es[0].bytes)
  }

  lemma {:induction false} MembersStep(es: seq<WriteEntry>, off: nat, tail: seq<Member>, next: nat)
    requires es != [] && AllTyped(es) && NoneReserved(es) && Printable(es) && next == off + es[0].bytes
    ensures Typed(es[0]) && es[0].name != METADATA && es[0].dtype != Unknown && NonNegative(es[0].shape)
    ensures AllTyped(es[1..]) && NoneReserved(es[1..]) && Printable(es[1..])
    ensures tail == MembersOf(es[1..], next) ==> MembersOf(es, off) == [MemberOf(es[0], off)] + tail
  {
  }

  lemma FirstDescribed(e: WriteEntry, off: nat, m: Member)
    requires Typed(e) && e.name != METADATA && e.dtype != Unknown && NonNegative(e.shape) && m == MemberOf(e, off)
    ensures Describes(m, e, off)
  {
    MemberDescribes(e, off);
  }

  lemma {:induction false} DescribesFirst(m: Member, tail: seq<Member>, ms: seq<Member>, e: WriteEntry, rest: seq<WriteEntry>,
      es: seq<WriteEntry>, off: nat, next: nat)
    requires ms == [m] + tail && es == [e] + rest && next == off + e.bytes
    requires Describes(m, e, off) && DescribesAll(tail, rest, next)
    ensures DescribesAll(ms, es, off)
  {
    assert ms[0] == m && ms[1..] == tail && es[0] == e && es[1..] == rest;
  }

  /** The members the writer prints describe its entries. */
  lemma {:induction false} MembersDescribe(ms: seq<Member>, es: seq<WriteEntry>, off: nat)
    requires AllTyped(es) && NoneReserved(es) && Printable(es) && ms == MembersOf(es, off)
    ensures DescribesAll(ms, es, off)
    decreases |es|
  {
    if es != [] {
      var next := off + es[0].bytes;
      var m, tail := ms[0], MembersOf(es[1..], next);
      MembersStep(es, off, tail, next);
      FirstDescribed(es[0], off, m);
      MembersDescribe(tail, es[1..], next);
      DescribesFirst(m, tail, ms, es[0], es[1..], es, off, next);
    }
  }

  lemma {:induction false} DescribedAreValid(ms: seq<Member>, es: seq<WriteEntry>, off: nat)
    requires DescribesAll(ms, es, off)
    ensures ValidMembers(ms)
    decreases |ms|
  {
    if ms != [] { DescribedAreValid(ms[1..], es[1..], off + es[0].bytes); }
  }

  lemma AppendOne(vs: seq<TensorView>, v: TensorView, tail: seq<TensorView>)
    ensures vs + [v] + tail == vs + ([v] + tail)
  {
  }

  /** The members describe checked entries, the first to go at offset `off` of a payload of `total` bytes. */
  predicate Ready(ms: seq<Member>, es: seq<WriteEntry>, off: nat, total: nat, seen: set<string>)
  {
    DescribesAll(ms, es, off) && ValidMembers(ms) && CheckAll(es, seen, off) == Good(total)
  }

  /** Admitting the members gives `r`. */
  predicate Admits(h: Header, ms: seq<Member>, base: nat, total: nat, r: Option<Header>)
  {
    ValidMembers(ms) && AdmitAll(h, ms, base, total) == r
  }

  /** The entries after the first are ready. */
  lemma RestReady(ms: seq<Member>, es: seq<WriteEntry>, off: nat, total: nat, seen: set<string>, next: nat)
    requires es != [] && Ready(ms, es, off, total, seen) && next == off + es[0].bytes
    ensures ms != [] && next <= total && Ready(ms[1..], es[1..], next, total, seen + {es[0].name})
    ensures ValidMember(ms[0]) && Describes(ms[0], es[0], off) && CheckEntry(es[0], seen, off).Good?
  {
    CheckStep(es, seen, off);
    CheckedArePrintable(es[1..], seen + {es[0].name}, next);
  }

  /** What admitting the first entry does. */
  lemma FirstAdmitted(h: Header, ms: seq<Member>, es: seq<WriteEntry>, off: nat, base: nat, total: nat, seen: set<string>,
      at: nat, h': Header, next: nat)
    requires es != [] && Ready(ms, es, off, total, seen) && seen == Names(h.views) && at == base + off
    requires h' == With(h, es[0], at) && next == off + es[0].bytes
    ensures ms != [] && next <= total && Ready(ms[1..], es[1..], next, total, seen + {es[0].name})
    ensures Names(h'.views) == seen + {es[0].name}
    ensures ValidMember(ms[0]) && Admit(h, ms[0], base, total) == if next <= INT64_MAX then Some(h') else None
  {
    NamesGrow(h.views, ViewOf(es[0], at));
    RestReady(ms, es, off, total, seen, next);
    EntryAdmitted(h, ms[0], es[0], off, base, total, at, h');
  }

  lemma AdmitsNone(h: Header, ms: seq<Member>, off: nat, base: nat, total: nat, seen: set<string>)
    requires Ready(ms, [], off, total, seen)
    ensures off == total && Admits(h, ms, base, total, Some(h))
  {
  }

  lemma AdmitsMore(h: Header, ms: seq<Member>, base: nat, total: nat, h': Header, r: Option<Header>)
    requires ms != [] && ValidMember(ms[0]) && Admit(h, ms[0], base, total) == Some(h') && Admits(h', ms[1..], base, total, r)
    ensures Admits(h, ms, base, total, r)
  {
  }

  lemma {:induction false} AdmitsStop(h: Header, ms: seq<Member>, base: nat, total: nat)
    requires ms != [] && ValidMembers(ms) && Admit(h, ms[0], base, total) == None
    ensures Admits(h, ms, base, total, None)
  {
  }

  /** The header after the entries from `off` on are admitted. */
  function Filled(h: Header, es: seq<WriteEntry>, at: nat): Header
  {
    Header(h.views + ViewsOfEntries(es, at), h.seenMetadata)
  }

  lemma FillNone(h: Header, at: nat)
    ensures Filled(h, [], at) == h
  {
    assert h.views + [] == h.views;
  }

  lemma FillFirst(h: Header, es: seq<WriteEntry>, at: nat, h': Header, next: nat, f: Header)
    requires es != [] && next == at + es[0].bytes && f == Filled(h, es, at)
    requires h' == With(h, es[0], at)
    ensures f == Filled(h', es[1..], next)
  {
    AppendOne(h.views, ViewOf(es[0], at), ViewsOfEntries(es[1..], next));
  }

  /** The same header, filled one view after the other. */
  function FilledInTurn(h: Header, es: seq<WriteEntry>, at: nat): Header
    decreases |es|
  {
    if es == [] then h
    else FilledInTurn(With(h, es[0], at), es[1..], at + es[0].bytes)
  }

  lemma {:induction false} FilledEither(h: Header, es: seq<WriteEntry>, at: nat)
    ensures FilledInTurn(h, es, at) == Filled(h, es, at)
    decreases |es|
  {
    if es == [] {
      FillNone(h, at);
    } else {
      var h' := With(h, es[0], at);
      FillFirst(h, es, at, h', at + es[0].bytes, Filled(h, es, at));
      FilledEither(h', es[1..], at + es[0].bytes);
    }
  }

  /**
   The reader admits written entries as their views, in order, when the payload's size fits in 63 bits; `f` is
   the header with those views.
   */
  lemma {:induction false} EntriesAdmitted(h: Header, ms: seq<Member>, es: seq<WriteEntry>, off: nat, base: nat, total: nat,
      seen: set<string>, at: nat, f: Header)
    requires Ready(ms, es, off, total, seen) && seen == Names(h.views) && total <= INT64_MAX
    requires at == base + off && f == FilledInTurn(h, es, at)
    ensures Admits(h, ms, base, total, Some(f))
    decreases |es|
  {
    if es == [] {
      AdmitsNone(h, ms, off, base, total, seen);
    } else {
      var h', next := With(h, es[0], at), off + es[0].bytes;
      FirstAdmitted(h, ms, es, off, base, total, seen, at, h', next);
      EntriesAdmitted(h', ms[1..], es[1..], next, base, total, seen + {es[0].name}, at + es[0].bytes, f);
      AdmitsMore(h, ms, base, total, h', Some(f));
    }
  }

  /** The entry whose end passes INT64_MAX stops the reader. */
  lemma {:induction false} EntriesRefused(h: Header, ms: seq<Member>, es: seq<WriteEntry>, off: nat, base: nat, total: nat,
      seen: set<string>)
    requires Ready(ms, es, off, total, seen) && seen == Names(h.views) && off <= INT64_MAX < total
    ensures Admits(h, ms, base, total, None)
    decreases |es|
  {
    if es == [] {
      AdmitsNone(h, ms, off, base, total, seen);
    } else {
      var h', next := With(h, es[0], base + off), off + es[0].bytes;
      FirstAdmitted(h, ms, es, off, base, total, seen, base + off, h', next);
      if next <= INT64_MAX {
        EntriesRefused(h', ms[1..], es[1..], next, base, total, seen + {es[0].name});
        AdmitsMore(h, ms, base, total, h', None);
      } else {
        AdmitsStop(h, ms, base, total);
      }
    }
  }

  /** An entry with the reserved name would have to be among the views. */
  lemma {:induction false} ReservedIsListed(es: seq<WriteEntry>, at: nat) returns (i: nat)
    requires !NoneReserved(es)
    ensures i < |es| && ViewsOfEntries(es, at)[i].name == METADATA
    decreases |es|
  {
    i := 0;
    if es[0].name != METADATA {
      i := ReservedIsListed(es[1..], at + es[0].bytes);
      i := i + 1;
    }
  }

  /** What admitting all members to the empty header gives, if anything. */
  lemma {:induction false} DescribedAdmitted(h: Header, ms: seq<Member>, es: seq<WriteEntry>, off: nat, base: nat, total: nat,
      seen: set<string>)
    requires h == Header([], false) && off == 0 && seen == {} && Ready(ms, es, off, total, seen)
    ensures Admits(h, ms, base, total, if total <= INT64_MAX then Some(Header(ViewsOfEntries(es, base), false)) else None)
  {
    assert Names(h.views) == seen;
    if total <= INT64_MAX {
      var f := FilledInTurn(h, es, base);
      EntriesAdmitted(h, ms, es, off, base, total, seen, base, f);
      FilledEither(h, es, base);
      assert [] + ViewsOfEntries(es, base) == ViewsOfEntries(es, base);
    } else {
      EntriesRefused(h, ms, es, off, base, total, seen);
    }
  }

  lemma {:induction false} DescribedRead(h: HeaderDoc, es: seq<WriteEntry>, base: nat, total: nat)
    requires ValidHeader(h) && DescribesAll(h.members, es, 0) && CheckAll(es, {}, 0) == Good(total)
    ensures var r := ParseHeader(HeaderText(h), base, total);
      if total <= INT64_MAX then r == Good(ViewsOfEntries(es, base)) else r.Bad?
  {
    HeaderReads(h, base, total);
    DescribedAdmitted(Header([], false), h.members, es, 0, base, total, {});
  }

  lemma {:induction false} UnreservedRead(es: seq<WriteEntry>, base: nat, total: nat)
    requires AllTyped(es) && CheckAll(es, {}, 0) == Good(total) && NoneReserved(es)
    ensures AllKnown(es)
    ensures var r := ParseHeader(HeaderBytes(es), base, total);
      if total <= INT64_MAX then r == Good(ViewsOfEntries(es, base)) else r.Bad?
  {
    CheckedArePrintable(es, {}, 0);
    var pad := HeaderIsDocument(es);
    MembersDescribe(MembersOf(es, 0), es, 0);
    DescribedAreValid(MembersOf(es, 0), es, 0);
    assert IsBlank(Spaces(pad));
    DescribedRead(DocOf(es, pad), es, base, total);
  }

  /** The printed header reads as the entries' views exactly when no name is reserved and every offset fits. */
  lemma {:induction false} HeaderRoundTrip(es: seq<WriteEntry>, base: nat, total: nat)
    requires AllTyped(es) && CheckAll(es, {}, 0) == Good(total) && AllKnown(es)
    ensures ParseHeader(HeaderBytes(es), base, total) == Good(ViewsOfEntries(es, base))
      <==> NoneReserved(es) && total <= INT64_MAX
  {
    if NoneReserved(es) {
      UnreservedRead(es, base, total);
    } else {
      SafetensorsOpen.HeaderSound(HeaderBytes(es), base, total);
      var i := ReservedIsListed(es, base);
      assert !SafetensorsOpen.SoundView(ViewsOfEntries(es, base)[i], base, total);
    }
  }

  // ---- The file ----

  lemma {:induction false} LeRoundTrip(v: nat, n: nat)
    requires v < Power256(n)
    ensures FromLe(ToLe(v, n)) == v
  {
    if n > 0 {
      LeRoundTrip(v / 0x100, n - 1);
      assert ToLe(v, n)[1..] == ToLe(v / 0x100, n - 1);
    }
  }

  lemma {:induction false} PayloadSize(es: seq<WriteEntry>, seen: set<string>, off: nat)
    requires AllTyped(es) && CheckAll(es, seen, off).Good?
    ensures off + |Payload(es)| == CheckAll(es, seen, off).value
    decreases |es|
  {
    if es != [] {
      CheckStep(es, seen, off);
      PayloadSize(es[1..], seen + {es[0].name}, off + es[0].bytes);
    }
  }

  /** The view of the entry holds its bytes. */
  predicate Holds(e: WriteEntry, v: TensorView, file: string, at: nat)
  {
    && v.data == at && at + v.nbytes <= |file|
    && v.name == e.name && v.dtype == e.dtype && v.shape == e.shape
    && file[at..at + v.nbytes] == if e.data.Some? then e.data.value else ""
  }

  /** Views in the order of the entries, each holding its entry's bytes, together covering `file` from `at` to its end. */
  predicate Tiles(es: seq<WriteEntry>, vs: seq<TensorView>, file: string, at: nat)
    decreases |es|
  {
    if es == [] || vs == [] then es == [] && vs == [] && at == |file|
    else Holds(es[0], vs[0], file, at) && Tiles(es[1..], vs[1..], file, at + vs[0].nbytes)
  }

  lemma FirstHolds(e: WriteEntry, file: string, at: nat, rest: string)
    requires at <= |file| && file[at..] == (if e.data.Some? then e.data.value else "") + rest
    requires Typed(e) && (e.data.None? ==> e.bytes == 0)
    ensures Holds(e, ViewOf(e, at), file, at) && file[at + e.bytes..] == rest
  {
    var d := if e.data.Some? then e.data.value else "";
    assert file[at..at + e.bytes] == file[at..][..e.bytes] == d;
    assert file[at + e.bytes..] == file[at..][e.bytes..] == rest;
  }

  lemma {:induction false} TilesMore(es: seq<WriteEntry>, v: TensorView, vs: seq<TensorView>, file: string, at: nat)
    requires es != [] && Holds(es[0], v, file, at) && Tiles(es[1..], vs, file, at + v.nbytes)
    ensures Tiles(es, [v] + vs, file, at)
  {
    assert ([v] + vs)[1..] == vs;
  }

  /** Checked entries whose bytes are what `file` holds from `at` on. */
  predicate Stored(es: seq<WriteEntry>, seen: set<string>, off: nat, file: string, at: nat)
  {
    AllTyped(es) && CheckAll(es, seen, off).Good? && at <= |file| && file[at..] == Payload(es)
  }

  lemma FirstStored(es: seq<WriteEntry>, seen: set<string>, off: nat, file: string, at: nat)
    requires es != [] && Stored(es, seen, off, file, at)
    ensures Holds(es[0], ViewOf(es[0], at), file, at)
    ensures Stored(es[1..], seen + {es[0].name}, off + es[0].bytes, file, at + es[0].bytes)
  {
    CheckStep(es, seen, off);
    FirstHolds(es[0], file, at, Payload(es[1..]));
  }

  lemma {:induction false} PayloadTiled(es: seq<WriteEntry>, seen: set<string>, off: nat, file: string, at: nat)
    requires Stored(es, seen, off, file, at)
    ensures Tiles(es, ViewsOfEntries(es, at), file, at)
    decreases |es|
  {
    if es == [] {
      assert |file[at..]| == 0;
    } else {
      var v, next := ViewOf(es[0], at), at + es[0].bytes;
      FirstStored(es, seen, off, file, at);
      PayloadTiled(es[1..], seen + {es[0].name}, off + es[0].bytes, file, next);
      TilesMore(es, v, ViewsOfEntries(es[1..], next), file, at);
    }
  }

  lemma {:induction false} FilePlaced(es: seq<WriteEntry>, size: string, header: string, at: nat)
    requires AllTyped(es) && CheckAll(es, {}, 0).Good? && at == |size| + |header|
    ensures Tiles(es, ViewsOfEntries(es, at), size + header + Payload(es), at)
  {
    var file := size + header + Payload(es);
    assert file[at..] == Payload(es);
    PayloadTiled(es, {}, 0, file, at);
  }

  lemma {:induction false} SizeField(n: nat)
    requires n <= SIZE_MAX
    ensures FromLe(ToLe(n, 8)) == n
  {
    assert Power256(8) == SIZE_MAX + 1;
    LeRoundTrip(n, 8);
  }

  lemma {:induction false} PartsOpen(es: seq<WriteEntry>, size: string, header: string, total: nat, at: nat)
    requires AllTyped(es) && CheckAll(es, {}, 0) == Good(total) && |Payload(es)| == total
    requires AllKnown(es) && header == HeaderBytes(es) && |size| == 8 && FromLe(size) == |header| && at == 8 + |header|
    ensures Open(size + header + Payload(es)) == Good(ViewsOfEntries(es, at)) <==> NoneReserved(es) && total <= INT64_MAX
  {
    SafetensorsOpen.OpenParts(size, header, Payload(es), at);
    HeaderRoundTrip(es, at, total);
  }

  lemma FileParts(es: seq<WriteEntry>) returns (size: string, header: string)
    requires FileBytes(es).Good?
    ensures AllKnown(es) && header == HeaderBytes(es) && |header| % 8 == 0
    ensures |size| == 8 && (|header| <= SIZE_MAX ==> FromLe(size) == |header|)
    ensures FileBytes(es).value == size + header + Payload(es)
  {
    CheckedAreKnown(es, {}, 0);
    header := HeaderBytes(es);
    size := ToLe(|header|, 8);
    if |header| <= SIZE_MAX { SizeField(|header|); }
  }

  /**
   Opening a written file gives back the names, dtypes, shapes and bytes of the entries in order, exactly
   when no entry has the reserved name and the payload's size fits in 64 signed bits. The header's own size
   is that of a `std::string`, a `size_t`.
   */
  lemma {:induction false} WriteThenOpen(es: seq<WriteEntry>, file: string, at: nat)
    requires AllTyped(es) && FileBytes(es) == Good(file)
    requires |Payload(es)| <= |file| && at == |file| - |Payload(es)| <= SIZE_MAX
    ensures Open(file) == Good(ViewsOfEntries(es, at)) <==> NoneReserved(es) && |Payload(es)| <= INT64_MAX
    ensures Tiles(es, ViewsOfEntries(es, at), file, at)
  {
    var size, header := FileParts(es);
    assert at == |size| + |header|;
    PayloadSize(es, {}, 0);
    PartsOpen(es, size, header, |Payload(es)|, at);
    FilePlaced(es, size, header, at);
  }

  /** The writer takes an entry with the reserved name, which by the above does not come back. */
  lemma ReservedIsWritten(e: WriteEntry)
    requires e == WriteEntry("__metadata__", U8, [0], None, 0)
    ensures AllTyped([e]) && !NoneReserved([e]) && FileBytes([e]).Good? && Payload([e]) == ""
  {
    assert Numel([0], 1) == Good(0) by {
      assert [0][1..] == [];
    }
    assert CheckEntry(e, {}, 0) == Good(0);
    assert [e][1..] == [];
    assert CheckAll([e], {}, 0) == Good(0);
  }

  /** The payload starts at a multiple of eight. */
  lemma {:induction false} PayloadAligned(es: seq<WriteEntry>, file: string)
    requires FileBytes(es) == Good(file)
    ensures |Payload(es)| <= |file| && (|file| - |Payload(es)|) % 8 == 0
  {
    var size, header := FileParts(es);
    AddEight(|header|);
    assert |file| - |Payload(es)| == 8 + |header|;
  }

  lemma AddEight(n: nat)
    requires n % 8 == 0
    ensures (8 + n) % 8 == 0
  {
  }
}

/** What a header says, without reading it step by step: which of its fields and members give which views. */
module SafetensorsMeaning {
  import opened MachineWords
  import opened Results
  import opened JsonText
  import opened SafetensorsParser
  import opened SafetensorsDocument
  import opened SafetensorsOpen
  import opened SafetensorsWriter
  import opened SafetensorsChecks
  import opened SafetensorsAccepts

  // ---- Entries ----

  /** The types the fields name, in order. */
  function Texts(fs: seq<Field>): seq<string>
    requires ValidFields(fs)
  {
    if fs == [] then []
    else
      var tail := Texts(fs[1..]);
      match fs[0].v case DtypeField(ps) => [StringValue(ps)] + tail case _ => tail
  }

  /** The shapes they give, None for one with a number past 64 bits. */
  function Shapes(fs: seq<Field>): seq<Option<seq<int>>>
    requires ValidFields(fs)
  {
    if fs == [] then []
    else
      var tail := Shapes(fs[1..]);
      match fs[0].v case ShapeField(_, ns) => [Values(ns)] + tail case _ => tail
  }

  function OffsetsGiven(a: Int, b: Int): Option<(int, int)>
  {
    if a.n > INT64_MAX || b.n > INT64_MAX then None else Some((IntValue(a), IntValue(b)))
  }

  function Offsets(fs: seq<Field>): seq<Option<(int, int)>>
    requires ValidFields(fs)
  {
    if fs == [] then []
    else
      var tail := Offsets(fs[1..]);
      match fs[0].v case OffsetsField(a, b) => [OffsetsGiven(a, b)] + tail case _ => tail
  }

  /** One type by its name, one shape and one pair of offsets, in any order; other fields do not matter. */
  predicate Says(fs: seq<Field>, e: Entry)
    requires ValidFields(fs)
  {
    && e.seenDtype && e.seenShape && e.seenOffsets
    && e.dtype != Unknown && Texts(fs) == [DtypeName(e.dtype)]
    && Shapes(fs) == [Some(e.shape)]
    && Offsets(fs) == [Some((e.offStart as int, e.offEnd as int))]
  }

  /** What the fields still have to say after those recorded in `acc`. */
  predicate StillSays(acc: Entry, fs: seq<Field>, e: Entry)
    requires ValidFields(fs)
  {
    && e.seenDtype && e.seenShape && e.seenOffsets
    && (if acc.seenDtype then Texts(fs) == [] && e.dtype == acc.dtype
        else e.dtype != Unknown && Texts(fs) == [DtypeName(e.dtype)])
    && (if acc.seenShape then Shapes(fs) == [] && e.shape == acc.shape else Shapes(fs) == [Some(e.shape)])
    && (if acc.seenOffsets then Offsets(fs) == [] && e.offStart == acc.offStart && e.offEnd == acc.offEnd
        else Offsets(fs) == [Some((e.offStart as int, e.offEnd as int))])
  }

  lemma OneMore<T>(x: T, tail: seq<T>, y: T)
    ensures [x] + tail == [y] <==> x == y && tail == []
    ensures [x] + tail != []
  {
    if [x] + tail == [y] { assert ([x] + tail)[0] == x && |[x] + tail| == 1 + |tail|; }
  }

  lemma {:induction false} SaysStep(acc: Entry, fs: seq<Field>, e: Entry)
    requires fs != [] && ValidFields(fs)
    ensures var next := Record(acc, fs[0].v);
      StillSays(acc, fs, e) <==> next.Some? && StillSays(next.value, fs[1..], e)
  {
    var tail := fs[1..];
    match fs[0].v
    case DtypeField(ps) =>
      if e.dtype != Unknown {
        OneMore(StringValue(ps), Texts(tail), DtypeName(e.dtype));
        NameParses(StringValue(ps), e.dtype);
      }
    case ShapeField(_, ns) =>
      OneMore(Values(ns), Shapes(tail), Some(e.shape));
    case OffsetsField(a, b) =>
      OneMore(OffsetsGiven(a, b), Offsets(tail), Some((e.offStart as int, e.offEnd as int)));
    case OtherField(_) =>
  }

  lemma {:induction false} RecordedExactly(acc: Entry, fs: seq<Field>, e: Entry)
    requires ValidFields(fs)
    ensures RecordAll(acc, fs) == Some(e) <==> StillSays(acc, fs, e)
    decreases |fs|
  {
    if fs != [] {
      SaysStep(acc, fs, e);
      var next := Record(acc, fs[0].v);
      if next.Some? { RecordedExactly(next.value, fs[1..], e); }
    }
  }

  lemma {:induction false} EntrySays(fs: seq<Field>, e: Entry)
    requires ValidFields(fs)
    ensures RecordAll(NO_FIELDS, fs) == Some(e) <==> Says(fs, e)
  {
    RecordedExactly(NO_FIELDS, fs, e);
  }

  // ---- Members ----

  /** The entry of a view whose payload starts at `base`. */
  function EntryOf(v: TensorView, base: nat): Entry
    requires v.data >= base
  {
    Entry(v.dtype, v.shape, v.data - base, v.data - base + v.nbytes, true, true, true)
  }

  /** The fields say the view's type, shape and place, and these fit each other and the payload. */
  predicate Gives(name: string, fs: seq<Field>, base: nat, payload: nat, v: TensorView)
    requires ValidFields(fs)
  {
    v.name == name && v.data >= base && Says(fs, EntryOf(v, base)) && Fits(EntryOf(v, base), payload)
  }

  /** The view of an entry, if it has one. */
  function ViewOf(name: string, fs: seq<Field>, base: nat, payload: nat): Option<TensorView>
    requires ValidFields(fs)
  {
    var e := RecordAll(NO_FIELDS, fs);
    if e.None? then None
    else
      var v := MakeView(name, e.value, base, payload);
      if v.Bad? then None else Some(v.value)
  }

  lemma {:induction false} FlagsSet(fs: seq<Field>)
    requires ValidFields(fs) && RecordAll(NO_FIELDS, fs).Some?
    ensures var e := RecordAll(NO_FIELDS, fs).value; e.seenDtype && e.seenShape && e.seenOffsets
  {
    EntrySays(fs, RecordAll(NO_FIELDS, fs).value);
  }

  lemma MadeFrom(name: string, e: Entry, base: nat, payload: nat, v: TensorView)
    requires payload <= SIZE_MAX && e.seenDtype && e.seenShape && e.seenOffsets
    ensures MakeView(name, e, base, payload) == Good(v)
      <==> v.name == name && v.data >= base && e == EntryOf(v, base) && Fits(e, payload)
  {
    ViewMadeExactly(name, e, base, payload);
  }

  lemma {:induction false} ViewGiven(name: string, fs: seq<Field>, base: nat, payload: nat, v: TensorView)
    requires ValidFields(fs) && payload <= SIZE_MAX
    ensures ViewOf(name, fs, base, payload) == Some(v) <==> Gives(name, fs, base, payload, v)
  {
    var r := RecordAll(NO_FIELDS, fs);
    if r.Some? {
      FlagsSet(fs);
      MadeFrom(name, r.value, base, payload, v);
    }
    if v.data >= base { EntrySays(fs, EntryOf(v, base)); }
  }

  /** How often the metadata occur. */
  function MetadataCount(ms: seq<Member>): nat
  {
    if ms == [] then 0 else (if ms[0].v.Metadata? then 1 else 0) + MetadataCount(ms[1..])
  }

  /** The entries give the views, one each, in order. */
  predicate AllGive(ms: seq<Member>, base: nat, payload: nat, views: seq<TensorView>)
    requires ValidMembers(ms)
    decreases |ms|
  {
    if ms == [] then views == []
    else
      match ms[0].v
      case Metadata(_) => AllGive(ms[1..], base, payload, views)
      case TensorEntry(_, fs) =>
        && views != [] && Gives(StringValue(ms[0].key), fs, base, payload, views[0])
        && AllGive(ms[1..], base, payload, views[1..])
  }

  predicate Distinct(views: seq<TensorView>)
  {
    forall i, j | 0 <= i < j < |views| :: views[i].name != views[j].name
  }

  lemma DistinctMore(views: seq<TensorView>, v: TensorView)
    requires Distinct(views)
    ensures Distinct(views + [v]) <==> v.name !in Names(views)
  {
    var all := views + [v];
    if v.name !in Names(views) {
      forall i, j | 0 <= i < j < |all| ensures all[i].name != all[j].name {
        assert views[i] in views;
      }
    } else {
      var i :| 0 <= i < |views| && views[i].name == v.name;
      assert all[i].name == all[|views|].name;
    }
  }

  lemma DistinctFirst(views: seq<TensorView>, v: TensorView, tail: seq<TensorView>)
    ensures Distinct(views + [v] + tail) ==> Distinct(views + [v])
  {
    var all := views + [v] + tail;
    if Distinct(all) {
      forall i, j | 0 <= i < j < |views + [v]| ensures (views + [v])[i].name != (views + [v])[j].name {
        assert all[i] == (views + [v])[i] && all[j] == (views + [v])[j];
      }
    }
  }

  /** Admitting a member only adds to the header. */
  lemma {:induction false} AdmitExtends(h: Header, ms: seq<Member>, base: nat, payload: nat)
    requires ValidMembers(ms) && AdmitAll(h, ms, base, payload).Some?
    ensures var r := AdmitAll(h, ms, base, payload).value;
      h.views <= r.views && (r.seenMetadata <==> h.seenMetadata || MetadataCount(ms) > 0)
    decreases |ms|
  {
    if ms != [] { AdmitExtends(Admit(h, ms[0], base, payload).value, ms[1..], base, payload); }
  }

  /** The members, after others with the views `before`, and the metadata if `seen`, give the views. */
  predicate Completes(before: seq<TensorView>, seen: bool, ms: seq<Member>, base: nat, payload: nat, views: seq<TensorView>)
    requires ValidMembers(ms)
  {
    && AllGive(ms, base, payload, views) && Distinct(before + views)
    && MetadataCount(ms) + (if seen then 1 else 0) <= 1
  }

  predicate Admitted(before: seq<TensorView>, seen: bool, ms: seq<Member>, base: nat, payload: nat, views: seq<TensorView>)
    requires ValidMembers(ms)
  {
    AdmitAll(Header(before, seen), ms, base, payload) == Some(Header(before + views, seen || MetadataCount(ms) > 0))
  }

  lemma SplitFirst(before: seq<TensorView>, views: seq<TensorView>)
    requires views != []
    ensures before + views == before + [views[0]] + views[1..]
  {
  }

  lemma {:induction false} MetadataStep(before: seq<TensorView>, seen: bool, ms: seq<Member>, base: nat, payload: nat,
      views: seq<TensorView>)
    requires ValidMembers(ms) && ms != [] && ms[0].v.Metadata?
    ensures Completes(before, seen, ms, base, payload, views) <==> !seen && Completes(before, true, ms[1..], base, payload, views)
    ensures Admitted(before, seen, ms, base, payload, views) <==> !seen && Admitted(before, true, ms[1..], base, payload, views)
  {
  }

  /** The first view is the member's, and its name is new. */
  predicate First(before: seq<TensorView>, m: Member, base: nat, payload: nat, views: seq<TensorView>)
    requires ValidMember(m) && m.v.TensorEntry?
  {
    && views != [] && ViewOf(StringValue(m.key), m.v.fields, base, payload) == Some(views[0])
    && views[0].name !in Names(before)
  }

  lemma {:induction false} EntryCompletes(before: seq<TensorView>, seen: bool, ms: seq<Member>, base: nat, payload: nat,
      views: seq<TensorView>)
    requires ValidMembers(ms) && ms != [] && ms[0].v.TensorEntry? && payload <= SIZE_MAX && Distinct(before)
    ensures Completes(before, seen, ms, base, payload, views) <==>
      First(before, ms[0], base, payload, views) && Completes(before + [views[0]], seen, ms[1..], base, payload, views[1..])
  {
    if views != [] {
      var v, tail := views[0], views[1..];
      ViewGiven(StringValue(ms[0].key), ms[0].v.fields, base, payload, v);
      SplitFirst(before, views);
      DistinctMore(before, v);
      DistinctFirst(before, v, tail);
    }
  }

  lemma {:induction false} EntryAdmitted(before: seq<TensorView>, seen: bool, ms: seq<Member>, base: nat, payload: nat,
      views: seq<TensorView>)
    requires ValidMembers(ms) && ms != [] && ms[0].v.TensorEntry?
    ensures Admitted(before, seen, ms, base, payload, views) <==>
      First(before, ms[0], base, payload, views) && Admitted(before + [views[0]], seen, ms[1..], base, payload, views[1..])
  {
    var h := Header(before, seen);
    if views != [] { SplitFirst(before, views); }
    if AdmitAll(h, ms, base, payload).Some? {
      var h' := Admit(h, ms[0], base, payload).value;
      AdmitExtends(h', ms[1..], base, payload);
      var v := h'.views[|before|];
      assert h'.views == before + [v];
      if Admitted(before, seen, ms, base, payload, views) {
        assert (before + views)[|before|] == v;
      }
    }
  }

  lemma {:induction false} AdmittedExactly(before: seq<TensorView>, seen: bool, ms: seq<Member>, base: nat, payload: nat,
      views: seq<TensorView>)
    requires ValidMembers(ms) && payload <= SIZE_MAX && Distinct(before)
    ensures Admitted(before, seen, ms, base, payload, views) <==> Completes(before, seen, ms, base, payload, views)
    decreases |ms|
  {
    if ms == [] {
      if Admitted(before, seen, ms, base, payload, views) { assert |before + views| == |before|; }
      assert before + [] == before;
    } else if ms[0].v.Metadata? {
      MetadataStep(before, seen, ms, base, payload, views);
      AdmittedExactly(before, true, ms[1..], base, payload, views);
    } else {
      EntryAdmitted(before, seen, ms, base, payload, views);
      EntryCompletes(before, seen, ms, base, payload, views);
      if views != [] && views[0].name !in Names(before) {
        DistinctMore(before, views[0]);
        AdmittedExactly(before + [views[0]], seen, ms[1..], base, payload, views[1..]);
      }
    }
  }

  // ---- Headers and files ----

  /** The entries give the views in order, no two of one name, and the metadata occur at most once. */
  predicate HeaderSays(ms: seq<Member>, base: nat, payload: nat, views: seq<TensorView>)
    requires ValidMembers(ms)
  {
    AllGive(ms, base, payload, views) && Distinct(views) && MetadataCount(ms) <= 1
  }

  lemma MeaningExact(h: HeaderDoc, base: nat, payload: nat, views: seq<TensorView>)
    requires ValidHeader(h) && payload <= SIZE_MAX
    ensures HeaderMeaning(h, base, payload) == Some(views) <==> HeaderSays(h.members, base, payload, views)
  {
    AdmittedExactly([], false, h.members, base, payload, views);
    assert [] + views == views;
    if HeaderMeaning(h, base, payload).Some? { AdmitExtends(Header([], false), h.members, base, payload); }
  }

  /** The text is that of the header, which says the views. */
  predicate Declares(s: string, h: HeaderDoc, base: nat, payload: nat, views: seq<TensorView>)
  {
    ValidHeader(h) && s == HeaderText(h) && HeaderSays(h.members, base, payload, views)
  }

  lemma DeclaresExactly(s: string, h: HeaderDoc, base: nat, payload: nat, views: seq<TensorView>)
    requires payload <= SIZE_MAX
    ensures Describes(s, h, base, payload, views) <==> Declares(s, h, base, payload, views)
  {
    if ValidHeader(h) { MeaningExact(h, base, payload, views); }
  }

  ghost predicate Declared(s: string, base: nat, payload: nat, views: seq<TensorView>)
  {
    exists h :: Declares(s, h, base, payload, views)
  }

  lemma DeclaredExactly(s: string, base: nat, payload: nat, views: seq<TensorView>)
    requires payload <= SIZE_MAX
    ensures HasHeader(s, base, payload, views) <==> Declared(s, base, payload, views)
  {
    forall h ensures Describes(s, h, base, payload, views) <==> Declares(s, h, base, payload, views) {
      DeclaresExactly(s, h, base, payload, views);
    }
  }

  /** A size field, a header's text of that size, and the payload in which the header places the views. */
  ghost predicate Holds(file: string, size: string, header: string, payload: string, views: seq<TensorView>)
  {
    && file == size + header + payload && |size| == 8 && Long(size) == |header|
    && Declared(header, 8 + |header|, |payload|, views)
  }

  lemma HoldsExactly(file: string, size: string, header: string, payload: string, views: seq<TensorView>)
    requires |file| <= SIZE_MAX
    ensures IsFile(file, size, header, payload, views) <==> Holds(file, size, header, payload, views)
  {
    if file == size + header + payload { DeclaredExactly(header, 8 + |header|, |payload|, views); }
  }

  /** A file opens, and with these views, exactly when it is put together from a header that says them. */
  lemma OpenedExactly(file: string, views: seq<TensorView>)
    requires |file| <= SIZE_MAX
    ensures Open(file) == Good(views) <==> exists size, header, payload :: Holds(file, size, header, payload, views)
  {
    OpensExactly(file, views);
    forall size, header, payload
      ensures IsFile(file, size, header, payload, views) <==> Holds(file, size, header, payload, views)
    {
      HoldsExactly(file, size, header, payload, views);
    }
  }
}

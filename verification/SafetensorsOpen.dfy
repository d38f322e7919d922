/** What holds of every safetensors file that opens, whoever wrote it. */
module SafetensorsOpen {
  import opened Arithmetic
  import opened MachineWords
  import opened Results
  import opened JsonText
  import opened SafetensorsParser

  /**
   A view inside the payload, of a supported type, whose size is that of its true element count, and which does
   not carry the reserved name.
   */
  predicate SoundView(v: TensorView, base: nat, payload: nat)
  {
    && v.name != METADATA && v.dtype != Unknown
    && base <= v.data && v.data + v.nbytes <= base + payload
    && (forall i | 0 <= i < |v.shape| :: v.shape[i] >= 0)
    && 0 <= Product(v.shape) <= INT64_MAX && v.nbytes == Product(v.shape) * DtypeSize(v.dtype)
  }

  predicate AllSound(views: seq<TensorView>, base: nat, payload: nat)
  {
    forall i | 0 <= i < |views| :: SoundView(views[i], base, payload)
  }

  predicate Distinct(views: seq<TensorView>)
  {
    forall i, j | 0 <= i < j < |views| :: views[i].name != views[j].name
  }

  predicate SoundViews(views: seq<TensorView>, base: nat, payload: nat)
  {
    AllSound(views, base, payload) && Distinct(views)
  }

  lemma OneTimes(p: int)
    ensures 1 * p == p
  {
  }

  /** The checked element count is the true product, and every dimension is non-negative. */
  lemma {:induction false} NumelIsProduct(shape: seq<int>, n: nat)
    requires n <= INT64_MAX && Numel(shape, n).Good?
    ensures Numel(shape, n).value == n * Product(shape)
    ensures forall i | 0 <= i < |shape| :: shape[i] >= 0
    decreases |shape|
  {
    if shape != [] {
      var d := shape[0];
      ProductFits(n, d);
      NumelIsProduct(shape[1..], n * d);
      Associate(n, d, Product(shape[1..]));
      assert shape == [d] + shape[1..];
    }
  }

  lemma DtypeIsSized(d: Dtype)
    ensures DtypeSize(d) == 0 <==> d == Unknown
  {
  }

  lemma ViewIsSound(name: string, e: Entry, base: nat, payload: nat)
    requires MakeView(name, e, base, payload).Good? && name != METADATA
    ensures var v := MakeView(name, e, base, payload).value; v.name == name && SoundView(v, base, payload)
  {
    NumelIsProduct(e.shape, 1);
    OneTimes(Product(e.shape));
    DtypeIsSized(e.dtype);
  }

  lemma NameNotIn(views: seq<TensorView>, v: TensorView, i: nat)
    requires v.name !in Names(views) && i < |views|
    ensures views[i].name != v.name
  {
    assert views[i] in views;
  }

  lemma SoundMore(views: seq<TensorView>, v: TensorView, base: nat, payload: nat)
    requires SoundViews(views, base, payload) && SoundView(v, base, payload) && v.name !in Names(views)
    ensures SoundViews(views + [v], base, payload)
  {
    var vs := views + [v];
    forall i | 0 <= i < |vs| ensures SoundView(vs[i], base, payload) {
      if i < |views| { assert vs[i] == views[i]; }
    }
    forall i, j | 0 <= i < j < |vs| ensures vs[i].name != vs[j].name {
      if j == |views| { NameNotIn(views, v, i); } else { assert vs[i] == views[i] && vs[j] == views[j]; }
    }
  }

  lemma ValueKeepsSound(s: string, name: string, h: Header, base: nat, payload: nat)
    requires SoundViews(h.views, base, payload)
    ensures var r := ParseMemberValue(s, name, h, base, payload); r.Ok? ==> SoundViews(r.value.views, base, payload)
  {
    if name != METADATA {
      var e := ParseEntry(s);
      if e.Ok? {
        var v := MakeView(name, e.value, base, payload);
        if v.Good? {
          ViewIsSound(name, e.value, base, payload);
          if v.value.name !in Names(h.views) { SoundMore(h.views, v.value, base, payload); }
        }
      }
    }
  }

  lemma MemberKeepsSound(s: string, h: Header, base: nat, payload: nat)
    requires SoundViews(h.views, base, payload)
    ensures var r := ParseMember(s, h, base, payload); r.Ok? ==> SoundViews(r.value.views, base, payload)
  {
    var name := ParseString(s);
    if name.Ok? {
      var colon := Expect(name.rest, ':');
      if colon.Ok? { ValueKeepsSound(colon.rest, name.value, h, base, payload); }
    }
  }

  lemma {:induction false} MembersKeepSound(s: string, h: Header, first: bool, base: nat, payload: nat)
    requires SoundViews(h.views, base, payload)
    ensures var r := ParseMembers(s, h, first, base, payload); r.Ok? ==> SoundViews(r.value.views, base, payload)
    decreases |s|
  {
    var comma := if first then Ok((), s) else Expect(s, ',');
    if Expect(s, '}').Fail? && comma.Ok? {
      MemberKeepsSound(comma.rest, h, base, payload);
      var m := ParseMember(comma.rest, h, base, payload);
      if m.Ok? { MembersKeepSound(m.rest, m.value, false, base, payload); }
    }
  }

  predicate SoundOutcome(r: Checked<seq<TensorView>>, base: nat, payload: nat)
  {
    r.Good? ==> SoundViews(r.value, base, payload)
  }

  lemma HeaderSound(s: string, base: nat, payload: nat)
    ensures SoundOutcome(ParseHeader(s, base, payload), base, payload)
  {
    var open := Expect(s, '{');
    if open.Ok? { MembersKeepSound(open.rest, Header([], false), true, base, payload); }
  }

  /** A file put together from a size field, that many bytes and the rest opens as that header with that payload. */
  lemma {:induction false} OpenParts(size: string, header: string, payload: string, at: nat)
    requires |size| == 8 && FromLe(size) == |header| && at == 8 + |header|
    ensures Open(size + header + payload) == ParseHeader(header, at, |payload|)
  {
    var file := size + header + payload;
    assert file[..8] == size;
    assert file[8..8 + |header|] == header;
  }

  /** The result is that of reading some header that ends where `base` says. */
  predicate ReadsAt(r: Checked<seq<TensorView>>, header: string, base: nat, size: nat)
  {
    8 <= base <= size && r == ParseHeader(header, base, size - base)
  }

  lemma OpenReadsHeader(file: string) returns (header: string, base: nat)
    requires Open(file).Good?
    ensures ReadsAt(Open(file), header, base, |file|)
  {
    var size := FromLe(file[..8]);
    header, base := file[8..8 + size], 8 + size;
  }

  predicate SoundFile(r: Checked<seq<TensorView>>, base: nat, size: nat)
  {
    8 <= base <= size && SoundOutcome(r, base, size - base)
  }

  lemma SoundAs(r: Checked<seq<TensorView>>, header: string, base: nat, payload: nat)
    requires r == ParseHeader(header, base, payload)
    ensures SoundOutcome(r, base, payload)
  {
    HeaderSound(header, base, payload);
  }

  lemma SoundAt(r: Checked<seq<TensorView>>, header: string, base: nat, size: nat)
    requires ReadsAt(r, header, base, size)
    ensures SoundFile(r, base, size)
  {
    SoundAs(r, header, base, size - base);
  }

  /**
   Every tensor of a file that opens lies inside its payload, which ends the file, has exactly the bytes its type and
   true element count need, and has a name of its own that is not the reserved one.
   */
  lemma OpenSound(file: string) returns (base: nat)
    requires Open(file).Good?
    ensures SoundFile(Open(file), base, |file|)
  {
    var header;
    header, base := OpenReadsHeader(file);
    SoundAt(Open(file), header, base, |file|);
  }
}

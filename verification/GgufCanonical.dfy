/** The other direction: whatever the GGUF reader accepts is the encoding of what it read. */
module GgufCanonical {
  import opened Results
  import opened Arithmetic
  import opened GgufBytes
  import opened Gguf
  import opened GgufGuards
  import opened GgufEncoding

  lemma {:induction false} LeIsEncoded(s: seq<byte>, n: nat)
    requires n <= |s|
    ensures LeThen(Le(s[..n]), n, s[n..]) == s && Le(s[..n]) < Power256(n)
    decreases n
  {
    if n == 0 {
      assert s[0..] == s;
    } else {
      var t := s[1..];
      LeIsEncoded(t, n - 1);
      assert s[..n][1..] == t[..n - 1] && s[n..] == t[n - 1..];
      assert s == [s[0]] + t;
      LowByte(s[0], Le(t[..n - 1]), Le(s[..n]));
    }
  }

  lemma LowByte(b: byte, rest: nat, v: nat)
    requires v == b + 0x100 * rest
    ensures v % 0x100 == b && v / 0x100 == rest
  {
  }

  lemma {:induction false} UintIsEncoded(s: seq<byte>, n: nat)
    ensures var r := ReadUint(s, n); r.Ok? ==> s == LeThen(r.value, n, r.rest) && r.value < Power256(n)
  {
    if n <= |s| { LeIsEncoded(s, n); }
  }

  lemma StrIsEncoded(s: seq<byte>)
    ensures var r := ReadStr(s); r.Ok? ==> s == StrThen(r.value, r.rest) && |r.value| < Power256(8)
  {
    UintIsEncoded(s, 8);
    var len := ReadUint(s, 8);
    if len.Ok? && len.value <= |len.rest| {
      assert len.rest == len.rest[..len.value] + len.rest[len.value..];
    }
  }

  /** The value is what the bytes up to `k` encode. */
  predicate IsValue(s: seq<byte>, t: ValueType, v: Value, k: seq<byte>)
  {
    s == ValueThen(v, k) && Valid(v) && TypeOfValue(v) == t
  }

  lemma ScalarIsEncoded(s: seq<byte>, t: ValueType)
    requires t != Array
    ensures var r := ParseScalar(s, t); r.Ok? ==> IsValue(s, t, r.value, r.rest)
  {
    if t == String {
      StrIsEncoded(s);
    } else {
      StoredBytesRead(t);
      UintIsEncoded(s, Width(t));
    }
  }

  lemma RawOfType(raw: nat)
    requires raw <= 12
    ensures Raw(TypeOf(raw)) == raw
  {
  }

  predicate IsArrayHead(s: seq<byte>, r: Parse<(ValueType, nat)>)
  {
    r.Ok? ==> s == LeThen(Raw(r.value.0), 4, LeThen(r.value.1, 8, r.rest)) && r.value.1 < Power256(8)
  }

  lemma HeadIsEncoded(s: seq<byte>, guarded: bool)
    ensures IsArrayHead(s, ParseArrayHead(s, guarded))
  {
    UintIsEncoded(s, 4);
    var raw := ReadUint(s, 4);
    if raw.Ok? && raw.value <= 12 {
      RawOfType(raw.value);
      UintIsEncoded(raw.rest, 8);
    }
  }

  predicate ValueOutcome(s: seq<byte>, t: ValueType, r: Parse<Value>)
  {
    r.Ok? ==> IsValue(s, t, r.value, r.rest)
  }

  predicate ItemsOutcome(s: seq<byte>, t: ValueType, n: nat, r: Parse<seq<Value>>)
  {
    r.Ok? ==> |r.value| == n && AreItems(s, t, r.value, r.rest)
  }

  /** An array is its head, then its items. */
  function ArrayOf(head: Parse<(ValueType, nat)>, items: Parse<seq<Value>>): Parse<Value>
    requires head.Ok?
  {
    if items.Fail? then Fail(items.message) else Ok(Arr(head.value.0, items.value), items.rest)
  }

  lemma ArrayIsEncoded(s: seq<byte>, head: Parse<(ValueType, nat)>, items: Parse<seq<Value>>)
    requires head.Ok? && IsArrayHead(s, head) && ItemsOutcome(head.rest, head.value.0, head.value.1, items)
    ensures ValueOutcome(s, Array, ArrayOf(head, items))
  {
  }

  lemma {:induction false} ValueIsEncoded(s: seq<byte>, t: ValueType, depth: nat, guarded: bool)
    requires depth <= MAX_DEPTH + 1
    ensures ValueOutcome(s, t, ParseValue(s, t, depth, guarded))
    decreases MAX_DEPTH + 1 - depth, 0, 0
  {
    if depth <= MAX_DEPTH {
      if t != Array {
        ScalarIsEncoded(s, t);
      } else {
        var head := ParseArrayHead(s, guarded);
        HeadIsEncoded(s, guarded);
        if head.Ok? {
          var items := ParseItems(head.rest, head.value.0, head.value.1, depth + 1, guarded);
          ItemsAreEncoded(head.rest, head.value.0, head.value.1, depth + 1, guarded);
          ArrayIsEncoded(s, head, items);
          assert ParseValue(s, t, depth, guarded) == ArrayOf(head, items);
        }
      }
    }
  }

  predicate AreItems(s: seq<byte>, t: ValueType, vs: seq<Value>, k: seq<byte>)
  {
    s == ItemsThen(vs, k) && AllValid(vs, t)
  }

  lemma ItemsMore(s: seq<byte>, t: ValueType, v: Parse<Value>, n: nat, tail: Parse<seq<Value>>)
    requires v.Ok? && tail.Ok? && n > 0 && ValueOutcome(s, t, v) && ItemsOutcome(v.rest, t, n - 1, tail)
    ensures ItemsOutcome(s, t, n, Ok([v.value] + tail.value, tail.rest))
  {
    assert ([v.value] + tail.value)[1..] == tail.value;
  }

  lemma {:induction false} ItemsAreEncoded(s: seq<byte>, t: ValueType, n: nat, depth: nat, guarded: bool)
    requires depth <= MAX_DEPTH + 1
    ensures ItemsOutcome(s, t, n, ParseItems(s, t, n, depth, guarded))
    decreases MAX_DEPTH + 1 - depth, 1, n
  {
    if n > 0 {
      ValueIsEncoded(s, t, depth, guarded);
      var v := ParseValue(s, t, depth, guarded);
      if v.Ok? {
        ItemsAreEncoded(v.rest, t, n - 1, depth, guarded);
        var tail := ParseItems(v.rest, t, n - 1, depth, guarded);
        if tail.Ok? { ItemsMore(s, t, v, n, tail); }
      }
    }
  }

  predicate IsEntry(s: seq<byte>, e: Entry, k: seq<byte>)
  {
    s == EntryThen(e, k) && ValidEntry(e)
  }

  lemma EntryIsEncoded(s: seq<byte>, guarded: bool)
    ensures var r := ParseEntry(s, guarded); r.Ok? ==> IsEntry(s, r.value, r.rest)
  {
    StrIsEncoded(s);
    var key := ReadStr(s);
    if key.Ok? {
      UintIsEncoded(key.rest, 4);
      var raw := ReadUint(key.rest, 4);
      if raw.Ok? && raw.value <= 12 {
        RawOfType(raw.value);
        ValueIsEncoded(raw.rest, TypeOf(raw.value), 0, guarded);
      }
    }
  }

  predicate AreEntries(s: seq<byte>, es: seq<Entry>, k: seq<byte>)
  {
    s == EntriesThen(es, k) && ValidEntries(es)
  }

  lemma EntriesMore(s: seq<byte>, e: Entry, rest: seq<byte>, es: seq<Entry>, k: seq<byte>)
    requires IsEntry(s, e, rest) && AreEntries(rest, es, k)
    ensures AreEntries(s, [e] + es, k)
  {
    assert ([e] + es)[1..] == es;
  }

  /** Reading from `s` added the entries `es` that its bytes encode. */
  predicate Added(s: seq<byte>, m: Meta, es: seq<Entry>, r: Parse<Meta>)
  {
    r.Ok? && r.value.entries == m.entries + es && AreEntries(s, es, r.rest)
  }

  lemma AddedNone(s: seq<byte>, m: Meta)
    ensures Added(s, m, [], Ok(m, s))
  {
    assert m.entries + [] == m.entries;
  }

  lemma AppendTwice(es: seq<Entry>, e: Entry, tail: seq<Entry>)
    ensures es + [e] + tail == es + ([e] + tail)
  {
  }

  lemma AddedMore(s: seq<byte>, m: Meta, e: Entry, step: Parse<Meta>, tail: seq<Entry>, r: Parse<Meta>)
    requires step.Ok? && IsEntry(s, e, step.rest) && step.value.entries == m.entries + [e]
    requires Added(step.rest, step.value, tail, r)
    ensures Added(s, m, [e] + tail, r)
  {
    EntriesMore(s, e, step.rest, tail, r.rest);
    AppendTwice(m.entries, e, tail);
  }

  /** The step added the one entry its bytes encode. */
  predicate Steps(s: seq<byte>, m: Meta, e: Entry, r: Parse<Meta>)
  {
    r.Ok? && IsEntry(s, e, r.rest) && r.value.entries == m.entries + [e]
  }

  ghost predicate AlwaysSteps(step: (seq<byte>, Meta) -> Parse<Meta>)
  {
    forall s, m | step(s, m).Ok? :: exists e :: Steps(s, m, e, step(s, m))
  }

  lemma MetaStepIsEncoded(guarded: bool)
    ensures AlwaysSteps(MetaStep(guarded))
  {
    forall s, m | MetaStep(guarded)(s, m).Ok? ensures exists e :: Steps(s, m, e, MetaStep(guarded)(s, m)) {
      EntryIsEncoded(s, guarded);
      assert Steps(s, m, ParseEntry(s, guarded).value, MetaStep(guarded)(s, m));
    }
  }

  lemma {:induction false} LoopIsEncoded(step: (seq<byte>, Meta) -> Parse<Meta>, s: seq<byte>, n: nat, m: Meta) returns (es: seq<Entry>)
    requires AlwaysSteps(step) && Loop(step, s, n, m).Ok?
    ensures |es| == n && Added(s, m, es, Loop(step, s, n, m))
    decreases n
  {
    if n == 0 {
      es := [];
      AddedNone(s, m);
    } else {
      var r := step(s, m);
      var e :| Steps(s, m, e, r);
      var tail := LoopIsEncoded(step, r.rest, n - 1, r.value);
      AddedMore(s, m, e, r, tail, Loop(step, r.rest, n - 1, r.value));
      es := [e] + tail;
    }
  }

  lemma MetaIsEncoded(s: seq<byte>, n: nat, m: Meta, r: Parse<Meta>) returns (es: seq<Entry>)
    requires r == ParseMeta(s, n, m, true) && r.Ok?
    ensures |es| == n && Added(s, m, es, r)
  {
    MetaStepIsEncoded(true);
    es := LoopIsEncoded(MetaStep(true), s, n, m);
  }

  predicate AreDims(s: seq<byte>, ds: seq<nat>, k: seq<byte>)
  {
    s == DimsThen(ds, k) && ValidDims(ds)
  }

  lemma {:induction false} DimsStep(d: nat, ds: seq<nat>, k: seq<byte>)
    requires d < Power256(8)
    ensures DimsThen([d] + ds, k) == LeThen(d, 8, DimsThen(ds, k))
    ensures ValidDims(ds) ==> ValidDims([d] + ds)
  {
    assert ([d] + ds)[1..] == ds;
  }

  lemma {:induction false} DimsMore(s: seq<byte>, d: nat, rest: seq<byte>, ds: seq<nat>, k: seq<byte>)
    requires s == LeThen(d, 8, rest) && d < Power256(8) && AreDims(rest, ds, k)
    ensures AreDims(s, [d] + ds, k)
  {
    DimsStep(d, ds, k);
  }

  lemma {:induction false} DimsAreEncoded(s: seq<byte>, n: nat)
    ensures var r := ParseDims(s, n); r.Ok? ==> AreDims(s, r.value, r.rest)
    decreases n
  {
    if n > 0 {
      UintIsEncoded(s, 8);
      var d := ReadUint(s, 8);
      if d.Ok? {
        DimsAreEncoded(d.rest, n - 1);
        var tail := ParseDims(d.rest, n - 1);
        if tail.Ok? { DimsMore(s, d.value, d.rest, tail.value, tail.rest); }
      }
    }
  }

  lemma PlaceIsEncoded(s: seq<byte>, name: seq<byte>, dims: seq<nat>)
    ensures var r := ParsePlace(s, name, dims);
      r.Ok? ==>
        && r.value.name == name && r.value.dims == dims
        && s == LeThen(r.value.ggmlType, 4, LeThen(r.value.offset, 8, r.rest))
        && r.value.ggmlType < Power256(4) && r.value.offset < Power256(8)
  {
    UintIsEncoded(s, 4);
    var t := ReadUint(s, 4);
    if t.Ok? { UintIsEncoded(t.rest, 8); }
  }

  predicate IsPending(s: seq<byte>, p: Pending, k: seq<byte>)
  {
    s == PendingThen(p, k) && ValidPending(p)
  }

  predicate PendingOutcome(s: seq<byte>, r: Parse<Pending>)
  {
    r.Ok? ==> IsPending(s, r.value, r.rest)
  }

  lemma PendingIsEncoded(s: seq<byte>)
    ensures PendingOutcome(s, ParsePending(s))
  {
    StrIsEncoded(s);
    var name := ReadStr(s);
    if name.Ok? {
      UintIsEncoded(name.rest, 4);
      var n := ReadUint(name.rest, 4);
      if n.Ok? {
        DimsAreEncoded(n.rest, n.value);
        var dims := ParseDims(n.rest, n.value);
        if dims.Ok? { PlaceIsEncoded(dims.rest, name.value, dims.value); }
      }
    }
  }

  predicate AreAllPending(s: seq<byte>, ps: seq<Pending>, k: seq<byte>)
  {
    s == AllPendingThen(ps, k) && ValidAllPending(ps)
  }

  predicate AllPendingOutcome(s: seq<byte>, r: Parse<seq<Pending>>)
  {
    r.Ok? ==> AreAllPending(s, r.value, r.rest)
  }

  lemma PendingMore(s: seq<byte>, p: Parse<Pending>, tail: Parse<seq<Pending>>)
    requires p.Ok? && PendingOutcome(s, p) && AllPendingOutcome(p.rest, tail)
    ensures AllPendingOutcome(s, if tail.Fail? then Fail(tail.message) else Ok([p.value] + tail.value, tail.rest))
  {
    if tail.Ok? { assert ([p.value] + tail.value)[1..] == tail.value; }
  }

  lemma PendingUnfold(s: seq<byte>, n: nat, p: Parse<Pending>)
    requires n > 0 && p == ParsePending(s)
    ensures ParseAllPending(s, n)
      == if p.Fail? then Fail(p.message)
         else var tail := ParseAllPending(p.rest, n - 1);
           if tail.Fail? then Fail(tail.message) else Ok([p.value] + tail.value, tail.rest)
  {
  }

  lemma {:induction false} AllPendingAreEncoded(s: seq<byte>, n: nat)
    ensures AllPendingOutcome(s, ParseAllPending(s, n))
    decreases n
  {
    if n > 0 {
      var p := ParsePending(s);
      PendingIsEncoded(s);
      PendingUnfold(s, n, p);
      if p.Ok? {
        AllPendingAreEncoded(p.rest, n - 1);
        PendingMore(s, p, ParseAllPending(p.rest, n - 1));
      }
    }
  }

  lemma CountsAreEncoded(s: seq<byte>, version: nat)
    ensures var r := ParseCounts(s, version);
      r.Ok? ==>
        && s == LeThen(r.value.tensorCount, 8, LeThen(r.value.metaCount, 8, r.rest))
        && r.value.version == version && r.value.tensorCount < Power256(8) && r.value.metaCount < Power256(8)
  {
    UintIsEncoded(s, 8);
    var tensors := ReadUint(s, 8);
    if tensors.Ok? { UintIsEncoded(tensors.rest, 8); }
  }

  predicate IsHead(s: seq<byte>, h: Head, k: seq<byte>)
  {
    && s == LeThen(MAGIC, 4, LeThen(h.version, 4, LeThen(h.tensorCount, 8, LeThen(h.metaCount, 8, k))))
    && h.version < Power256(4) && h.tensorCount < Power256(8) && h.metaCount < Power256(8)
  }

  lemma FileHeadIsEncoded(s: seq<byte>)
    ensures var r := ParseHead(s); r.Ok? ==> IsHead(s, r.value, r.rest)
  {
    UintIsEncoded(s, 4);
    var magic := ReadUint(s, 4);
    if magic.Ok? && magic.value == MAGIC {
      UintIsEncoded(magic.rest, 4);
      var version := ReadUint(magic.rest, 4);
      if version.Ok? { CountsAreEncoded(version.rest, version.value); }
    }
  }

  lemma PartsAreFile(s: seq<byte>, h: Head, body: seq<byte>, f: Abstract, t: seq<byte>, k: seq<byte>)
    requires IsHead(s, h, body) && AreEntries(body, f.entries, t) && AreAllPending(t, f.pending, k)
    requires h.version == f.version && h.tensorCount == |f.pending| && h.metaCount == |f.entries|
    ensures s == FileThen(f, k) && ValidFile(f)
  {
  }

  function AbstractOf(c: Contents): Abstract
  {
    Abstract(c.version, c.meta.entries, c.pending)
  }

  lemma {:induction false} ContentsAreEncoded(s: seq<byte>, c: Parse<Contents>)
    requires c == ParseContents(s, true) && c.Ok?
    ensures ValidFile(AbstractOf(c.value)) && s == FileThen(AbstractOf(c.value), c.rest)
  {
    FileHeadIsEncoded(s);
    var head := ParseHead(s);
    var m := ParseMeta(head.rest, head.value.metaCount, Meta([], DEFAULT_ALIGNMENT), true);
    var es := MetaIsEncoded(head.rest, head.value.metaCount, Meta([], DEFAULT_ALIGNMENT), m);
    assert [] + es == es;
    AllPendingAreEncoded(m.rest, head.value.tensorCount);
    PartsAreFile(s, head.value, head.rest, AbstractOf(c.value), m.rest, c.rest);
  }

  /**
   The reader accepts a byte string exactly when it is the encoding of some file that has a meaning, followed
   by anything; that file is then the one it reads, so no two files share an encoding.
   */
  lemma AcceptsExactlyEncodings(s: seq<byte>, f: Abstract, k: seq<byte>)
    ensures var c := ParseContents(s, true);
      c.Ok? && f == AbstractOf(c.value) && k == c.rest <==> ValidFile(f) && Meaning(f).Some? && s == FileThen(f, k)
  {
    var c := ParseContents(s, true);
    if c.Ok? {
      ContentsAreEncoded(s, c);
      DecodesEncoding(AbstractOf(c.value), c.rest);
    }
    if ValidFile(f) && Meaning(f).Some? && s == FileThen(f, k) {
      DecodesEncoding(f, k);
      MeaningKeeps(f);
    }
  }

  lemma {:induction false} CollectKeeps(es: seq<Entry>, m: Meta)
    requires Collect(es, m).Some?
    ensures Collect(es, m).value.entries == m.entries + es
    decreases |es|
  {
    if es == [] {
      assert m.entries + [] == m.entries;
    } else {
      var m' := CollectOne(es[0], m).value;
      CollectKeeps(es[1..], m');
      assert m.entries + [es[0]] + es[1..] == m.entries + es;
    }
  }

  lemma MeaningKeeps(f: Abstract)
    requires Meaning(f).Some?
    ensures AbstractOf(Meaning(f).value) == f
  {
    CollectKeeps(f.entries, Meta([], DEFAULT_ALIGNMENT));
    assert [] + f.entries == f.entries;
  }
}

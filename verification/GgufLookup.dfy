/** When looking up the alignment's key finds the alignment in use: the reader indexes the first entry and obeys the last. */
module GgufLookup {
  import opened MachineWords
  import opened Results
  import opened GgufBytes
  import opened Gguf
  import opened GgufEncoding
  import opened GgufLayout
  import opened GgufOpen
  import opened Shifts

  /** The value of the last entry under a key. */
  function LastValue(es: seq<Entry>, key: seq<byte>): Option<Value>
  {
    if es == [] then None
    else if es[|es| - 1].key == key then Some(es[|es| - 1].value)
    else LastValue(es[..|es| - 1], key)
  }

  /** The positions of the entries under a key, counted. */
  function Occurrences(es: seq<Entry>, key: seq<byte>): nat
  {
    if es == [] then 0 else Occurrences(es[..|es| - 1], key) + if es[|es| - 1].key == key then 1 else 0
  }

  /** Every entry under the alignment's key holds a 32-bit unsigned number. */
  predicate AlignmentsTyped(es: seq<Entry>)
  {
    forall e | e in es && e.key == ALIGNMENT_KEY :: e.value.Scalar? && e.value.t == U32
  }

  lemma {:induction false} FirstValueIn(es: seq<Entry>, key: seq<byte>)
    ensures match FirstValue(es, key)
      case Some(v) => Entry(key, v) in es
      case None => forall e | e in es :: e.key != key
  {
    if es != [] && es[0].key != key {
      FirstValueIn(es[1..], key);
      assert es == [es[0]] + es[1..];
    }
  }

  lemma {:induction false} LastValueIn(es: seq<Entry>, key: seq<byte>)
    ensures match LastValue(es, key)
      case Some(v) => Entry(key, v) in es
      case None => forall e | e in es :: e.key != key
    decreases |es|
  {
    if es != [] {
      var n := |es| - 1;
      assert es == es[..n] + [es[n]];
      if es[n].key != key { LastValueIn(es[..n], key); }
    }
  }

  lemma {:induction false} FirstOfMore(es: seq<Entry>, e: Entry, key: seq<byte>)
    ensures FirstValue(es + [e], key)
      == if FirstValue(es, key).Some? then FirstValue(es, key) else if e.key == key then Some(e.value) else None
    decreases |es|
  {
    if es == [] {
      assert es + [e] == [e];
    } else if es[0].key != key {
      assert (es + [e])[1..] == es[1..] + [e];
      FirstOfMore(es[1..], e, key);
    }
  }

  /** Only one entry under the key: it is the first and the last. */
  lemma {:induction false} OnlyOne(es: seq<Entry>, key: seq<byte>)
    requires Occurrences(es, key) <= 1
    ensures FirstValue(es, key) == LastValue(es, key)
    ensures FirstValue(es, key).None? <==> Occurrences(es, key) == 0
    decreases |es|
  {
    if es != [] {
      var n := |es| - 1;
      assert es == es[..n] + [es[n]];
      OnlyOne(es[..n], key);
      FirstOfMore(es[..n], es[n], key);
    }
  }

  lemma {:induction false} LastAlignmentIsLast(es: seq<Entry>)
    requires AlignmentsTyped(es)
    ensures match LastValue(es, ALIGNMENT_KEY)
      case Some(v) => v == Scalar(U32, LastAlignment(es))
      case None => LastAlignment(es) == 32
    decreases |es|
  {
    if es != [] {
      var n := |es| - 1;
      assert es[n] in es;
      assert es == es[..n] + [es[n]];
      if es[n].key != ALIGNMENT_KEY { LastAlignmentIsLast(es[..n]); }
    }
  }

  predicate MetaTyped(m: Meta) { AlignmentsTyped(m.entries) }

  lemma EntryTyped(s: seq<byte>, m: Meta, guarded: bool)
    requires MetaTyped(m)
    ensures var r := ParseMetaEntry(s, m, guarded); r.Ok? ==> MetaTyped(r.value)
  {
  }

  lemma MetaAllTyped(s: seq<byte>, n: nat, m: Meta, guarded: bool)
    requires MetaTyped(m)
    ensures var r := ParseMeta(s, n, m, guarded); r.Ok? ==> MetaTyped(r.value)
  {
    forall s, a | MetaTyped(a) && MetaStep(guarded)(s, a).Ok? ensures MetaTyped(MetaStep(guarded)(s, a).value) {
      EntryTyped(s, a, guarded);
    }
    LoopKeeps(MetaStep(guarded), MetaTyped, s, n, m);
  }

  /** What a lookup of the alignment's key in `m` finds, and when that is the alignment `m` uses. */
  predicate LookupAnswers(m: Meta)
  {
    var first, last := FirstValue(m.entries, ALIGNMENT_KEY), LastValue(m.entries, ALIGNMENT_KEY);
    match first
    case None => m.alignment == 32
    case Some(v) =>
      && v.Scalar? && v.t == U32 && last.Some? && last.value.Scalar?
      && (v.bits == m.alignment <==> v.bits == last.value.bits)
  }

  lemma LookupOfMeta(m: Meta)
    requires Aligned(m) && MetaTyped(m)
    ensures LookupAnswers(m)
    ensures Occurrences(m.entries, ALIGNMENT_KEY) == 1 ==> FirstValue(m.entries, ALIGNMENT_KEY) == Some(Scalar(U32, m.alignment))
  {
    var es := m.entries;
    LastAlignmentIsLast(es);
    FirstValueIn(es, ALIGNMENT_KEY);
    LastValueIn(es, ALIGNMENT_KEY);
    if Occurrences(es, ALIGNMENT_KEY) == 1 { OnlyOne(es, ALIGNMENT_KEY); }
  }

  lemma ContentsTyped(s: seq<byte>, guarded: bool)
    ensures var c := ParseContents(s, guarded); c.Ok? ==> MetaTyped(c.value.meta)
  {
    var head := ParseHead(s);
    if |s| >= 24 && head.Ok? {
      MetaAllTyped(head.rest, head.value.metaCount, Meta([], DEFAULT_ALIGNMENT), guarded);
    }
  }

  /**
   In any file that opens, looking up the alignment's key finds the alignment in use exactly when the first and the
   last entry under that key hold the same number, so always when there is one such entry; without any, the
   alignment is the default.
   */
  lemma LookupFindsAlignment(s: seq<byte>, f: File)
    requires |s| <= SIZE_MAX && Open(s) == Some(f)
    ensures LookupAnswers(f.meta)
    ensures Occurrences(f.meta.entries, ALIGNMENT_KEY) == 1
      ==> FirstValue(f.meta.entries, ALIGNMENT_KEY) == Some(Scalar(U32, f.meta.alignment))
  {
    ContentsSound(s, true);
    ContentsTyped(s, true);
    var k := OpenExact(s);
    LookupOfMeta(f.meta);
  }

  // ---- A file on which the two differ ----

  function Twice(): Abstract
  {
    Abstract(3, [Entry(ALIGNMENT_KEY, Scalar(U32, 32)), Entry(ALIGNMENT_KEY, Scalar(U32, 64))], [])
  }

  lemma TwiceMeans()
    ensures ValidFile(Twice())
    ensures Meaning(Twice()) == Some(Contents(3, Meta(Twice().entries, 64), []))
  {
    PowersOf256();
    PowerHasOneBit(5);
    PowerHasOneBit(6);
    assert Pow2(5) == 32 && Pow2(6) == 64;
    var a, b := Twice().entries[0], Twice().entries[1];
    assert Realign(a, DEFAULT_ALIGNMENT) == Some(32) && Realign(b, 32) == Some(64);
    assert [] + [a] == [a] && [a] + [b] == Twice().entries;
    assert Collect([b], Meta([a], 32)) == Some(Meta(Twice().entries, 64));
  }

  /** A file without tensors opens when enough bytes follow its header. */
  lemma OpensWithoutTensors(t: Abstract, m: Meta, data: seq<byte>, s: seq<byte>) returns (f: File)
    requires ValidFile(t) && Meaning(t) == Some(Contents(3, m, []))
    requires s == FileThen(t, data) && m.alignment <= |data| && |s| <= SIZE_MAX
    ensures Open(s) == Some(f) && f.meta == m
  {
    var k := OpenEncoded(t, data, s);
    var pos := |FileThen(t, [])|;
    LeastMultipleIsLeast(pos, k, 0);
    f := File(3, m, [], LeastMultiple(pos, k));
  }

  /** With entries 32 and then 64, a lookup finds 32 and the file is laid out by 64. */
  lemma LookupFindsFirst(t: Abstract, data: seq<byte>, s: seq<byte>) returns (f: File)
    requires t == Twice() && s == FileThen(t, data) && 64 <= |data| && |s| <= SIZE_MAX
    ensures Open(s) == Some(f)
    ensures f.meta.alignment == 64 && FirstValue(f.meta.entries, ALIGNMENT_KEY) == Some(Scalar(U32, 32))
  {
    TwiceMeans();
    f := OpensWithoutTensors(t, Meta(t.entries, 64), data, s);
  }
}

/** The count guards reject only what would run out of bytes anyway, and what is built is paid for in bytes. */
module GgufGuards {
  import opened GgufBytes
  import opened Gguf

  lemma {:induction false} ValueGuardsExact(s: seq<byte>, t: ValueType, depth: nat)
    requires depth <= MAX_DEPTH + 1
    ensures SameOutcome(ParseValue(s, t, depth, true), ParseValue(s, t, depth, false))
    decreases MAX_DEPTH + 1 - depth, 0, 0
  {
    if depth <= MAX_DEPTH && t == Array {
      var head := ParseArrayHead(s, false);
      if head.Ok? {
        ItemsGuardsExact(head.rest, head.value.0, head.value.1, depth + 1);
      }
    }
  }

  lemma {:induction false} ItemsGuardsExact(s: seq<byte>, t: ValueType, n: nat, depth: nat)
    requires depth <= MAX_DEPTH + 1
    ensures SameOutcome(ParseItems(s, t, n, depth, true), ParseItems(s, t, n, depth, false))
    decreases MAX_DEPTH + 1 - depth, 1, n
  {
    if n > 0 {
      ValueGuardsExact(s, t, depth);
      var v := ParseValue(s, t, depth, false);
      if v.Ok? { ItemsGuardsExact(v.rest, t, n - 1, depth); }
    }
  }

  lemma EntryGuardsExact(s: seq<byte>)
    ensures SameOutcome(ParseEntry(s, true), ParseEntry(s, false))
  {
    var key := ReadStr(s);
    if key.Ok? {
      var raw := ReadUint(key.rest, 4);
      if raw.Ok? && raw.value <= 12 { ValueGuardsExact(raw.rest, TypeOf(raw.value), 0); }
    }
  }

  lemma MetaEntryGuardsExact(s: seq<byte>, m: Meta)
    ensures SameOutcome(ParseMetaEntry(s, m, true), ParseMetaEntry(s, m, false))
  {
    EntryGuardsExact(s);
  }

  lemma MetaGuardsExact(s: seq<byte>, n: nat, m: Meta)
    ensures SameOutcome(ParseMeta(s, n, m, true), ParseMeta(s, n, m, false))
  {
    forall s, a ensures SameOutcome(MetaStep(true)(s, a), MetaStep(false)(s, a)) {
      MetaEntryGuardsExact(s, a);
    }
    LoopSame(MetaStep(true), MetaStep(false), s, n, m);
  }

  /**
   The reader with its pre-checks on array lengths and on the metadata and tensor counts accepts exactly the
   byte strings the reader without them accepts, with the same contents.
   */
  lemma GuardsExact(s: seq<byte>)
    ensures SameOutcome(ParseContents(s, true), ParseContents(s, false))
  {
    var head := ParseHead(s);
    if head.Ok? {
      MetaGuardsExact(head.rest, head.value.metaCount, Meta([], DEFAULT_ALIGNMENT));
    }
  }

  // ---- Cost ----

  /** Value nodes in a tree. */
  function Nodes(v: Value): (n: nat)
    ensures n >= 1
  {
    match v
    case Scalar(_, _) => 1
    case Str(_) => 1
    case Arr(_, items) => 1 + ItemsNodes(items)
  }

  function ItemsNodes(vs: seq<Value>): nat
  {
    if vs == [] then 0 else Nodes(vs[0]) + ItemsNodes(vs[1..])
  }

  /** A value tree has no more nodes than its text has bytes, guarded or not. */
  lemma {:induction false} ValueNodesPaid(s: seq<byte>, t: ValueType, depth: nat, guarded: bool)
    requires depth <= MAX_DEPTH + 1
    ensures var r := ParseValue(s, t, depth, guarded); r.Ok? ==> Nodes(r.value) + |r.rest| <= |s|
    decreases MAX_DEPTH + 1 - depth, 0, 0
  {
    if depth <= MAX_DEPTH && t == Array {
      var head := ParseArrayHead(s, guarded);
      if head.Ok? {
        ItemsNodesPaid(head.rest, head.value.0, head.value.1, depth + 1, guarded);
      }
    }
  }

  lemma {:induction false} ItemsNodesPaid(s: seq<byte>, t: ValueType, n: nat, depth: nat, guarded: bool)
    requires depth <= MAX_DEPTH + 1
    ensures var r := ParseItems(s, t, n, depth, guarded); r.Ok? ==> ItemsNodes(r.value) + |r.rest| <= |s|
    decreases MAX_DEPTH + 1 - depth, 1, n
  {
    if n > 0 {
      ValueNodesPaid(s, t, depth, guarded);
      var v := ParseValue(s, t, depth, guarded);
      if v.Ok? {
        ItemsNodesPaid(v.rest, t, n - 1, depth, guarded);
        var tail := ParseItems(v.rest, t, n - 1, depth, guarded);
        if tail.Ok? { assert ([v.value] + tail.value)[1..] == tail.value; }
      }
    }
  }

  /** What metadata entries build: the nodes of each value, and twelve bytes more an entry costs at least. */
  function Cost(es: seq<Entry>): nat
  {
    if es == [] then 0 else Cost(es[..|es| - 1]) + Nodes(es[|es| - 1].value) + 12
  }

  lemma {:induction false} CostGrows(es: seq<Entry>, e: Entry)
    ensures Cost(es + [e]) == Cost(es) + Nodes(e.value) + 12
  {
    assert (es + [e])[..|es|] == es;
  }

  lemma EntryPaid(s: seq<byte>, guarded: bool)
    ensures var e := ParseEntry(s, guarded); e.Ok? ==> Nodes(e.value.value) + 12 + |e.rest| <= |s|
  {
    var key := ReadStr(s);
    if key.Ok? {
      var raw := ReadUint(key.rest, 4);
      if raw.Ok? && raw.value <= 12 { ValueNodesPaid(raw.rest, TypeOf(raw.value), 0, guarded); }
    }
  }

  lemma MetaEntryPaid(s: seq<byte>, m: Meta, guarded: bool)
    ensures var r := ParseMetaEntry(s, m, guarded); r.Ok? ==> Cost(r.value.entries) + |r.rest| <= Cost(m.entries) + |s|
  {
    EntryPaid(s, guarded);
    var e := ParseEntry(s, guarded);
    if e.Ok? { CostGrows(m.entries, e.value); }
  }

  lemma MetaPaid(s: seq<byte>, n: nat, m: Meta, guarded: bool)
    ensures var r := ParseMeta(s, n, m, guarded); r.Ok? ==> Cost(r.value.entries) + |r.rest| <= Cost(m.entries) + |s|
  {
    var cost := (a: Meta) => Cost(a.entries);
    forall s, a ensures var r := MetaStep(guarded)(s, a); r.Ok? ==> cost(r.value) + |r.rest| <= cost(a) + |s| {
      MetaEntryPaid(s, a, guarded);
    }
    LoopPays(MetaStep(guarded), cost, s, n, m);
  }

  /** What reading a file builds, metadata nodes and tensor records together, is less than its length. */
  lemma ContentsPaid(s: seq<byte>, guarded: bool)
    ensures var r := ParseContents(s, guarded);
      r.Ok? ==> Cost(r.value.meta.entries) + 32 * |r.value.pending| + 24 + |r.rest| <= |s|
  {
    var head := ParseHead(s);
    if |s| >= 24 && head.Ok? {
      MetaPaid(head.rest, head.value.metaCount, Meta([], DEFAULT_ALIGNMENT), guarded);
    }
  }
}

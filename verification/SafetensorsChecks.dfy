/** The checks of both sides of safetensors in plain terms: which shapes have a count, which entries and which lists of them pass. */
module SafetensorsChecks {
  import opened Arithmetic
  import opened MachineWords
  import opened Results
  import opened JsonText
  import opened SafetensorsParser
  import opened SafetensorsOpen
  import opened SafetensorsWriter

  // ---- Types ----

  /** The types a file names, with their names and the bytes of an element. */
  const TYPES: seq<(string, Dtype, nat)> :=
    [("F32", F32, 4), ("F16", F16, 2), ("BF16", BF16, 2), ("I32", I32, 4), ("I64", I64, 8), ("U8", U8, 1), ("BOOL", BOOL, 1)]

  /** Each is read and written by that name and has that size, and no other string names one. */
  lemma TypesExact(s: string)
    ensures forall i | 0 <= i < |TYPES| ::
      && TYPES[i].1 != Unknown && ParseDtype(TYPES[i].0) == TYPES[i].1 && DtypeName(TYPES[i].1) == TYPES[i].0
      && DtypeSize(TYPES[i].1) == TYPES[i].2
    ensures ParseDtype(s) != Unknown <==> exists i | 0 <= i < |TYPES| :: TYPES[i].0 == s
  {
    if ParseDtype(s) != Unknown {
      var d := ParseDtype(s);
      var i := match d case F32 => 0 case F16 => 1 case BF16 => 2 case I32 => 3 case I64 => 4 case U8 => 5 case _ => 6;
      assert TYPES[i].0 == s;
    }
  }

  lemma NameParses(s: string, d: Dtype)
    requires d != Unknown
    ensures ParseDtype(s) == d <==> s == DtypeName(d)
  {
  }

  // ---- The writer's spellings ----

  /** The bytes with an escape of one letter, and the letters in the same order; the solidus is not one of them. */
  const NAMED: string := "\"\\\n\t\r\U{08}\U{0C}"
  const LETTERS: string := "\"\\ntrbf"

  /** Every byte is written as its letter, as four lower-case hexadecimal digits if it is another control, or as itself. */
  lemma EscapeExact(c: char)
    ensures forall i | 0 <= i < 7 :: EscapeChar(NAMED[i]) == ['\\', LETTERS[i]]
    ensures c !in NAMED && c < ' ' ==> EscapeChar(c) == "\\u00" + [LOWER[c as int / 0x10], LOWER[c as int % 0x10]]
    ensures c !in NAMED && c >= ' ' ==> EscapeChar(c) == [c]
  {
    if c !in NAMED {
      assert forall i | 0 <= i < 7 :: NAMED[i] != c;
      if c < ' ' {
        LowerDigit(c as int / 0x10);
        LowerDigit(c as int % 0x10);
      }
    }
  }

  lemma LowerDigit(d: nat)
    requires d < 16
    ensures HexChar(d) == LOWER[d]
  {
  }

  // ---- Element counts ----

  predicate AllNat(shape: seq<int>) { forall i | 0 <= i < |shape| :: shape[i] >= 0 }

  /** The product stays within a signed 64-bit number from dimension to dimension, `n` being what it starts from. */
  predicate PrefixesFit(shape: seq<int>, n: nat)
  {
    forall i | 0 <= i <= |shape| :: n * Product(shape[..i]) <= INT64_MAX
  }

  lemma PrefixMore(shape: seq<int>, i: nat)
    requires i < |shape|
    ensures Product(shape[..i + 1]) == shape[0] * Product(shape[1..][..i])
  {
    assert shape[..i + 1][1..] == shape[1..][..i];
  }

  lemma PrefixesSplit(shape: seq<int>, n: nat)
    requires shape != [] && n <= INT64_MAX && shape[0] >= 0
    ensures PrefixesFit(shape, n) <==> n * shape[0] <= INT64_MAX && PrefixesFit(shape[1..], n * shape[0])
  {
    var d, tail := shape[0], shape[1..];
    assert Product(shape[..0]) == 1 && n * 1 == n;
    forall i: nat | i < |shape| ensures n * Product(shape[..i + 1]) == n * d * Product(tail[..i]) {
      PrefixMore(shape, i);
      Associate(n, d, Product(tail[..i]));
    }
    assert Product(tail[..0]) == 1;
    if PrefixesFit(shape, n) {
      assert n * Product(shape[..0 + 1]) <= INT64_MAX;
      forall i | 0 <= i <= |tail| ensures n * d * Product(tail[..i]) <= INT64_MAX {
        assert n * Product(shape[..i + 1]) <= INT64_MAX;
      }
    }
    if n * d <= INT64_MAX && PrefixesFit(tail, n * d) {
      forall i | 0 <= i <= |shape| ensures n * Product(shape[..i]) <= INT64_MAX {
        if i > 0 { assert n * d * Product(tail[..i - 1]) <= INT64_MAX; }
      }
    }
  }

  /** A shape has a count exactly when no dimension is negative and no product on the way overflows. */
  lemma {:induction false} CountedExactly(shape: seq<int>, n: nat)
    requires n <= INT64_MAX
    ensures Numel(shape, n).Good? <==> AllNat(shape) && PrefixesFit(shape, n)
    decreases |shape|
  {
    if shape == [] {
      assert n * Product([]) == n;
    } else if shape[0] >= 0 {
      var d := shape[0];
      assert AllNat(shape) <==> AllNat(shape[1..]) by { assert shape == [d] + shape[1..]; }
      if d > 0 { QuotientBounds(n, d, INT64_MAX); } else { assert n * d == 0; }
      PrefixesSplit(shape, n);
      if n * d <= INT64_MAX { CountedExactly(shape[1..], n * d); }
    }
  }

  /** A shape of non-negative dimensions whose count fits at every step. */
  predicate Countable(shape: seq<int>) { AllNat(shape) && PrefixesFit(shape, 1) }

  lemma {:induction false} Counted(shape: seq<int>)
    ensures Numel(shape, 1).Good? <==> Countable(shape)
    ensures Countable(shape) ==> Numel(shape, 1).value == Product(shape)
  {
    CountedExactly(shape, 1);
    if Numel(shape, 1).Good? { NumelIsProduct(shape, 1); }
  }

  // ---- Reading ----

  /** The entry lies in the payload and has exactly the bytes its type and shape ask for. */
  predicate Fits(e: Entry, payload: nat)
  {
    && e.offStart <= e.offEnd <= payload && e.dtype != Unknown && Countable(e.shape)
    && Product(e.shape) * DtypeSize(e.dtype) == e.offEnd - e.offStart
  }

  lemma TooBig(n: nat, size: nat, bytes: nat)
    requires size > 0 && bytes <= SIZE_MAX && n * size == bytes
    ensures n <= SIZE_MAX / size
  {
    QuotientBounds(n, size, SIZE_MAX);
  }

  /** An entry becomes a view exactly when it fits, and then of its own part of the payload. */
  lemma ViewMadeExactly(name: string, e: Entry, base: nat, payload: nat)
    requires payload <= SIZE_MAX
    ensures MakeView(name, e, base, payload).Good? <==> Fits(e, payload)
    ensures Fits(e, payload)
      ==> MakeView(name, e, base, payload) == Good(TensorView(name, e.dtype, e.shape, base + e.offStart, e.offEnd - e.offStart))
  {
    Counted(e.shape);
    DtypeIsSized(e.dtype);
    if Fits(e, payload) { TooBig(Product(e.shape), DtypeSize(e.dtype), e.offEnd - e.offStart); }
  }

  // ---- Writing ----

  /** What the writer asks of an entry by itself. */
  predicate Writable(e: WriteEntry)
  {
    && e.name != "" && (e.data.None? ==> e.bytes == 0) && e.dtype != Unknown && Countable(e.shape)
    && e.bytes == Product(e.shape) * DtypeSize(e.dtype)
  }

  lemma EntryCheckedExactly(e: WriteEntry, seen: set<string>, cursor: nat)
    requires Typed(e) && cursor <= SIZE_MAX
    ensures CheckEntry(e, seen, cursor).Good? ==> CheckEntry(e, seen, cursor).value == cursor + e.bytes
    ensures CheckEntry(e, seen, cursor).Good? <==> Writable(e) && e.name !in seen && cursor + e.bytes <= SIZE_MAX
  {
    Counted(e.shape);
    DtypeIsSized(e.dtype);
    if Writable(e) { TooBig(Product(e.shape), DtypeSize(e.dtype), e.bytes); }
  }

  function TotalBytes(es: seq<WriteEntry>): nat
  {
    if es == [] then 0 else es[0].bytes + TotalBytes(es[1..])
  }

  predicate AllWritable(es: seq<WriteEntry>) { forall i | 0 <= i < |es| :: Writable(es[i]) }

  /** No name twice, and none of `seen`. */
  predicate NewNames(es: seq<WriteEntry>, seen: set<string>)
  {
    && (forall i | 0 <= i < |es| :: es[i].name !in seen)
    && forall i, j | 0 <= i < j < |es| :: es[i].name != es[j].name
  }

  lemma NamesSplit(es: seq<WriteEntry>, seen: set<string>)
    requires es != []
    ensures NewNames(es, seen) <==> es[0].name !in seen && NewNames(es[1..], seen + {es[0].name})
    ensures AllWritable(es) <==> Writable(es[0]) && AllWritable(es[1..])
  {
    var tail := es[1..];
    assert forall i | 1 <= i < |es| :: es[i] == tail[i - 1];
    if es[0].name !in seen && NewNames(tail, seen + {es[0].name}) {
      forall i, j | 0 <= i < j < |es| ensures es[i].name != es[j].name {
        assert tail[j - 1].name !in seen + {es[0].name};
      }
    }
    if NewNames(es, seen) {
      forall i | 0 <= i < |tail| ensures tail[i].name !in seen + {es[0].name} {
        assert es[i + 1] == tail[i];
      }
      forall i, j | 0 <= i < j < |tail| ensures tail[i].name != tail[j].name {
        assert es[i + 1] == tail[i] && es[j + 1] == tail[j];
      }
    }
    if AllWritable(es) {
      forall i | 0 <= i < |tail| ensures Writable(tail[i]) { assert es[i + 1] == tail[i]; }
    }
  }

  predicate Acceptable(es: seq<WriteEntry>, seen: set<string>, cursor: nat, total: nat)
  {
    AllWritable(es) && NewNames(es, seen) && total == cursor + TotalBytes(es) <= SIZE_MAX
  }

  lemma {:induction false} CheckedExactly(es: seq<WriteEntry>, seen: set<string>, cursor: nat, total: nat)
    requires AllTyped(es) && cursor <= SIZE_MAX
    ensures CheckAll(es, seen, cursor) == Good(total) <==> Acceptable(es, seen, cursor, total)
    decreases |es|
  {
    if es != [] {
      var next := cursor + es[0].bytes;
      EntryCheckedExactly(es[0], seen, cursor);
      NamesSplit(es, seen);
      if next <= SIZE_MAX { CheckedExactly(es[1..], seen + {es[0].name}, next, total); }
    }
  }

  /**
   The writer takes a list of entries exactly when each has a name, data for its bytes, a type, a shape with a count and
   the bytes these ask for, no two share a name, and the bytes together fit in a `size_t`; the payload is then that long.
   */
  lemma {:induction false} WrittenExactly(es: seq<WriteEntry>)
    requires AllTyped(es)
    ensures FileBytes(es).Good? <==> AllWritable(es) && NewNames(es, {}) && TotalBytes(es) <= SIZE_MAX
  {
    CheckedExactly(es, {}, 0, TotalBytes(es));
    if CheckAll(es, {}, 0).Good? { CheckedExactly(es, {}, 0, CheckAll(es, {}, 0).value); }
  }
}

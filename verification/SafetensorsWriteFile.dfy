/** `write_file` as the loops it is, proved against SafetensorsWriter. */
module SafetensorsWriteFile {
  import opened MachineWords
  import opened Results
  import opened JsonText
  import opened SafetensorsParser
  import opened SafetensorsDocument
  import opened SafetensorsWriter
  import R = SafetensorsReader

  /** Where entry `i` starts in the payload. */
  function Offset(es: seq<WriteEntry>, i: nat): nat
    requires i <= |es|
  {
    if i == 0 then 0 else Offset(es, i - 1) + es[i - 1].bytes
  }

  predicate AreOffsets(es: seq<WriteEntry>, start: seq<nat>, end: seq<nat>, n: nat)
  {
    && |start| == |end| == n <= |es|
    && forall i | 0 <= i < n :: start[i] == Offset(es, i) && end[i] == Offset(es, i + 1)
  }

  /** One round of the validation loop. */
  method ValidateEntry(e: WriteEntry, seen: set<string>, cursor: nat) returns (r: Result<nat>)
    requires cursor <= SIZE_MAX
    ensures match r case Success(n) => CheckEntry(e, seen, cursor) == Good(n) && n <= SIZE_MAX case Failure(m) => CheckEntry(e, seen, cursor) == Bad(m)
  {
    if e.name == "" { return Failure("empty tensor name"); }
    if e.name in seen { return Failure("duplicate tensor name"); }
    if e.data.None? && e.bytes > 0 { return Failure("null data"); }
    var size := DtypeSize(e.dtype);
    if size <= 0 { return Failure("bad dtype"); }
    var n := R.ElementCount(e.shape);
    if n.Failure? { return Failure(n.message); }
    if n.value > SIZE_MAX / size { return Failure("byte count overflows size_t"); }
    if n.value * size != e.bytes { return Failure("byte count mismatch"); }
    if e.bytes > SIZE_MAX - cursor { return Failure("offset overflows uint64"); }
    return Success(cursor + e.bytes);
  }

  method Validate(es: seq<WriteEntry>) returns (r: Result<()>, start: seq<nat>, end: seq<nat>)
    ensures match r case Success(_) => CheckAll(es, {}, 0).Good? case Failure(m) => CheckAll(es, {}, 0) == Bad(m)
    ensures r.Success? ==> AreOffsets(es, start, end, |es|)
  {
    start, end := [], [];
    var cursor: nat := 0;
    var seen: set<string> := {};
    for i := 0 to |es|
      invariant cursor <= SIZE_MAX && cursor == Offset(es, i)
      invariant AreOffsets(es, start, end, i)
      invariant CheckAll(es[i..], seen, cursor) == CheckAll(es, {}, 0)
    {
      assert es[i..][1..] == es[i + 1..];
      var c := ValidateEntry(es[i], seen, cursor);
      if c.Failure? { return Failure(c.message), start, end; }
      seen := seen + {es[i].name};
      start, end := start + [cursor], end + [c.value];
      cursor := c.value;
    }
    return Success(()), start, end;
  }

  method JsonEscapeAppend(out: string, s: string) returns (r: string)
    ensures r == out + Escaped(s)
  {
    r := out;
    for i := 0 to |s|
      invariant r + Escaped(s[i..]) == out + Escaped(s)
    {
      assert s[i..][1..] == s[i + 1..];
      Merge(r, EscapeChar(s[i]), r + EscapeChar(s[i]), Escaped(s[i + 1..]));
      r := r + EscapeChar(s[i]);
    }
    assert r + "" == r;
  }

  method ShapeAppend(out: string, shape: seq<int>) returns (r: string)
    ensures r == out + ShapeText(shape, true)
  {
    r := out;
    for i := 0 to |shape|
      invariant r + ShapeText(shape[i..], i == 0) == out + ShapeText(shape, true)
    {
      ghost var was := r;
      assert shape[i..][1..] == shape[i + 1..];
      if i != 0 { r := r + ","; }
      r := r + ToString(shape[i]);
      ShapeStep(was, shape[i..], i == 0, r);
    }
    assert r + "" == r;
  }

  lemma {:induction false} ShapeStep(out: string, ns: seq<int>, first: bool, next: string)
    requires ns != [] && next == (if first then out else out + ",") + ToString(ns[0])
    ensures out + ShapeText(ns, first) == next + ShapeText(ns[1..], false)
  {
    var tail := ShapeText(ns[1..], false);
    if first {
      Lead(ToString(ns[0]));
      Merge(out, ToString(ns[0]), next, tail);
    } else {
      Chain3("", ",", ToString(ns[0]), tail);
      Merge3(out, ",", ToString(ns[0]), next, tail);
      Merge(",", ToString(ns[0]), "," + ToString(ns[0]), tail);
    }
  }

  /** The appends of one entry's text. */
  method EntryAppendTo(out: string, e: WriteEntry, start: nat, end: nat) returns (hdr: string)
    requires e.dtype != Unknown && end == start + e.bytes
    ensures hdr == out + WriteThen(e, start, "")
  {
    hdr := out + "\"";
    hdr := JsonEscapeAppend(hdr, e.name);
    hdr := hdr + "\":{\"dtype\":\"";
    hdr := hdr + DtypeName(e.dtype);
    hdr := hdr + "\",\"shape\":[";
    hdr := ShapeAppend(hdr, e.shape);
    hdr := hdr + "],\"data_offsets\":[";
    hdr := hdr + Decimal(start);
    hdr := hdr + ",";
    hdr := hdr + Decimal(end);
    hdr := hdr + "]}";
    EntryChunks(out, Escaped(e.name), DtypeName(e.dtype), ShapeText(e.shape, true), Decimal(start), Decimal(end));
  }

  lemma EntryChunks(out: string, n: string, d: string, s: string, a: string, b: string)
    ensures out + "\"" + n + "\":{\"dtype\":\"" + d + "\",\"shape\":[" + s + "],\"data_offsets\":[" + a + "," + b + "]}"
         == out + EntryThen(n, d, s, a, b, "")
  {
    var t := "],\"data_offsets\":[" + (a + ("," + (b + ("]}" + ""))));
    var front := out + "\"" + n + "\":{\"dtype\":\"" + d;
    assert front + "\",\"shape\":[" + s + "],\"data_offsets\":[" + a + "," + b + "]}" == front + "\",\"shape\":[" + s + t;
    assert out + ("\"" + (n + ("\":{\"dtype\":\"" + (d + ("\",\"shape\":[" + (s + t)))))) == front + "\",\"shape\":[" + s + t;
  }

  /** The header so far and the text of the entries still to come make `whole`. */
  predicate Remaining(hdr: string, es: seq<WriteEntry>, off: nat, first: bool, whole: string)
  {
    AllKnown(es) && hdr + EntriesThen(es, off, first, "}") == whole
  }

  /** The first entry's text, then the rest. */
  lemma EntriesUnfold(es: seq<WriteEntry>, off: nat, first: bool, w: string, t: string)
    requires es != [] && AllKnown(es) && w == WriteThen(es[0], off, "")
    requires t == EntriesThen(es[1..], off + es[0].bytes, false, "}")
    ensures EntriesThen(es, off, first, "}") == (if first then w + t else "," + (w + t))
  {
    WriteAppend(es[0], off, "", t);
    Lead(t);
  }

  lemma Moved(was: string, first: bool, w: string, t: string, now: string)
    requires now == (if first then was else was + ",") + w
    ensures was + (if first then w + t else "," + (w + t)) == now + t
  {
    if first { Merge(was, w, now, t); } else { Merge3(was, ",", w, now, t); }
  }

  /** Appending an entry, after a comma unless it is the first. */
  lemma EntriesStep(was: string, es: seq<WriteEntry>, off: nat, first: bool, whole: string, now: string, w: string)
    requires es != [] && Remaining(was, es, off, first, whole) && w == WriteThen(es[0], off, "")
    requires now == (if first then was else was + ",") + w
    ensures Remaining(now, es[1..], off + es[0].bytes, false, whole)
  {
    var t := EntriesThen(es[1..], off + es[0].bytes, false, "}");
    EntriesUnfold(es, off, first, w, t);
    Moved(was, first, w, t, now);
  }

  lemma OffsetsAt(es: seq<WriteEntry>, start: seq<nat>, end: seq<nat>, i: nat)
    requires AreOffsets(es, start, end, |es|) && i < |es|
    ensures start[i] == Offset(es, i) && end[i] == start[i] + es[i].bytes == Offset(es, i + 1)
  {
    assert end[i] == Offset(es, i + 1) == Offset(es, i) + es[i].bytes;
  }

  /** One round of the loop over the entries. */
  method AppendEntry(out: string, e: WriteEntry, first: bool, start: nat, end: nat) returns (hdr: string)
    requires e.dtype != Unknown && end == start + e.bytes
    ensures hdr == (if first then out else out + ",") + WriteThen(e, start, "")
  {
    hdr := out;
    if !first { hdr := hdr + ","; }
    hdr := EntryAppendTo(hdr, e, start, end);
  }

  lemma RemainingNone(hdr: string, off: nat, first: bool, whole: string)
    requires Remaining(hdr, [], off, first, whole)
    ensures hdr + "}" == whole
  {
  }

  /** The header after `i` entries. */
  predicate Reached(es: seq<WriteEntry>, i: nat, first: bool, hdr: string, whole: string)
  {
    i <= |es| && Remaining(hdr, es[i..], Offset(es, i), first, whole)
  }

  lemma RemainingNext(was: string, rest: seq<WriteEntry>, off: nat, first: bool, whole: string, now: string, w: string,
      tail: seq<WriteEntry>, next: nat)
    requires rest != [] && Remaining(was, rest, off, first, whole) && w == WriteThen(rest[0], off, "")
    requires now == (if first then was else was + ",") + w
    requires tail == rest[1..] && next == off + rest[0].bytes
    ensures Remaining(now, tail, next, false, whole)
  {
    EntriesStep(was, rest, off, first, whole, now, w);
  }

  lemma OffsetNext(es: seq<WriteEntry>, i: nat)
    requires i < |es|
    ensures Offset(es, i + 1) == Offset(es, i) + es[i].bytes
  {
  }

  lemma {:induction false} ReachedNext(es: seq<WriteEntry>, i: nat, first: bool, was: string, whole: string, now: string, w: string)
    requires i < |es| && es[i].dtype != Unknown && Reached(es, i, first, was, whole) && w == WriteThen(es[i], Offset(es, i), "")
    requires now == (if first then was else was + ",") + w
    ensures Reached(es, i + 1, false, now, whole)
  {
    SuffixAt(es, i);
    OffsetNext(es, i);
    RemainingNext(was, es[i..], Offset(es, i), first, whole, now, w, es[i + 1..], Offset(es, i + 1));
  }

  lemma {:induction false} ReachedStart(es: seq<WriteEntry>, hdr: string)
    requires AllKnown(es)
    ensures Reached(es, 0, true, hdr, hdr + EntriesThen(es, 0, true, "}"))
  {
    assert es[0..] == es;
  }

  lemma ReachedEnd(es: seq<WriteEntry>, first: bool, hdr: string, whole: string)
    requires Reached(es, |es|, first, hdr, whole)
    ensures hdr + "}" == whole
  {
    assert es[|es|..] == [];
    RemainingNone(hdr, Offset(es, |es|), first, whole);
  }

  /** The loop over the entries. */
  method AppendEntries(es: seq<WriteEntry>, start: seq<nat>, end: seq<nat>) returns (hdr: string)
    requires AllKnown(es) && AreOffsets(es, start, end, |es|)
    ensures hdr + "}" == "{" + EntriesThen(es, 0, true, "}")
  {
    hdr := "{";
    ghost var whole := hdr + EntriesThen(es, 0, true, "}");
    ghost var first := true;
    ReachedStart(es, hdr);
    for i := 0 to |es|
      invariant first == (i == 0) && Reached(es, i, first, hdr, whole)
    {
      ghost var was := hdr;
      KnownAt(es, i);
      OffsetsAt(es, start, end, i);
      hdr := AppendEntry(hdr, es[i], i == 0, start[i], end[i]);
      ReachedNext(es, i, first, was, whole, hdr, WriteThen(es[i], start[i], ""));
      first := false;
    }
    ReachedEnd(es, first, hdr, whole);
  }

  lemma {:induction false} KnownAt(es: seq<WriteEntry>, i: nat)
    requires AllKnown(es) && i < |es|
    ensures es[i].dtype != Unknown
  {
    if i > 0 { KnownAt(es[1..], i - 1); }
  }

  lemma SuffixAt(es: seq<WriteEntry>, i: nat)
    requires i < |es|
    ensures es[i..] != [] && es[i..][0] == es[i] && es[i..][1..] == es[i + 1..]
  {
  }

  /** The padding loop. */
  method Pad(text: string) returns (hdr: string)
    ensures hdr == text + Spaces(Padding(|text|))
  {
    hdr := text;
    ghost var n := 0;
    while |hdr| % 8 != 0
      invariant n <= Padding(|text|) && |hdr| == |text| + n
      invariant hdr == text + Spaces(n)
      decreases 8 - n
    {
      PadStep(|text|, |hdr|);
      Merge(text, Spaces(n), hdr, " ");
      assert Spaces(n) + " " == Spaces(n + 1);
      hdr := hdr + " ";
      n := n + 1;
    }
    PadDone(|text|, |hdr|);
  }

  /** The header, padding included. */
  method BuildHeader(es: seq<WriteEntry>, start: seq<nat>, end: seq<nat>) returns (hdr: string)
    requires AllKnown(es) && AreOffsets(es, start, end, |es|)
    ensures hdr == HeaderBytes(es)
  {
    hdr := AppendEntries(es, start, end);
    hdr := Pad(hdr + "}");
  }

  lemma PadStep(n: nat, m: nat)
    requires n <= m <= n + Padding(n) && m % 8 != 0
    ensures m < n + Padding(n)
  {
  }

  lemma PadDone(n: nat, m: nat)
    requires n <= m <= n + Padding(n) && m % 8 == 0
    ensures m == n + Padding(n)
  {
  }

  /** The payload writes. */
  method AppendPayload(out: string, es: seq<WriteEntry>) returns (file: string)
    requires AllTyped(es)
    ensures file == out + Payload(es)
  {
    file := out;
    ghost var rest := Payload(es);
    assert es[0..] == es;
    for i := 0 to |es|
      invariant AllTyped(es[i..]) && rest == Payload(es[i..])
      invariant file + rest == out + Payload(es)
    {
      assert es[i..][1..] == es[i + 1..];
      assert es[i..][0] == es[i];
      rest := Payload(es[i + 1..]);
      if es[i].bytes != 0 && es[i].data.Some? {
        Merge(file, es[i].data.value, file + es[i].data.value, rest);
        file := file + es[i].data.value;
      }
    }
    assert file + "" == file;
  }

  /** `write_file`, up to the bytes that end up in the file. */
  method WriteFile(es: seq<WriteEntry>) returns (r: Result<string>)
    requires AllTyped(es)
    ensures match r case Success(file) => FileBytes(es) == Good(file) case Failure(m) => FileBytes(es) == Bad(m)
  {
    var v, start, end := Validate(es);
    if v.Failure? { return Failure(v.message); }
    CheckedAreKnown(es, {}, 0);
    var hdr := BuildHeader(es, start, end);
    var file := AppendPayload(ToLe(|hdr|, 8) + hdr, es);
    return Success(file);
  }
}

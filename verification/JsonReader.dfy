/** The general JSON parser as the class it is: a cursor over the text and a nesting counter, proved against JsonParser. */
module JsonReader {
  import opened Results
  import opened JsonText
  import opened JsonDocument
  import P = JsonParser

  class Parser {
    const text: string
    const fits: string -> bool
    var pos: nat
    var depth: nat

    constructor (text: string, fits: string -> bool)
      ensures this.text == text && this.fits == fits && pos == 0 && depth == 0
    {
      this.text := text;
      this.fits := fits;
      pos := 0;
      depth := 0;
    }

    ghost predicate Valid()
      reads this
    {
      pos <= |text|
    }

    ghost function Rest(): string
      reads this
      requires Valid()
    {
      text[pos..]
    }

    lemma Ahead(n: nat)
      requires pos + n <= |text|
      ensures text[pos..][n..] == text[pos + n..]
    {
    }

    method SkipWs()
      requires Valid()
      modifies this`pos
      ensures Valid() && pos >= old(pos) && Rest() == SkipSpace(old(Rest()))
    {
      while pos < |text| && IsSpace(text[pos])
        invariant Valid() && pos >= old(pos)
        invariant SkipSpace(Rest()) == SkipSpace(old(Rest()))
      {
        Ahead(1);
        pos := pos + 1;
      }
    }

    method PeekChar() returns (c: char)
      requires Valid()
      ensures c == P.Peek(Rest())
    {
      c := if pos >= |text| then '\0' else text[pos];
    }

    method ParseHex4() returns (r: Result<nat>)
      requires Valid()
      modifies this`pos
      ensures Valid() && pos >= old(pos)
      ensures Tracks(r, P.ParseHex4(old(Rest())), Rest())
    {
      if |text| - pos < 4 {
        return Failure("truncated \\u escape");
      }
      var cp: nat := 0;
      for i := 0 to 4
        invariant pos == old(pos) && cp == HexPrefix(Rest(), i)
      {
        var v := HexDigit(text[pos + i]);
        assert text[pos + i] == Rest()[i];
        if v < 0 {
          NoHexAfter(Rest(), i);
          return Failure("bad hex digit in \\u escape");
        }
        cp := cp * 0x10 + v;
      }
      Ahead(4);
      pos := pos + 4;
      return Success(cp);
    }

    /** The digits of a \u escape and, after a high surrogate, of the low one that may follow. */
    method ParseUnicode() returns (r: Result<string>)
      requires Valid()
      modifies this`pos
      ensures Valid() && pos >= old(pos)
      ensures Tracks(r, P.ParseUnicode(old(Rest())), Rest())
    {
      var hi := ParseHex4();
      if hi.Failure? {
        return Failure(hi.message);
      }
      var cp := hi.value;
      var out := "";
      assert forall x: string :: "" + x == x;
      if IsHigh(cp) && |text| - pos >= 2 && text[pos] == '\\' && text[pos + 1] == 'u' {
        Ahead(2);
        pos := pos + 2;
        var lo := ParseHex4();
        if lo.Failure? {
          return Failure(lo.message);
        }
        if IsLow(lo.value) {
          cp := Combine(cp, lo.value);
        } else {
          out := out + Utf8(cp);
          cp := lo.value;
        }
      }
      return Success(out + Utf8(cp));
    }

    method ParseEscape() returns (r: Result<string>)
      requires Valid()
      modifies this`pos
      ensures Valid() && pos >= old(pos)
      ensures Tracks(r, P.ParseEscape(old(Rest())), Rest())
    {
      if pos >= |text| {
        return Failure("unterminated escape in string");
      }
      var e := text[pos];
      Ahead(1);
      pos := pos + 1;
      if e == 'u' {
        r := ParseUnicode();
      } else {
        match Unescape(e)
        case None => r := Failure("unsupported escape sequence");
        case Some(c) => r := Success([c]);
      }
    }

    method ParseString() returns (r: Result<string>)
      requires Valid()
      modifies this`pos
      ensures Valid() && pos >= old(pos)
      ensures Tracks(r, P.ParseString(old(Rest())), Rest())
    {
      var quote := PeekChar();
      if quote != '\"' {
        return Failure("expected string");
      }
      Ahead(1);
      pos := pos + 1;
      var out := "";
      while pos < |text|
        invariant Valid() && pos > old(pos)
        invariant P.ParseBody(Rest(), out) == P.ParseString(old(Rest()))
        decreases |text| - pos
      {
        var c := text[pos];
        Ahead(1);
        pos := pos + 1;
        if c == '\"' {
          return Success(out);
        }
        if c == '\\' {
          var e := ParseEscape();
          if e.Failure? {
            return Failure(e.message);
          }
          out := out + e.value;
        } else {
          out := out + [c];
        }
      }
      return Failure("unterminated string");
    }

    method SkipDigits()
      requires Valid()
      modifies this`pos
      ensures Valid() && pos >= old(pos) && Rest() == P.SkipDigits(old(Rest()))
    {
      while pos < |text| && IsDigit(text[pos])
        invariant Valid() && pos >= old(pos)
        invariant P.SkipDigits(Rest()) == P.SkipDigits(old(Rest()))
      {
        Ahead(1);
        pos := pos + 1;
      }
    }

    /** Match `lit` at the cursor and step past it, or fail. */
    method ParseLiteral(lit: string, v: P.Value, message: string) returns (r: Result<P.Value>)
      requires Valid() && lit != ""
      modifies this`pos
      ensures Valid() && pos >= old(pos)
      ensures Tracks(r, P.ParseLiteral(old(Rest()), lit, v, message), Rest())
    {
      PrefixAt(lit);
      if |text| - pos >= |lit| && text[pos..pos + |lit|] == lit {
        Ahead(|lit|);
        pos := pos + |lit|;
        return Success(v);
      }
      return Failure(message);
    }

    lemma PrefixAt(lit: string)
      requires Valid()
      ensures lit <= Rest() <==> |text| - pos >= |lit| && text[pos..pos + |lit|] == lit
    {
      if |text| - pos >= |lit| {
        assert Rest()[..|lit|] == text[pos..pos + |lit|];
      }
    }

    method ExponentTail() returns (r: Result<()>)
      requires Valid()
      modifies this`pos
      ensures Valid() && pos >= old(pos)
      ensures Tracks(r, P.ExponentTail(old(Rest())), Rest())
    {
      var c := PeekChar();
      if c != 'e' && c != 'E' {
        return Success(());
      }
      Ahead(1);
      pos := pos + 1;
      c := PeekChar();
      if c == '+' || c == '-' {
        Ahead(1);
        assert old(Rest())[1..][1..] == old(Rest())[2..];
        pos := pos + 1;
      }
      c := PeekChar();
      if !IsDigit(c) {
        return Failure("invalid number: digits expected in exponent");
      }
      SkipDigits();
      return Success(());
    }

    method FractionTail() returns (r: Result<()>)
      requires Valid()
      modifies this`pos
      ensures Valid() && pos >= old(pos)
      ensures Tracks(r, P.FractionTail(old(Rest())), Rest())
    {
      var c := PeekChar();
      if c == '.' {
        Ahead(1);
        pos := pos + 1;
        c := PeekChar();
        if !IsDigit(c) {
          return Failure("invalid number: digits expected after '.'");
        }
        SkipDigits();
      }
      r := ExponentTail();
    }

    /** Scan a number; the value says whether it is a signed or bare Infinity. */
    method ScanNumber() returns (r: Result<()>, infinite: bool)
      requires Valid()
      modifies this`pos
      ensures Valid() && pos >= old(pos)
      ensures Tracks(r, P.NumberTail(old(Rest())), Rest())
      ensures infinite == P.IsInfinity(old(Rest()))
    {
      var c := PeekChar();
      if c == '-' {
        Ahead(1);
        pos := pos + 1;
      }
      c := PeekChar();
      infinite := c == 'I';
      if infinite {
        var lit := ParseLiteral("Infinity", P.VNull, "invalid literal, expected 'Infinity'");
        r := if lit.Success? then Success(()) else Failure(lit.message);
      } else if c == '0' {
        Ahead(1);
        pos := pos + 1;
        r := FractionTail();
      } else if '1' <= c <= '9' {
        SkipDigits();
        r := FractionTail();
      } else {
        r := Failure("invalid number");
      }
    }

    method ParseNumber() returns (r: Result<P.Value>)
      requires Valid()
      modifies this`pos
      ensures Valid() && pos >= old(pos)
      ensures Tracks(r, P.ParseNumber(old(Rest()), fits), Rest())
    {
      var start := pos;
      var tail, infinite := ScanNumber();
      if tail.Failure? {
        return Failure(tail.message);
      }
      var num := text[start..pos];
      assert old(Rest())[..pos - start] == num;
      if infinite || fits(num) {
        return Success(P.VNumber(num));
      }
      return Failure("number out of range");
    }

    method ParseValue() returns (r: Result<P.Value>)
      requires Valid()
      modifies this
      ensures Valid() && pos >= old(pos)
      ensures Tracks(r, P.ParseValue(old(Rest()), old(depth), fits), Rest())
      ensures depth >= old(depth) && (r.Success? ==> depth == old(depth))
      decreases |text| - pos, 1
    {
      SkipWs();
      if pos >= |text| {
        return Failure("unexpected end of input");
      }
      var c := text[pos];
      if c == '{' {
        r := ParseObject();
      } else if c == '[' {
        r := ParseArray();
      } else if c == '\"' {
        var s := ParseString();
        r := if s.Success? then Success(P.VString(s.value)) else Failure(s.message);
      } else if c == 't' {
        r := ParseLiteral("true", P.VBool(true), "invalid literal");
      } else if c == 'f' {
        r := ParseLiteral("false", P.VBool(false), "invalid literal");
      } else if c == 'n' {
        r := ParseLiteral("null", P.VNull, "invalid literal");
      } else if c == 'I' {
        r := ParseNumber();
      } else if c == 'N' {
        r := ParseLiteral("NaN", P.VNumber("NaN"), "invalid literal, expected 'NaN'");
      } else if c == '-' || IsDigit(c) {
        r := ParseNumber();
      } else {
        r := Failure("unexpected character");
      }
    }

    /** The depth guard: it counts the container in, refuses the 257th level, and counts it out again at the end. */
    method ParseObject() returns (r: Result<P.Value>)
      requires Valid() && P.Peek(Rest()) == '{'
      modifies this
      ensures Valid() && pos >= old(pos)
      ensures Tracks(r, P.ParseObject(old(Rest())[1..], old(depth), fits), Rest())
      ensures depth >= old(depth) && (r.Success? ==> depth == old(depth))
      decreases |text| - pos, 0
    {
      depth := depth + 1;
      if depth > P.MAX_DEPTH {
        return Failure("maximum nesting depth exceeded");
      }
      Ahead(1);
      pos := pos + 1;
      SkipWs();
      var c := PeekChar();
      if c == '}' {
        Ahead(1);
        pos := pos + 1;
        r := Success(P.VObject([]));
      } else {
        r := ParseMembers();
      }
      depth := depth - 1;
    }

    method ParseMembers() returns (r: Result<P.Value>)
      requires Valid() && depth > 0
      modifies this
      ensures Valid() && pos >= old(pos)
      ensures Tracks(r, P.ParseMembers(old(Rest()), [], old(depth), fits), Rest())
      ensures depth >= old(depth) && (r.Success? ==> depth == old(depth))
      decreases |text| - pos, 3
    {
      var members: seq<(string, P.Value)> := [];
      while true
        invariant Valid() && pos >= old(pos) && depth == old(depth)
        invariant P.ParseMembers(Rest(), members, depth, fits) == P.ParseMembers(old(Rest()), [], old(depth), fits)
        decreases |text| - pos
      {
        var v := ParseMember();
        if v.Failure? {
          return Failure(v.message);
        }
        members := members + [v.value];
        SkipWs();
        var c := PeekChar();
        if c == ',' {
          Ahead(1);
          pos := pos + 1;
        } else if c == '}' {
          Ahead(1);
          pos := pos + 1;
          return Success(P.VObject(members));
        } else {
          return Failure("expected ',' or '}' in object");
        }
      }
    }

    /** The key, colon and value at the head of one turn of the object loop. */
    method ParseMember() returns (r: Result<(string, P.Value)>)
      requires Valid()
      modifies this
      ensures Valid() && pos >= old(pos)
      ensures Tracks(r, P.ParseMember(old(Rest()), old(depth), fits), Rest())
      ensures depth >= old(depth) && (r.Success? ==> depth == old(depth))
      decreases |text| - pos, 2
    {
      SkipWs();
      var c := PeekChar();
      if c != '\"' {
        return Failure("expected object key string");
      }
      var key := ParseString();
      if key.Failure? {
        return Failure(key.message);
      }
      SkipWs();
      c := PeekChar();
      if c != ':' {
        return Failure("expected ':' after object key");
      }
      Ahead(1);
      pos := pos + 1;
      var val := ParseValue();
      if val.Failure? {
        return Failure(val.message);
      }
      return Success((key.value, val.value));
    }

    /** The depth guard: it counts the container in, refuses the 257th level, and counts it out again at the end. */
    method ParseArray() returns (r: Result<P.Value>)
      requires Valid() && P.Peek(Rest()) == '['
      modifies this
      ensures Valid() && pos >= old(pos)
      ensures Tracks(r, P.ParseArray(old(Rest())[1..], old(depth), fits), Rest())
      ensures depth >= old(depth) && (r.Success? ==> depth == old(depth))
      decreases |text| - pos, 0
    {
      depth := depth + 1;
      if depth > P.MAX_DEPTH {
        return Failure("maximum nesting depth exceeded");
      }
      Ahead(1);
      pos := pos + 1;
      SkipWs();
      var c := PeekChar();
      if c == ']' {
        Ahead(1);
        pos := pos + 1;
        r := Success(P.VArray([]));
      } else {
        r := ParseElems();
      }
      depth := depth - 1;
    }

    method ParseElems() returns (r: Result<P.Value>)
      requires Valid() && depth > 0
      modifies this
      ensures Valid() && pos >= old(pos)
      ensures Tracks(r, P.ParseElems(old(Rest()), [], old(depth), fits), Rest())
      ensures depth >= old(depth) && (r.Success? ==> depth == old(depth))
      decreases |text| - pos, 3
    {
      var elems: seq<P.Value> := [];
      while true
        invariant Valid() && pos >= old(pos) && depth == old(depth)
        invariant P.ParseElems(Rest(), elems, depth, fits) == P.ParseElems(old(Rest()), [], old(depth), fits)
        decreases |text| - pos
      {
        var v := ParseValue();
        if v.Failure? {
          return Failure(v.message);
        }
        elems := elems + [v.value];
        SkipWs();
        var c := PeekChar();
        if c == ',' {
          Ahead(1);
          pos := pos + 1;
        } else if c == ']' {
          Ahead(1);
          pos := pos + 1;
          return Success(P.VArray(elems));
        } else {
          return Failure("expected ',' or ']' in array");
        }
      }
    }

    /** Parse a whole document from the start of the text. */
    method ParseDocument() returns (r: Result<P.Value>)
      requires Valid() && pos == 0 && depth == 0
      modifies this
      ensures Tracks(r, P.ParseDocument(text, fits), "")
    {
      assert Rest() == text;
      SkipWs();
      r := ParseValue();
      if r.Failure? {
        return;
      }
      SkipWs();
      if pos != |text| {
        return Failure("trailing characters after document");
      }
    }
  }
}

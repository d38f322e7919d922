/** Little-endian bytes, and what a parser of them returns. */
module GgufBytes {
  import opened Arithmetic

  type byte = x: int | 0 <= x < 0x100

  datatype Parse<+T> = Ok(value: T, rest: seq<byte>) | Fail(message: string)

  /** The number whose little-endian bytes are `s`. */
  function Le(s: seq<byte>): (v: nat)
    decreases |s|
  {
    if s == [] then 0 else s[0] + 0x100 * Le(s[1..])
  }

  /** `n` little-endian bytes of `v`, then `k`. */
  function LeThen(v: nat, n: nat, k: seq<byte>): (s: seq<byte>)
    ensures |s| == n + |k|
    decreases n, v
  {
    if n == 0 then k else [v % 0x100] + LeThen(v / 0x100, n - 1, k)
  }

  lemma {:induction false} LeBound(s: seq<byte>)
    ensures Le(s) < Power256(|s|)
    decreases |s|
  {
    if s != [] { LeBound(s[1..]); }
  }

  /** Reading back what was written. */
  lemma {:induction false} LeRoundTrip(v: nat, n: nat, k: seq<byte>)
    requires v < Power256(n)
    ensures Le(LeThen(v, n, k)[..n]) == v && LeThen(v, n, k)[n..] == k
    decreases n, v
  {
    if n == 0 {
      assert k[0..] == k;
    } else {
      LeRoundTrip(v / 0x100, n - 1, k);
      var t := LeThen(v / 0x100, n - 1, k);
      var s := [v % 0x100] + t;
      assert s[..n][1..] == t[..n - 1];
      assert s[n..] == t[n - 1..];
    }
  }

  /** `read_u8`, `read_u16`, `read_u32` and `read_u64`: `need`, then `n` bytes. */
  function ReadUint(s: seq<byte>, n: nat): (r: Parse<nat>)
    ensures r.Ok? ==> |r.rest| + n == |s|
  {
    if n > |s| then Fail("unexpected EOF") else Ok(Le(s[..n]), s[n..])
  }

  lemma {:induction false} UintReads(v: nat, n: nat, k: seq<byte>)
    requires v < Power256(n)
    ensures ReadUint(LeThen(v, n, k), n) == Ok(v, k)
  {
    LeRoundTrip(v, n, k);
  }

  lemma {:induction false} UintBound(s: seq<byte>, n: nat)
    ensures var r := ReadUint(s, n); r.Ok? ==> r.value < Power256(n)
  {
    if n <= |s| { LeBound(s[..n]); }
  }

  /** `read_str`. */
  function ReadStr(s: seq<byte>): (r: Parse<seq<byte>>)
    ensures r.Ok? ==> |r.rest| + 8 <= |s|
  {
    var len := ReadUint(s, 8);
    if len.Fail? then Fail(len.message)
    else if len.value > |len.rest| then Fail("unexpected EOF")
    else Ok(len.rest[..len.value], len.rest[len.value..])
  }

  function StrThen(t: seq<byte>, k: seq<byte>): seq<byte>
  {
    LeThen(|t|, 8, t + k)
  }

  lemma StrReads(t: seq<byte>, k: seq<byte>)
    requires |t| < Power256(8)
    ensures ReadStr(StrThen(t, k)) == Ok(t, k)
  {
    UintReads(|t|, 8, t + k);
    assert (t + k)[..|t|] == t && (t + k)[|t|..] == k;
  }

  // ---- Counted loops ----

  /** `n` rounds of `step`, each from where the last one stopped. */
  function Loop<T>(step: (seq<byte>, T) -> Parse<T>, s: seq<byte>, n: nat, acc: T): Parse<T>
    decreases n, s
  {
    if n == 0 then Ok(acc, s)
    else
      var r := step(s, acc);
      if r.Fail? then r else Loop(step, r.rest, n - 1, r.value)
  }

  lemma {:induction false} LoopKeeps<T>(step: (seq<byte>, T) -> Parse<T>, inv: T -> bool, s: seq<byte>, n: nat, acc: T)
    requires inv(acc)
    requires forall s, a :: inv(a) && step(s, a).Ok? ==> inv(step(s, a).value)
    ensures var r := Loop(step, s, n, acc); r.Ok? ==> inv(r.value)
    decreases n
  {
    if n > 0 && step(s, acc).Ok? {
      LoopKeeps(step, inv, step(s, acc).rest, n - 1, step(s, acc).value);
    }
  }

  /** If every round pays for what it adds, so does the loop; `least` bytes a round at that. */
  lemma {:induction false} LoopPays<T>(step: (seq<byte>, T) -> Parse<T>, cost: T -> nat, s: seq<byte>, n: nat, acc: T)
    requires forall s, a :: step(s, a).Ok? ==> cost(step(s, a).value) + |step(s, a).rest| <= cost(a) + |s|
    ensures var r := Loop(step, s, n, acc); r.Ok? ==> cost(r.value) + |r.rest| <= cost(acc) + |s|
    decreases n
  {
    if n > 0 && step(s, acc).Ok? {
      LoopPays(step, cost, step(s, acc).rest, n - 1, step(s, acc).value);
    }
  }

  lemma {:induction false} LoopConsumes<T>(step: (seq<byte>, T) -> Parse<T>, least: nat, s: seq<byte>, n: nat, acc: T)
    requires forall s, a :: step(s, a).Ok? ==> |step(s, a).rest| + least <= |s|
    ensures var r := Loop(step, s, n, acc); r.Ok? ==> |r.rest| + least * n <= |s|
    decreases n
  {
    if n > 0 && step(s, acc).Ok? {
      LoopConsumes(step, least, step(s, acc).rest, n - 1, step(s, acc).value);
      assert least * n == least * (n - 1) + least;
    }
  }

  /** Both fail, or both give the same answer and leave the same bytes. */
  predicate SameOutcome<T(==)>(a: Parse<T>, b: Parse<T>)
  {
    (a.Ok? <==> b.Ok?) && (a.Ok? ==> a == b)
  }

  lemma {:induction false} LoopSame<T>(step: (seq<byte>, T) -> Parse<T>, other: (seq<byte>, T) -> Parse<T>, s: seq<byte>, n: nat, acc: T)
    requires forall s, a :: SameOutcome(step(s, a), other(s, a))
    ensures SameOutcome(Loop(step, s, n, acc), Loop(other, s, n, acc))
    decreases n
  {
    if n > 0 {
      assert SameOutcome(step(s, acc), other(s, acc));
      if step(s, acc).Ok? {
        LoopSame(step, other, step(s, acc).rest, n - 1, step(s, acc).value);
      }
    }
  }
}

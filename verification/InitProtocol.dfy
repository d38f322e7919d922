/**
 Double-checked initialisation under every interleaving. Each thread takes the steps of `init` one at a time:
 the unlocked check, the lock, the second check, the body in any number of parts, the store of the flag, the
 unlock. A schedule is any sequence of thread ids; a thread may call `init` as often as it likes.
 */
module InitProtocol {
  import opened Results

  datatype Pc =
    | Outside
    | FastCheck
    | AwaitLock
    | SlowCheck
    | Body(left: nat)
    | StoreFlag
    | Unlock

  datatype Event = Begin(t: nat) | End(t: nat) | Return(t: nat)

  /** The flag, the mutex's holder, where each thread is, and what has happened, in order. */
  datatype State = State(done: bool, holder: Option<nat>, pcs: map<nat, Pc>, history: seq<Event>)

  const START: State := State(false, None, map[], [])

  function PcOf(s: State, t: nat): Pc
  {
    if t in s.pcs then s.pcs[t] else Outside
  }

  function Goto(s: State, t: nat, pc: Pc): State
  {
    s.(pcs := s.pcs[t := pc])
  }

  function Happens(s: State, e: Event): State
  {
    s.(history := s.history + [e])
  }

  /** One step of thread `t`; waiting for the mutex changes nothing. `parts` is how many steps the body takes. */
  function Step(s: State, t: nat, parts: nat): State
  {
    match PcOf(s, t)
    case Outside => Goto(s, t, FastCheck)
    case FastCheck => if s.done then Happens(Goto(s, t, Outside), Return(t)) else Goto(s, t, AwaitLock)
    case AwaitLock => if s.holder.None? then Goto(s.(holder := Some(t)), t, SlowCheck) else s
    case SlowCheck => if s.done then Goto(s, t, Unlock) else Happens(Goto(s, t, Body(parts)), Begin(t))
    case Body(left) => if left > 0 then Goto(s, t, Body(left - 1)) else Happens(Goto(s, t, StoreFlag), End(t))
    case StoreFlag => Goto(s.(done := true), t, Unlock)
    case Unlock => Happens(Goto(s.(holder := None), t, Outside), Return(t))
  }

  function Run(s: State, schedule: seq<nat>, parts: nat): State
    decreases |schedule|
  {
    if schedule == [] then s
    else Run(Step(s, schedule[0], parts), schedule[1..], parts)
  }

  // ---- What must hold of histories ----

  predicate Begun(h: seq<Event>) { exists i :: 0 <= i < |h| && h[i].Begin? }

  predicate Finished(h: seq<Event>) { exists i :: 0 <= i < |h| && h[i].End? }

  /** The body runs at most once. */
  predicate AtMostOnce(h: seq<Event>)
  {
    && (forall i, j | 0 <= i < j < |h| :: !(h[i].Begin? && h[j].Begin?))
    && (forall i, j | 0 <= i < j < |h| :: !(h[i].End? && h[j].End?))
  }

  /** No call returns before the body has finished. */
  predicate NoEarlyReturn(h: seq<Event>)
  {
    forall i | 0 <= i < |h| && h[i].Return? :: Finished(h[..i])
  }

  /** The body has begun before it finishes. */
  predicate NoEarlyEnd(h: seq<Event>)
  {
    forall i | 0 <= i < |h| && h[i].End? :: Begun(h[..i])
  }

  predicate GoodHistory(h: seq<Event>) { AtMostOnce(h) && NoEarlyReturn(h) && NoEarlyEnd(h) }

  // ---- The invariant ----

  predicate InCriticalSection(pc: Pc) { pc.SlowCheck? || pc.Body? || pc.StoreFlag? || pc.Unlock? }

  /** What the history must be for a thread to stand at `pc`. */
  predicate Consistent(pc: Pc, done: bool, begun: bool, finished: bool)
  {
    match pc
    case Body(_) => begun && !finished && !done
    case StoreFlag => begun && finished && !done
    case Unlock => done
    case SlowCheck => begun ==> done
    case _ => true
  }

  ghost predicate Inv(s: State)
  {
    && (forall t: nat :: InCriticalSection(PcOf(s, t)) <==> s.holder == Some(t))
    && (forall t: nat :: Consistent(PcOf(s, t), s.done, Begun(s.history), Finished(s.history)))
    && (s.holder.None? && Begun(s.history) ==> s.done)
    && (s.done ==> Begun(s.history) && Finished(s.history))
    && (Finished(s.history) ==> Begun(s.history))
    && GoodHistory(s.history)
  }

  lemma BegunGrows(h: seq<Event>, e: Event)
    ensures Begun(h + [e]) <==> Begun(h) || e.Begin?
    ensures Finished(h + [e]) <==> Finished(h) || e.End?
  {
    var g := h + [e];
    if Begun(h) {
      var i :| 0 <= i < |h| && h[i].Begin?;
      assert g[i].Begin?;
    }
    if Finished(h) {
      var i :| 0 <= i < |h| && h[i].End?;
      assert g[i].End?;
    }
    assert g[|h|] == e;
  }

  /** An event that keeps the history good. */
  predicate Allowed(h: seq<Event>, e: Event)
  {
    match e
    case Begin(_) => !Begun(h)
    case End(_) => Begun(h) && !Finished(h)
    case Return(_) => Finished(h)
  }

  lemma HistoryGrows(h: seq<Event>, e: Event)
    requires GoodHistory(h) && Allowed(h, e)
    ensures GoodHistory(h + [e])
  {
    var g := h + [e];
    forall i, j | 0 <= i < j < |g| ensures !(g[i].Begin? && g[j].Begin?) && !(g[i].End? && g[j].End?) {
      if j == |h| {
        assert g[i] == h[i];
      } else {
        assert g[i] == h[i] && g[j] == h[j];
      }
    }
    forall i | 0 <= i < |g| ensures (g[i].Return? ==> Finished(g[..i])) && (g[i].End? ==> Begun(g[..i])) {
      if i == |h| {
        assert g[..i] == h;
      } else {
        assert g[i] == h[i] && g[..i] == h[..i];
      }
    }
  }

  lemma StepKeeps(s: State, t: nat, parts: nat)
    requires Inv(s)
    ensures Inv(Step(s, t, parts))
  {
    var s' := Step(s, t, parts);
    var pc := PcOf(s, t);
    assert Consistent(pc, s.done, Begun(s.history), Finished(s.history));
    assert InCriticalSection(pc) <==> s.holder == Some(t);
    var e := if pc.SlowCheck? then Begin(t) else if pc.Body? then End(t) else Return(t);
    if s'.history != s.history {
      assert s'.history == s.history + [e];
      BegunGrows(s.history, e);
      HistoryGrows(s.history, e);
    }
    forall u: nat
      ensures InCriticalSection(PcOf(s', u)) <==> s'.holder == Some(u)
      ensures Consistent(PcOf(s', u), s'.done, Begun(s'.history), Finished(s'.history))
    {
      assert Consistent(PcOf(s, u), s.done, Begun(s.history), Finished(s.history));
      assert InCriticalSection(PcOf(s, u)) <==> s.holder == Some(u);
      assert u != t ==> PcOf(s', u) == PcOf(s, u);
    }
  }

  lemma {:induction false} RunKeeps(s: State, schedule: seq<nat>, parts: nat)
    requires Inv(s)
    ensures Inv(Run(s, schedule, parts))
    decreases |schedule|
  {
    if schedule != [] {
      StepKeeps(s, schedule[0], parts);
      RunKeeps(Step(s, schedule[0], parts), schedule[1..], parts);
    }
  }

  /** Under every interleaving the body runs at most once, whole, and no call returns before it has finished. */
  lemma {:induction false} InitOnce(schedule: seq<nat>, parts: nat)
    ensures GoodHistory(Run(START, schedule, parts).history)
  {
    RunKeeps(START, schedule, parts);
  }

  // ---- No call is stuck ----

  /** How many steps of its own a thread needs to return when nobody else holds the mutex. */
  function StepsLeft(pc: Pc, parts: nat): nat
  {
    match pc
    case Outside => parts + 7
    case FastCheck => parts + 6
    case AwaitLock => parts + 5
    case SlowCheck => parts + 4
    case Body(left) => left + 3
    case StoreFlag => 2
    case Unlock => 1
  }

  /** Thread `t` has just returned, and the mutex is free. */
  predicate Returned(s: State, t: nat, s': State)
  {
    s'.holder.None? && s.history < s'.history && s'.history[|s'.history| - 1] == Return(t)
  }

  predicate Free(s: State, t: nat) { s.holder.None? || s.holder == Some(t) }

  lemma Advances(s: State, t: nat, parts: nat)
    requires Inv(s) && Free(s, t)
    ensures var s' := Step(s, t, parts);
      Returned(s, t, s') || (s.history <= s'.history && Free(s', t) && StepsLeft(PcOf(s', t), parts) < StepsLeft(PcOf(s, t), parts))
  {
    assert InCriticalSection(PcOf(s, t)) <==> s.holder == Some(t);
  }

  lemma {:induction false} ReturnsAlone(s: State, t: nat, parts: nat) returns (schedule: seq<nat>)
    requires Inv(s) && Free(s, t)
    ensures Returned(s, t, Run(s, schedule, parts))
    decreases StepsLeft(PcOf(s, t), parts)
  {
    var s' := Step(s, t, parts);
    Advances(s, t, parts);
    StepKeeps(s, t, parts);
    var more: seq<nat> := [];
    if !Returned(s, t, s') { more := ReturnsAlone(s', t, parts); }
    schedule := [t] + more;
    assert schedule[1..] == more;
  }

  lemma {:induction false} RunAppend(s: State, a: seq<nat>, b: seq<nat>, parts: nat)
    ensures Run(s, a + b, parts) == Run(Run(s, a, parts), b, parts)
    decreases |a|
  {
    if a == [] {
      assert a + b == b;
    } else {
      assert (a + b)[1..] == a[1..] + b;
      RunAppend(Step(s, a[0], parts), a[1..], b, parts);
    }
  }

  /** No interleaving leads to a state in which a call can no longer return. */
  lemma InitReturns(past: seq<nat>, t: nat, parts: nat) returns (future: seq<nat>)
    ensures Returned(Run(START, past, parts), t, Run(START, past + future, parts))
  {
    var s := Run(START, past, parts);
    RunKeeps(START, past, parts);
    var first: seq<nat> := [];
    if s.holder.Some? { first := ReturnsAlone(s, s.holder.value, parts); }
    var mid := Run(s, first, parts);
    RunKeeps(s, first, parts);
    var second := ReturnsAlone(mid, t, parts);
    future := first + second;
    RunAppend(s, first, second, parts);
    RunAppend(START, past, future, parts);
  }
}

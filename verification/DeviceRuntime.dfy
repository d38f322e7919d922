/** The device policy as the globals, thread-locals and scope objects it is, each method proved against DevicePolicy. */
module DeviceRuntime {
  import opened Results
  import opened Devices
  import opened DevicePolicy
  import opened DeviceEffects

  /** The process-wide state: registration slots, device counts, and the default with its flag. */
  class Process {
    var slots: set<Backend>
    var cudaCount: int
    var vulkanCount: int
    var globalDefault: Device
    var globalDefaultSet: bool

    /** The CPU backend registers itself before anything else runs. */
    constructor ()
      ensures View() == START.g
    {
      slots, cudaCount, vulkanCount := {Cpu}, 0, 0;
      globalDefault, globalDefaultSet := CPU, false;
    }

    ghost function View(): Global
      reads this
    {
      Global(Registry(slots, cudaCount, vulkanCount), globalDefault, globalDefaultSet)
    }

    method RegisterBackend(b: Backend)
      modifies this`slots
      ensures View().reg == old(View().reg).(slots := old(slots) + {b})
    {
      slots := slots + {b};
    }

    method SetCudaDeviceCount(n: int)
      modifies this`cudaCount
      ensures View().reg == old(View().reg).(cudaCount := n)
    {
      cudaCount := n;
    }

    method SetVulkanDeviceCount(n: int)
      modifies this`vulkanCount
      ensures View().reg == old(View().reg).(vulkanCount := n)
    {
      vulkanCount := n;
    }

    method Registered(d: Device) returns (b: bool)
      ensures b == IsRegistered(View().reg, d)
    {
      match d.backend
      case Cpu => return Cpu in slots;
      case Cuda =>
        if Cuda !in slots { return false; }
        var count := cudaCount;
        if count <= 0 { count := 1; }
        return d.index >= 0 && d.index < count;
      case Metal => return Metal in slots && d.index == 0;
      case Vulkan =>
        if Vulkan !in slots { return false; }
        return d.index >= 0 && d.index < vulkanCount;
    }

    /** `available_devices`. */
    method AvailableDevices() returns (out: seq<Device>)
      ensures out == Listing(View().reg)
    {
      out := [];
      var b := Registered(CPU);
      if b { out := out + [CPU]; }
      b := Registered(Device(Cuda, 0));
      if b { out := AddCuda(out); }
      ghost var r := View().reg;
      assert out == (if Cpu in r.slots then [CPU] else [])
        + (if Cuda in r.slots then Numbered(Cuda, if r.cudaCount <= 0 then 1 else r.cudaCount) else []);
      ghost var before := out;
      b := Registered(Device(Metal, 0));
      if b { out := out + [Device(Metal, 0)]; }
      assert out == before + if Metal in r.slots then [Device(Metal, 0)] else [];
      out := AddVulkan(out);
    }

    /** The loop over the CUDA devices. */
    method AddCuda(before: seq<Device>) returns (out: seq<Device>)
      ensures out == before + Numbered(Cuda, if cudaCount <= 0 then 1 else cudaCount)
    {
      out := before;
      var count := cudaCount;
      if count <= 0 { count := 1; }
      for i := 0 to count
        invariant out == before + Numbered(Cuda, i)
      {
        out := out + [Device(Cuda, i)];
      }
    }

    /** The loop over the Vulkan devices. */
    method AddVulkan(before: seq<Device>) returns (out: seq<Device>)
      ensures out == before + if Vulkan in slots && vulkanCount > 0 then Numbered(Vulkan, vulkanCount) else []
    {
      out := before;
      var i := 0;
      while i < vulkanCount
        invariant 0 <= i && (vulkanCount >= 0 ==> i <= vulkanCount) && (vulkanCount < 0 ==> i == 0)
        invariant out == before + if Vulkan in slots then Numbered(Vulkan, i) else []
      {
        var b := Registered(Device(Vulkan, i));
        if b { out := out + [Device(Vulkan, i)]; }
        i := i + 1;
      }
    }

    method PickDefault() returns (d: Device)
      ensures d == Pick(View().reg)
    {
      var b := Registered(Device(Cuda, 0));
      if b { return Device(Cuda, 0); }
      b := Registered(Device(Metal, 0));
      if b { return Device(Metal, 0); }
      b := Registered(Device(Vulkan, 0));
      if b { return Device(Vulkan, 0); }
      return CPU;
    }

    /** The part of `init` after its probes. */
    method ChooseDefault(thread: Thread, env: Option<Device>)
      modifies this`globalDefault, this`globalDefaultSet
      ensures View() == Chosen(old(View()), thread.over, env)
    {
      if !globalDefaultSet {
        if env.Some? {
          var want := thread.ResolveAlias(this, env.value);
          var ok := Registered(want);
          if ok {
            globalDefault := want;
          } else {
            globalDefault := PickDefault();
          }
        } else {
          globalDefault := PickDefault();
        }
        globalDefaultSet := true;
      }
    }

    method SetDefaultDevice(thread: Thread, d: Device) returns (r: Result<()>)
      modifies this`globalDefault, this`globalDefaultSet
      ensures match SetDefault(old(View()), thread.over, d)
        case Some(g) => r.Success? && View() == g
        case None => r.Failure? && View() == old(View())
    {
      var want := thread.ResolveAlias(this, d);
      var ok := Registered(want);
      if !ok { return Failure("set_default_device: backend is not available"); }
      globalDefault := want;
      globalDefaultSet := true;
      return Success(());
    }
  }

  /** A thread's locals, and the scope objects on its stack, oldest first. */
  class Thread {
    var over: Option<Device>
    var hadPrev: seq<bool>
    var scopes: seq<Scope>

    constructor ()
      ensures over == None && hadPrev == [] && scopes == []
    {
      over, hadPrev, scopes := None, [], [];
    }

    ghost function View(): Local
      reads this, scopes
    {
      Local(over, hadPrev, seq(|scopes|, i requires 0 <= i < |scopes| reads this, scopes => scopes[i].prev))
    }

    method DefaultDevice(p: Process) returns (d: Device)
      ensures d == DevicePolicy.DefaultDevice(p.View(), over)
    {
      if over.Some? { return over.value; }
      if !p.globalDefaultSet {
        d := p.PickDefault();
        return;
      }
      return p.globalDefault;
    }

    method ResolveAlias(p: Process, d: Device) returns (r: Device)
      ensures r == Resolve(p.View(), over, d)
    {
      if d.backend == Cuda && Cuda !in p.slots {
        var metal, vulkan := Metal in p.slots, Vulkan in p.slots;
        var now := DefaultDevice(p);
        if metal && vulkan && now.backend == Vulkan { return Device(Vulkan, d.index); }
        if metal { return Device(Metal, 0); }
        if vulkan { return Device(Vulkan, d.index); }
      }
      return d;
    }

    /** `ops_for`: the device whose table of operations it returns, an alias resolved. */
    method OpsFor(p: Process, d: Device) returns (r: Result<Device>)
      ensures Answers(r, Table(p.View(), over, d))
    {
      var want := ResolveAlias(p, d);
      if want.backend !in p.slots { return Failure("backend not registered"); }
      return Success(want);
    }

    /** Constructing a DeviceScope. */
    method OpenScope(p: Process, d: Device) returns (r: Result<Scope>)
      modifies this
      ensures var want := Resolve(p.View(), old(over), d);
        if IsRegistered(p.View().reg, want)
        then r.Success? && fresh(r.value) && scopes == old(scopes) + [r.value] && View() == Push(old(View()), want)
        else r.Failure? && over == old(over) && hadPrev == old(hadPrev) && scopes == old(scopes)
    {
      var want := ResolveAlias(p, d);
      var ok := p.Registered(want);
      if !ok { return Failure("DeviceScope: backend is not available"); }
      var s := new Scope(if over.Some? then over.value else CPU);
      hadPrev := hadPrev + [over.Some?];
      over := Some(want);
      scopes := scopes + [s];
      return Success(s);
    }

    /** Destroying the newest DeviceScope. */
    method CloseScope(s: Scope)
      requires scopes != [] && s == scopes[|scopes| - 1]
      modifies this
      ensures scopes == old(scopes)[..|old(scopes)| - 1] && View() == Pop(old(View()))
    {
      var had := if hadPrev == [] then false else hadPrev[|hadPrev| - 1];
      if hadPrev != [] { hadPrev := hadPrev[..|hadPrev| - 1]; }
      over := if had then Some(s.prev) else None;
      scopes := scopes[..|scopes| - 1];
    }
  }

  class Scope {
    const prev: Device

    constructor (prev: Device)
      ensures this.prev == prev
    {
      this.prev := prev;
    }
  }

  // ---- Dispatch ----

  /** An operand as dispatch sees it: its device, and whether it has storage; None is a null pointer. */
  datatype Operand = Operand(device: Device, committed: bool)

  predicate Commits(o: Option<Operand>) { o.Some? && o.value.committed }

  /** Every operand with storage is on `d`. */
  predicate Agree(ts: seq<Option<Operand>>, d: Device)
  {
    forall i | 0 <= i < |ts| && Commits(ts[i]) :: ts[i].value.device == d
  }

  /** The device an operand list commits to, if any operand has storage. */
  function Committed(ts: seq<Option<Operand>>): Option<Device>
  {
    if ts == [] then None
    else if Commits(ts[0]) then Some(ts[0].value.device)
    else Committed(ts[1..])
  }

  /** The device of the first operand there is. */
  function FirstTag(ts: seq<Option<Operand>>): Device
  {
    if ts == [] then CPU
    else if ts[0].Some? then ts[0].value.device
    else FirstTag(ts[1..])
  }

  /** The device whose operations serve `d`; None where its backend is not registered. */
  function Table(g: Global, over: Option<Device>, d: Device): Option<Device>
  {
    var want := Resolve(g, over, d);
    if want.backend in g.reg.slots then Some(want) else None
  }

  /** Where operands go, `tag` being used when none has storage; None where dispatch throws. */
  function Dispatched(g: Global, over: Option<Device>, ts: seq<Option<Operand>>, tag: Device): Option<Device>
  {
    var dev := if Committed(ts).Some? then Committed(ts).value else tag;
    if Agree(ts, dev) then Table(g, over, dev) else None
  }

  predicate Answers(r: Result<Device>, spec: Option<Device>)
  {
    if spec.Some? then r == Success(spec.value) else r.Failure?
  }

  /** The loop both dispatch forms check their operands with. */
  method CheckOperands(ts: seq<Option<Operand>>, dev: Device) returns (r: Result<Device>)
    ensures if Agree(ts, dev) then r == Success(dev) else r.Failure?
  {
    for i := 0 to |ts|
      invariant forall j | 0 <= j < i && Commits(ts[j]) :: ts[j].value.device == dev
    {
      if Commits(ts[i]) && ts[i].value.device != dev { return Failure("dispatch: operand is on another device"); }
    }
    return Success(dev);
  }

  method FirstCommitted(ts: seq<Option<Operand>>) returns (d: Option<Device>)
    ensures d == Committed(ts)
  {
    for i := 0 to |ts|
      invariant Committed(ts[i..]) == Committed(ts)
    {
      assert ts[i..][1..] == ts[i + 1..];
      if Commits(ts[i]) { return Some(ts[i].value.device); }
    }
    return None;
  }

  /** `dispatch_v`. */
  method DispatchV(p: Process, thread: Thread, ts: seq<Option<Operand>>) returns (r: Result<Device>)
    ensures Answers(r, Dispatched(p.View(), thread.over, ts, if ts != [] && ts[0].Some? then ts[0].value.device else CPU))
  {
    var found := FirstCommitted(ts);
    var dev := if found.Some? then found.value else CPU;
    if found.None? && |ts| != 0 && ts[0].Some? { dev := ts[0].value.device; }
    r := CheckOperands(ts, dev);
    if r.Success? { r := thread.OpsFor(p, dev); }
  }

  /** `resolve_over`. */
  method ResolveOver(p: Process, thread: Thread, all: seq<Option<Operand>>) returns (r: Result<Device>)
    ensures Answers(r, Dispatched(p.View(), thread.over, all, FirstTag(all)))
  {
    var found := FirstCommitted(all);
    var dev := if found.Some? then found.value else CPU;
    if found.None? {
      var i := 0;
      while i < |all| && all[i].None?
        invariant 0 <= i <= |all| && FirstTag(all[i..]) == FirstTag(all)
      {
        assert all[i..][1..] == all[i + 1..];
        i := i + 1;
      }
      if i < |all| { dev := all[i].value.device; }
    }
    r := CheckOperands(all, dev);
    if r.Success? { r := thread.OpsFor(p, dev); }
  }

  // ---- The public entry points ----

  const MAX_OPERANDS: nat := 32

  /** Operands that are all there. */
  function Present(os: seq<Operand>): (ts: seq<Option<Operand>>)
    ensures |ts| == |os| && (os != [] ==> ts[0] == Some(os[0]))
  {
    seq(|os|, i requires 0 <= i < |os| => Some(os[i]))
  }

  /** `dispatch`, one overload for each number of operands. */
  method Dispatch(p: Process, thread: Thread, os: seq<Operand>) returns (r: Result<Device>)
    requires 1 <= |os| <= 8
    ensures Answers(r, Dispatched(p.View(), thread.over, Present(os), os[0].device))
  {
    r := DispatchV(p, thread, Present(os));
  }

  /** `dispatch_with_opts`: one or two operands, then optional ones, copied into a buffer of fixed size. */
  method DispatchWithOpts(p: Process, thread: Thread, os: seq<Operand>, opts: seq<Option<Operand>>) returns (r: Result<Device>)
    requires 1 <= |os| <= 2
    ensures if |os| + |opts| > 32 then r.Failure?
      else Answers(r, Dispatched(p.View(), thread.over, Present(os) + opts, os[0].device))
  {
    if |os| + |opts| > MAX_OPERANDS { return Failure("dispatch: operand count exceeds the fixed dispatch buffer"); }
    r := ResolveOver(p, thread, Present(os) + opts);
  }

  /** The operands that are there, in order. */
  function Given(ts: seq<Option<Operand>>): seq<Operand>
  {
    if ts == [] then []
    else if ts[0].Some? then [ts[0].value] + Given(ts[1..])
    else Given(ts[1..])
  }

  lemma PresentFirst(os: seq<Operand>)
    requires os != []
    ensures Present(os) == [Some(os[0])] + Present(os[1..])
  {
  }

  /** Null operands change neither which device the others commit to nor whether they agree on one. */
  lemma {:induction false} GivenResolve(ts: seq<Option<Operand>>, d: Device)
    ensures Committed(Present(Given(ts))) == Committed(ts)
    ensures Agree(Present(Given(ts)), d) <==> Agree(ts, d)
  {
    if ts != [] {
      var tail := ts[1..];
      GivenResolve(tail, d);
      assert ts == [ts[0]] + tail;
      AgreeFirst(ts[0], tail, d);
      if ts[0].Some? {
        PresentFirst(Given(ts));
        assert Given(ts)[1..] == Given(tail);
        AgreeFirst(ts[0], Present(Given(tail)), d);
        assert ([ts[0]] + Present(Given(tail)))[1..] == Present(Given(tail));
      }
    }
  }

  lemma AgreeFirst(o: Option<Operand>, ts: seq<Option<Operand>>, d: Device)
    ensures Agree([o] + ts, d) <==> (Commits(o) ==> o.value.device == d) && Agree(ts, d)
  {
    var all := [o] + ts;
    assert all[0] == o;
    assert forall i | 1 <= i < |all| :: all[i] == ts[i - 1];
    if Agree(all, d) {
      forall i | 0 <= i < |ts| && Commits(ts[i]) ensures ts[i].value.device == d {
        assert all[i + 1] == ts[i];
      }
    }
  }

  lemma {:induction false} GivenOfPresent(os: seq<Operand>, opts: seq<Option<Operand>>)
    ensures Given(Present(os) + opts) == os + Given(opts)
    decreases |os|
  {
    if os == [] {
      assert Present(os) + opts == opts;
    } else {
      PresentFirst(os);
      assert (Present(os) + opts)[1..] == Present(os[1..]) + opts;
      GivenOfPresent(os[1..], opts);
      assert os == [os[0]] + os[1..];
    }
  }

  /**
   The two forms are one: an optional-operand dispatch goes where the plain one with the operands that are there
   would go, and so would either form on the other's list.
   */
  lemma {:induction false} FormsAgree(g: Global, over: Option<Device>, os: seq<Operand>, opts: seq<Option<Operand>>)
    requires os != []
    ensures var all := Present(os) + opts;
      && FirstTag(all) == os[0].device == all[0].value.device
      && Dispatched(g, over, all, FirstTag(all)) == Dispatched(g, over, Present(os + Given(opts)), os[0].device)
  {
    var all := Present(os) + opts;
    GivenOfPresent(os, opts);
    GivenResolve(all, if Committed(all).Some? then Committed(all).value else FirstTag(all));
  }

  /** All operands with storage are on one device. */
  predicate OnOneDevice(ts: seq<Option<Operand>>)
  {
    forall i, j | 0 <= i < |ts| && 0 <= j < |ts| && Commits(ts[i]) && Commits(ts[j]) :: ts[i].value.device == ts[j].value.device
  }

  lemma {:induction false} CommittedIsOne(ts: seq<Option<Operand>>)
    ensures match Committed(ts)
      case Some(d) => exists i | 0 <= i < |ts| && Commits(ts[i]) :: ts[i].value.device == d
      case None => forall i | 0 <= i < |ts| :: !Commits(ts[i])
  {
    if ts != [] && !Commits(ts[0]) {
      CommittedIsOne(ts[1..]);
      assert forall i | 1 <= i < |ts| :: ts[i] == ts[1..][i - 1];
    }
  }

  /**
   Dispatch succeeds exactly when the operands with storage share a device and the backend it means is registered;
   the order of the operands matters only when none has storage.
   */
  lemma DispatchedExactly(g: Global, over: Option<Device>, ts: seq<Option<Operand>>, tag: Device, d: Device)
    requires if exists i | 0 <= i < |ts| :: Commits(ts[i])
      then exists i | 0 <= i < |ts| && Commits(ts[i]) :: ts[i].value.device == d
      else d == tag
    ensures Dispatched(g, over, ts, tag) == if OnOneDevice(ts) then Table(g, over, d) else None
  {
    CommittedIsOne(ts);
  }
}

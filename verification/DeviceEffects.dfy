/** What the device calls do: which default is chosen and moved, for which threads, and what an alias stands for. */
module DeviceEffects {
  import opened Results
  import opened Devices
  import opened DevicePolicy

  // ---- Rules ----

  /** The order in which a default is looked for. */
  function Rank(b: Backend): nat
  {
    match b
    case Cuda => 0
    case Metal => 1
    case Vulkan => 2
    case Cpu => 3
  }

  /** The default is the first device of the best backend: no registered backend with a device comes before its. */
  lemma PickIsBest(r: Registry, d: Device)
    requires Cpu in r.slots
    ensures Pick(r).index == 0 && IsRegistered(r, Pick(r))
    ensures IsRegistered(r, d) ==> Rank(Pick(r).backend) <= Rank(d.backend)
  {
  }

  /** The devices there are: the CPU's, Metal's, and as many of the others as were counted, one CUDA device at least. */
  function Existing(r: Registry): set<Device>
  {
    (if Cpu in r.slots then {Device(Cpu, 0)} else {})
    + (if Cuda in r.slots then set i | 0 <= i < (if r.cudaCount > 1 then r.cudaCount else 1) :: Device(Cuda, i) else {})
    + (if Metal in r.slots then {Device(Metal, 0)} else {})
    + (if Vulkan in r.slots then set i | 0 <= i < r.vulkanCount :: Device(Vulkan, i) else {})
  }

  /** A device is registered exactly when it exists, the index of the CPU not mattering. */
  lemma RegisteredExactly(r: Registry, d: Device)
    ensures IsRegistered(r, d) <==> d in Existing(r) || (d.backend == Cpu && Device(Cpu, 0) in Existing(r))
  {
  }

  /** The first `n` devices of a backend. */
  function Numbered(b: Backend, n: nat): (ds: seq<Device>)
    ensures |ds| == n && forall i | 0 <= i < n :: ds[i] == Device(b, i)
  {
    seq(n, i requires 0 <= i < n => Device(b, i))
  }

  /** The list of devices: the CPU, the CUDA devices, Metal, the Vulkan devices. */
  function Listing(r: Registry): seq<Device>
  {
    (if Cpu in r.slots then [CPU] else [])
    + (if Cuda in r.slots then Numbered(Cuda, if r.cudaCount <= 0 then 1 else r.cudaCount) else [])
    + (if Metal in r.slots then [Device(Metal, 0)] else [])
    + (if Vulkan in r.slots && r.vulkanCount > 0 then Numbered(Vulkan, r.vulkanCount) else [])
  }

  lemma InNumbered(b: Backend, n: nat, d: Device)
    ensures d in Numbered(b, n) <==> d.backend == b && 0 <= d.index < n
  {
    if d.backend == b && 0 <= d.index < n { assert Numbered(b, n)[d.index] == d; }
  }

  /** The list holds exactly the devices there are. */
  lemma ListingExact(r: Registry, d: Device)
    ensures d in Listing(r) <==> d in Existing(r)
  {
    InNumbered(Cuda, if r.cudaCount <= 0 then 1 else r.cudaCount, d);
    if r.vulkanCount > 0 { InNumbered(Vulkan, r.vulkanCount, d); }
  }

  /** A device whose backend is registered stands for itself, and so does any that is not CUDA's. */
  lemma NoAlias(g: Global, over: Option<Device>, d: Device)
    requires d.backend != Cuda || Cuda in g.reg.slots || (Metal !in g.reg.slots && Vulkan !in g.reg.slots)
    ensures Resolve(g, over, d) == d
  {
  }

  /**
   Without CUDA a CUDA device stands for the Metal device or the Vulkan device of its index, the one there is; with
   both it is Vulkan's exactly if the thread's default is a Vulkan device.
   */
  lemma AliasTarget(g: Global, over: Option<Device>, d: Device)
    requires d.backend == Cuda && Cuda !in g.reg.slots && (Metal in g.reg.slots || Vulkan in g.reg.slots)
    ensures var r := Resolve(g, over, d);
      && r.backend in g.reg.slots && r in {Device(Metal, 0), Device(Vulkan, d.index)}
      && (Metal in g.reg.slots && Vulkan in g.reg.slots
          ==> (r.backend == Vulkan <==> DefaultDevice(g, over).backend == Vulkan))
  {
  }

  /** Resolving twice is resolving once. */
  lemma ResolveOnce(g: Global, over: Option<Device>, d: Device)
    ensures Resolve(g, over, Resolve(g, over, d)) == Resolve(g, over, d)
  {
  }

  // ---- Calls in a run ----

  /** In reachable states a thread has an override exactly while it is inside a scope. */
  lemma {:induction false} ScopedIsOverridden(ops: seq<Op>, t: nat)
    requires Runs(START, ops)
    ensures LocalOf(Run(START, ops), t).over.Some? <==> LocalOf(Run(START, ops), t).prev != []
  {
    var a := RunRefines(START, Simple(START.g, map[]), ops);
    EncodedTop(StackOf(a, t));
  }

  /** The default is now `d` for every thread outside of scopes, and nothing else has changed. */
  predicate DefaultMoved(s: State, d: Device, s': State, u: nat)
  {
    && s'.g.reg == s.g.reg && s'.locals == s.locals
    && DefaultOf(s', u) == if LocalOf(s, u).prev != [] then DefaultOf(s, u) else d
  }

  /**
   Setting the default, in any run: where the device `d` stands for is registered, that is the answer of every thread
   outside of scopes from then on, and it is `d` itself if its own backend is registered; where it is not, the call
   throws and nothing changes.
   */
  lemma {:induction false} SetMovesDefault(ops: seq<Op>, s: State, t: nat, d: Device, want: Device, u: nat)
    requires Runs(START, ops) && s == Run(START, ops) && want == Resolve(s.g, LocalOf(s, t).over, d)
    ensures d.backend in s.g.reg.slots ==> want == d
    ensures SetDefault(s.g, LocalOf(s, t).over, d).Some? <==> IsRegistered(s.g.reg, want)
    ensures if IsRegistered(s.g.reg, want) then DefaultMoved(s, want, Step(s, Set(t, d)), u) else Step(s, Set(t, d)) == s
  {
    ScopedIsOverridden(ops, u);
  }

  /**
   The end of `init`, in any run: the first time, the environment's wish becomes the default if the device it stands for
   is registered, and the best device there is otherwise; later times change nothing.
   */
  lemma {:induction false} ChooseMovesDefault(ops: seq<Op>, s: State, t: nat, env: Option<Device>, u: nat)
    requires Runs(START, ops) && s == Run(START, ops)
    ensures var s' := Step(s, Choose(t, env));
      if s.g.isSet then s' == s
      else if env.Some? && IsRegistered(s.g.reg, Resolve(s.g, LocalOf(s, t).over, env.value))
        then DefaultMoved(s, Resolve(s.g, LocalOf(s, t).over, env.value), s', u)
        else DefaultMoved(s, Pick(s.g.reg), s', u)
    ensures Step(s, Choose(t, env)).g.isSet
  {
    ScopedIsOverridden(ops, u);
  }

  /** The default set or chosen stays until it is set again, whatever is registered meanwhile. */
  lemma DefaultStays(s: State, op: Op)
    requires Enabled(s, op) && s.g.isSet && !op.Set?
    ensures Step(s, op).g.isSet && Step(s, op).g.default == s.g.default
  {
  }

  /**
   Opening a scope, in any run: the device it stands for is the thread's answer if it is registered, and all other
   threads keep theirs; otherwise the call throws and nothing changes.
   */
  lemma OpenMovesThread(s: State, t: nat, d: Device, want: Device, u: nat)
    requires want == Resolve(s.g, LocalOf(s, t).over, d)
    ensures var s' := Step(s, Open(t, d));
      if IsRegistered(s.g.reg, want) then s'.g == s.g && DefaultOf(s', u) == if u == t then want else DefaultOf(s, u)
      else s' == s
  {
  }

  /** Closing a scope changes the answer of no other thread. */
  lemma CloseLeavesOthers(s: State, t: nat, u: nat)
    requires Enabled(s, Close(t)) && u != t
    ensures Step(s, Close(t)).g == s.g && DefaultOf(Step(s, Close(t)), u) == DefaultOf(s, u)
  {
  }
}

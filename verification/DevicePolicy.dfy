/**
 Which devices exist, which one an alias means, which one is the default, and how nested scopes override it:
 the rules as functions, and their invariants over every run of any number of threads.
 */
module DevicePolicy {
  import opened Results
  import opened Devices

  // ---- Rules ----

  /** The registered backends and the device counts they reported. */
  datatype Registry = Registry(slots: set<Backend>, cudaCount: int, vulkanCount: int)

  predicate IsRegistered(r: Registry, d: Device)
  {
    match d.backend
    case Cpu => Cpu in r.slots
    case Cuda => Cuda in r.slots && 0 <= d.index < if r.cudaCount <= 0 then 1 else r.cudaCount
    case Metal => Metal in r.slots && d.index == 0
    case Vulkan => Vulkan in r.slots && 0 <= d.index < r.vulkanCount
  }

  /** `pick_default_from_available`. */
  function Pick(r: Registry): Device
  {
    if IsRegistered(r, Device(Cuda, 0)) then Device(Cuda, 0)
    else if IsRegistered(r, Device(Metal, 0)) then Device(Metal, 0)
    else if IsRegistered(r, Device(Vulkan, 0)) then Device(Vulkan, 0)
    else CPU
  }

  /** The process-wide default, if one was chosen. */
  datatype Global = Global(reg: Registry, default: Device, isSet: bool)

  /** `default_device` under a thread's override. */
  function DefaultDevice(g: Global, over: Option<Device>): Device
  {
    if over.Some? then over.value
    else if !g.isSet then Pick(g.reg)
    else g.default
  }

  /** `resolve_device_alias` in a thread with that override. */
  function Resolve(g: Global, over: Option<Device>, d: Device): Device
  {
    if d.backend == Cuda && Cuda !in g.reg.slots then
      var metal, vulkan := Metal in g.reg.slots, Vulkan in g.reg.slots;
      if metal && vulkan && DefaultDevice(g, over).backend == Vulkan then Device(Vulkan, d.index)
      else if metal then Device(Metal, 0)
      else if vulkan then Device(Vulkan, d.index)
      else d
    else d
  }

  /** The default `init` chooses, once, from the environment's wish. */
  function Chosen(g: Global, over: Option<Device>, env: Option<Device>): Global
  {
    if g.isSet then g
    else
      var want := if env.Some? then Some(Resolve(g, over, env.value)) else None;
      g.(default := if want.Some? && IsRegistered(g.reg, want.value) then want.value else Pick(g.reg), isSet := true)
  }

  /** `set_default_device`; None is its exception. */
  function SetDefault(g: Global, over: Option<Device>, d: Device): Option<Global>
  {
    var r := Resolve(g, over, d);
    if !IsRegistered(g.reg, r) then None else Some(g.(default := r, isSet := true))
  }

  // ---- Scopes ----

  /**
   A thread's override, the had-previous flags its scopes pushed, and the previous device each live scope
   object keeps, oldest first.
   */
  datatype Local = Local(over: Option<Device>, hadPrev: seq<bool>, prev: seq<Device>)

  const NO_SCOPES: Local := Local(None, [], [])

  /** The constructor of a scope on a device already resolved and checked. */
  function Push(l: Local, d: Device): Local
  {
    if l.over.Some? then Local(Some(d), l.hadPrev + [true], l.prev + [l.over.value])
    else Local(Some(d), l.hadPrev + [false], l.prev + [CPU])
  }

  /** The destructor of the newest scope, whose kept device is the last. */
  function Pop(l: Local): Local
    requires l.prev != []
  {
    var had := if l.hadPrev == [] then false else l.hadPrev[|l.hadPrev| - 1];
    var flags := if l.hadPrev == [] then [] else l.hadPrev[..|l.hadPrev| - 1];
    Local(if had then Some(l.prev[|l.prev| - 1]) else None, flags, l.prev[..|l.prev| - 1])
  }

  /** What a simple stack of devices looks like in the three places the code keeps it. */
  function Encoded(stack: seq<Device>): Local
  {
    if stack == [] then NO_SCOPES
    else Local(Some(stack[|stack| - 1]), seq(|stack|, i => i > 0), [CPU] + stack[..|stack| - 1])
  }

  /** Opening a scope pushes on the simple stack. */
  lemma PushIsPush(stack: seq<Device>, d: Device)
    ensures Push(Encoded(stack), d) == Encoded(stack + [d])
  {
    assert (stack + [d])[..|stack|] == stack;
    assert seq(|stack| + 1, i => i > 0) == seq(|stack|, i => i > 0) + [|stack| > 0];
    if stack != [] {
      assert stack[..|stack| - 1] + [stack[|stack| - 1]] == stack;
    }
  }

  /** Closing one pops it, the override, flags and kept devices returning to exactly what they were. */
  lemma PopIsPop(stack: seq<Device>, d: Device)
    ensures Pop(Encoded(stack + [d])) == Encoded(stack)
  {
    var l := Encoded(stack + [d]);
    assert (stack + [d])[..|stack|] == stack;
    assert l.hadPrev[..|stack|] == seq(|stack|, i => i > 0);
    if stack != [] {
      assert ([CPU] + stack)[..|stack|] == [CPU] + stack[..|stack| - 1];
    }
  }

  // ---- Runs ----

  /** The process: shared policy, and each thread's scopes; a thread without an entry has none. */
  datatype State = State(g: Global, locals: map<nat, Local>)

  /** Only the CPU backend is there before anything else runs. */
  const START: State := State(Global(Registry({Cpu}, 0, 0), CPU, false), map[])

  function LocalOf(s: State, t: nat): Local
  {
    if t in s.locals then s.locals[t] else NO_SCOPES
  }

  function DefaultOf(s: State, t: nat): Device
  {
    DefaultDevice(s.g, LocalOf(s, t).over)
  }

  /** `t` is the thread; `Choose` is the end of `init`, its probes being registrations and counts. */
  datatype Op =
    | Register(b: Backend)
    | CudaCount(n: int)
    | VulkanCount(n: int)
    | Choose(t: nat, env: Option<Device>)
    | Set(t: nat, d: Device)
    | Open(t: nat, d: Device)
    | Close(t: nat)

  /** Device counts do not shrink; a thread closes its newest scope. */
  predicate Enabled(s: State, op: Op)
  {
    match op
    case CudaCount(n) => n >= s.g.reg.cudaCount
    case VulkanCount(n) => n >= s.g.reg.vulkanCount
    case Close(t) => LocalOf(s, t).prev != []
    case _ => true
  }

  /** A call that throws changes nothing. */
  function Step(s: State, op: Op): State
    requires Enabled(s, op)
  {
    var reg := s.g.reg;
    match op
    case Register(b) => s.(g := s.g.(reg := reg.(slots := reg.slots + {b})))
    case CudaCount(n) => s.(g := s.g.(reg := reg.(cudaCount := n)))
    case VulkanCount(n) => s.(g := s.g.(reg := reg.(vulkanCount := n)))
    case Choose(t, env) => s.(g := Chosen(s.g, LocalOf(s, t).over, env))
    case Set(t, d) =>
      var g := SetDefault(s.g, LocalOf(s, t).over, d);
      if g.None? then s else s.(g := g.value)
    case Open(t, d) =>
      var r := Resolve(s.g, LocalOf(s, t).over, d);
      if !IsRegistered(reg, r) then s else s.(locals := s.locals[t := Push(LocalOf(s, t), r)])
    case Close(t) => s.(locals := s.locals[t := Pop(LocalOf(s, t))])
  }

  // ---- The simple machine ----

  /** The same process with a plain stack of devices for each thread. */
  datatype Simple = Simple(g: Global, stacks: map<nat, seq<Device>>)

  function StackOf(a: Simple, t: nat): seq<Device>
  {
    if t in a.stacks then a.stacks[t] else []
  }

  function Top(stack: seq<Device>): Option<Device>
  {
    if stack == [] then None else Some(stack[|stack| - 1])
  }

  predicate SimpleEnabled(a: Simple, op: Op)
  {
    match op
    case CudaCount(n) => n >= a.g.reg.cudaCount
    case VulkanCount(n) => n >= a.g.reg.vulkanCount
    case Close(t) => StackOf(a, t) != []
    case _ => true
  }

  function SimpleStep(a: Simple, op: Op): Simple
    requires SimpleEnabled(a, op)
  {
    var reg := a.g.reg;
    match op
    case Register(b) => a.(g := a.g.(reg := reg.(slots := reg.slots + {b})))
    case CudaCount(n) => a.(g := a.g.(reg := reg.(cudaCount := n)))
    case VulkanCount(n) => a.(g := a.g.(reg := reg.(vulkanCount := n)))
    case Choose(t, env) => a.(g := Chosen(a.g, Top(StackOf(a, t)), env))
    case Set(t, d) =>
      var g := SetDefault(a.g, Top(StackOf(a, t)), d);
      if g.None? then a else a.(g := g.value)
    case Open(t, d) =>
      var r := Resolve(a.g, Top(StackOf(a, t)), d);
      if !IsRegistered(reg, r) then a else a.(stacks := a.stacks[t := StackOf(a, t) + [r]])
    case Close(t) => a.(stacks := a.stacks[t := StackOf(a, t)[..|StackOf(a, t)| - 1]])
  }

  ghost predicate Represents(s: State, a: Simple)
  {
    s.g == a.g && forall t: nat :: LocalOf(s, t) == Encoded(StackOf(a, t))
  }

  lemma EncodedTop(stack: seq<Device>)
    ensures Encoded(stack).over == Top(stack) && (Encoded(stack).prev == [] <==> stack == [])
  {
  }

  /** Each operation of the code is that operation of the simple machine. */
  lemma StepRefines(s: State, a: Simple, op: Op)
    requires Represents(s, a) && Enabled(s, op)
    ensures SimpleEnabled(a, op) && Represents(Step(s, op), SimpleStep(a, op))
  {
    match op
    case Register(_) => SameLocals(s, a, Step(s, op), SimpleStep(a, op));
    case CudaCount(_) => SameLocals(s, a, Step(s, op), SimpleStep(a, op));
    case VulkanCount(_) => SameLocals(s, a, Step(s, op), SimpleStep(a, op));
    case Choose(t, _) =>
      EncodedTop(StackOf(a, t));
      SameLocals(s, a, Step(s, op), SimpleStep(a, op));
    case Set(t, _) =>
      EncodedTop(StackOf(a, t));
      SameLocals(s, a, Step(s, op), SimpleStep(a, op));
    case Open(t, d) =>
      EncodedTop(StackOf(a, t));
      var r := Resolve(a.g, Top(StackOf(a, t)), d);
      PushIsPush(StackOf(a, t), r);
      LocalsAgree(Step(s, op), SimpleStep(a, op), s, a, t);
    case Close(t) =>
      var stack := StackOf(a, t);
      EncodedTop(stack);
      assert stack == stack[..|stack| - 1] + [stack[|stack| - 1]];
      PopIsPop(stack[..|stack| - 1], stack[|stack| - 1]);
      LocalsAgree(Step(s, op), SimpleStep(a, op), s, a, t);
  }

  lemma SameLocals(s: State, a: Simple, s': State, a': Simple)
    requires Represents(s, a) && s'.g == a'.g && s'.locals == s.locals && a'.stacks == a.stacks
    ensures Represents(s', a')
  {
    forall u: nat ensures LocalOf(s', u) == Encoded(StackOf(a', u)) {
      assert LocalOf(s, u) == Encoded(StackOf(a, u));
    }
  }

  lemma LocalsAgree(s': State, a': Simple, s: State, a: Simple, t: nat)
    requires Represents(s, a) && s'.g == a'.g
    requires LocalOf(s', t) == Encoded(StackOf(a', t))
    requires forall u: nat | u != t :: LocalOf(s', u) == LocalOf(s, u) && StackOf(a', u) == StackOf(a, u)
    ensures Represents(s', a')
  {
    forall u: nat ensures LocalOf(s', u) == Encoded(StackOf(a', u)) {
      if u != t { assert LocalOf(s, u) == Encoded(StackOf(a, u)); }
    }
  }

  // ---- Invariants ----

  /** Every device the policy could answer with is registered: the chosen one, and all on any stack. */
  ghost predicate Sound(a: Simple)
  {
    && Cpu in a.g.reg.slots && IsRegistered(a.g.reg, a.g.default)
    && forall t, i | t in a.stacks && 0 <= i < |a.stacks[t]| :: IsRegistered(a.g.reg, a.stacks[t][i])
  }

  /** A bigger registry keeps what was registered. */
  lemma RegisteredGrows(r: Registry, r': Registry, d: Device)
    requires r.slots <= r'.slots && r.cudaCount <= r'.cudaCount && r.vulkanCount <= r'.vulkanCount && IsRegistered(r, d)
    ensures IsRegistered(r', d)
  {
  }

  lemma PickIsRegistered(r: Registry)
    requires Cpu in r.slots
    ensures IsRegistered(r, Pick(r))
  {
  }

  lemma SoundGrows(a: Simple, reg: Registry)
    requires Sound(a)
    requires a.g.reg.slots <= reg.slots && a.g.reg.cudaCount <= reg.cudaCount && a.g.reg.vulkanCount <= reg.vulkanCount
    ensures Sound(a.(g := a.g.(reg := reg)))
  {
    RegisteredGrows(a.g.reg, reg, a.g.default);
    forall t, i | t in a.stacks && 0 <= i < |a.stacks[t]| ensures IsRegistered(reg, a.stacks[t][i]) {
      RegisteredGrows(a.g.reg, reg, a.stacks[t][i]);
    }
  }

  lemma StepSound(a: Simple, op: Op)
    requires Sound(a) && SimpleEnabled(a, op)
    ensures Sound(SimpleStep(a, op))
  {
    match op
    case Register(b) => SoundGrows(a, a.g.reg.(slots := a.g.reg.slots + {b}));
    case CudaCount(n) => SoundGrows(a, a.g.reg.(cudaCount := n));
    case VulkanCount(n) => SoundGrows(a, a.g.reg.(vulkanCount := n));
    case Choose(_, _) => PickIsRegistered(a.g.reg);
    case Set(_, _) =>
    case Open(_, _) =>
    case Close(_) =>
  }

  predicate Runs(s: State, ops: seq<Op>)
    decreases |ops|
  {
    ops == [] || (Enabled(s, ops[0]) && Runs(Step(s, ops[0]), ops[1..]))
  }

  function Run(s: State, ops: seq<Op>): State
    requires Runs(s, ops)
    decreases |ops|
  {
    if ops == [] then s else Run(Step(s, ops[0]), ops[1..])
  }

  /** A run of the code is a run of the simple machine, which it keeps sound. */
  lemma {:induction false} RunRefines(s: State, a: Simple, ops: seq<Op>) returns (a': Simple)
    requires Represents(s, a) && Sound(a) && Runs(s, ops)
    ensures Represents(Run(s, ops), a') && Sound(a')
    decreases |ops|
  {
    a' := a;
    if ops != [] {
      StepRefines(s, a, ops[0]);
      StepSound(a, ops[0]);
      a' := RunRefines(Step(s, ops[0]), SimpleStep(a, ops[0]), ops[1..]);
    }
  }

  lemma TopIsSound(a: Simple, t: nat)
    requires Sound(a)
    ensures var d := DefaultDevice(a.g, Top(StackOf(a, t))); IsRegistered(a.g.reg, d)
  {
    PickIsRegistered(a.g.reg);
  }

  /** In every reachable state the default device of every thread is registered, and is what it resolves to. */
  lemma {:induction false} DefaultAlwaysUsable(ops: seq<Op>, t: nat)
    requires Runs(START, ops)
    ensures var s := Run(START, ops);
      var d := DefaultOf(s, t);
      IsRegistered(s.g.reg, d) && Resolve(s.g, LocalOf(s, t).over, d) == d
  {
    var a := RunRefines(START, Simple(START.g, map[]), ops);
    EncodedTop(StackOf(a, t));
    TopIsSound(a, t);
  }

  // ---- Nesting ----

  /** How the scopes of thread `t` stand after each operation: never below where they were, back there at the end. */
  predicate Balanced(s: State, ops: seq<Op>, t: nat, base: nat)
    requires Runs(s, ops)
    decreases |ops|
  {
    && |LocalOf(s, t).prev| >= base
    && if ops == [] then |LocalOf(s, t).prev| == base else Balanced(Step(s, ops[0]), ops[1..], t, base)
  }

  lemma {:induction false} BalancedKeepsBase(s: State, a: Simple, ops: seq<Op>, t: nat, stack: seq<Device>)
    requires Represents(s, a) && Runs(s, ops) && Balanced(s, ops, t, |stack|)
    requires |StackOf(a, t)| >= |stack| && StackOf(a, t)[..|stack|] == stack
    ensures LocalOf(Run(s, ops), t) == Encoded(stack)
    decreases |ops|
  {
    EncodedLength(StackOf(a, t));
    if ops == [] {
      assert StackOf(a, t) == stack;
    } else {
      var op := ops[0];
      StepRefines(s, a, op);
      var a' := SimpleStep(a, op);
      EncodedLength(StackOf(a', t));
      assert StackOf(a', t)[..|stack|] == stack;
      BalancedKeepsBase(Step(s, op), a', ops[1..], t, stack);
    }
  }

  lemma EncodedLength(stack: seq<Device>)
    ensures |Encoded(stack).prev| == |stack|
  {
  }

  /**
   Whatever a thread does in properly nested scopes, and whatever other threads and registrations do
   meanwhile, when the last of them closes its override, flags and kept devices are exactly the earlier ones;
   so its default device is that of the state it is then in under the earlier override.
   */
  lemma {:induction false} ScopesRestore(before: seq<Op>, ops: seq<Op>, t: nat)
    requires Runs(START, before) && Runs(Run(START, before), ops)
    requires Balanced(Run(START, before), ops, t, |LocalOf(Run(START, before), t).prev|)
    ensures var s := Run(START, before);
      var s' := Run(s, ops);
      LocalOf(s', t) == LocalOf(s, t) && DefaultOf(s', t) == DefaultDevice(s'.g, LocalOf(s, t).over)
  {
    var s := Run(START, before);
    var a := RunRefines(START, Simple(START.g, map[]), before);
    EncodedLength(StackOf(a, t));
    assert StackOf(a, t)[..|StackOf(a, t)|] == StackOf(a, t);
    BalancedKeepsBase(s, a, ops, t, StackOf(a, t));
  }
}

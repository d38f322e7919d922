/**
 Every run of tensor operations: who owns which allocation, and which tensor stands for which trace slot.
 Operations are compositions of a few primitive changes, as the code composes them from `release_`, moves and
 the retarget hook.
 */
module TensorRuns {
  import opened MachineWords
  import opened Results
  import opened Dtypes
  import opened Devices
  import opened TensorStorage

  /** Live tensor objects by identity, the storage, and the trace's table from slot to tensor. */
  datatype State = State(objs: map<nat, Fields>, heap: Heap, table: map<int, nat>)

  const START: State := State(map[], Heap(map[], 0, 0, 0), map[])

  // ---- The invariant ----

  /** An owner's block is live, of its device and capacity, and no smaller than its bytes; views have no capacity. */
  ghost predicate Storage(s: State)
  {
    forall i | i in s.objs :: Sound(s.objs[i], s.heap)
  }

  /** No two tensors own one buffer. */
  ghost predicate SingleOwner(s: State)
  {
    forall i, j | i in s.objs && j in s.objs && s.objs[i].owns && s.objs[j].owns && s.objs[i].data == s.objs[j].data :: i == j
  }

  /** No live allocation is without an owner. */
  ghost predicate NoLeak(s: State)
  {
    forall p | p in s.heap.live :: exists i :: i in s.objs && s.objs[i].owns && s.objs[i].data == p
  }

  /** The table's entries are the live traced tensors, each under its own slot. */
  ghost predicate Tracked(s: State)
  {
    && (forall k | k in s.table :: s.table[k] in s.objs && s.objs[s.table[k]].slot == k >= 0)
    && (forall i | i in s.objs && s.objs[i].slot >= 0 :: s.objs[i].slot in s.table && s.table[s.objs[i].slot] == i)
  }

  ghost predicate Inv(s: State)
  {
    Storage(s) && SingleOwner(s) && NoLeak(s) && Tracked(s) && s.heap.faults == 0
  }

  // ---- Primitive changes ----

  /** A tensor that owns nothing and stands for nothing comes to life. */
  function Add(s: State, i: nat, f: Fields): State
  {
    s.(objs := s.objs[i := f])
  }

  /** A tensor stops standing for its slot. */
  function Untrack(s: State, i: nat): State
    requires i in s.objs
  {
    var f := s.objs[i];
    State(s.objs[i := f.(slot := -1)], s.heap, if f.slot >= 0 then Retarget(s.table, f.slot, i, None) else s.table)
  }

  /** A tensor without storage starts to stand for a new slot. */
  function Track(s: State, i: nat, slot: int): State
    requires i in s.objs
  {
    State(s.objs[i := s.objs[i].(slot := slot)], s.heap, s.table[slot := i])
  }

  /** `release_`. */
  function Release(s: State, i: nat): State
    requires i in s.objs
  {
    State(s.objs[i := Released(s.objs[i])], ReleaseHeap(s.objs[i], s.heap), s.table)
  }

  /** A tensor that owns nothing takes everything `from` has. */
  function Transfer(s: State, to: nat, from: nat): State
    requires from in s.objs
  {
    var f := s.objs[from];
    State(s.objs[from := MovedFrom(f)][to := f], s.heap,
      if f.slot >= 0 then Retarget(s.table, f.slot, from, Some(to)) else s.table)
  }

  /** A tensor and the heap replaced together, as `empty_on` and `resize` do. */
  function Put(s: State, i: nat, r: (Fields, Heap)): State
  {
    State(s.objs[i := r.0], r.1, s.table)
  }

  function Remove(s: State, i: nat): State
  {
    s.(objs := s.objs - {i})
  }

  /** Neither owner nor traced. */
  predicate Idle(f: Fields) { !f.owns && f.cap == 0 && f.slot < 0 }

  /** Untraced, with no storage of its own or anyone's. */
  predicate Hollow(f: Fields) { Idle(f) && f.data == 0 }

  // ---- Primitive changes keep the invariant ----

  lemma AddKeeps(s: State, i: nat, f: Fields)
    requires Inv(s) && i !in s.objs && Idle(f)
    ensures Inv(Add(s, i, f))
  {
    var s' := Add(s, i, f);
    forall p | p in s'.heap.live ensures exists j :: j in s'.objs && s'.objs[j].owns && s'.objs[j].data == p {
      var j :| j in s.objs && s.objs[j].owns && s.objs[j].data == p;
      assert j in s'.objs && s'.objs[j] == s.objs[j];
    }
  }

  /** The two states differ in which slots tensors stand for. */
  ghost predicate Reslotted(s: State, s': State)
  {
    && s'.heap == s.heap && s'.objs.Keys == s.objs.Keys
    && forall i | i in s.objs :: s'.objs[i] == s.objs[i].(slot := s'.objs[i].slot)
  }

  lemma ReslottedOwners(s: State, s': State)
    requires SingleOwner(s) && NoLeak(s) && Reslotted(s, s')
    ensures SingleOwner(s') && NoLeak(s')
  {
    forall p | p in s'.heap.live ensures exists j :: j in s'.objs && s'.objs[j].owns && s'.objs[j].data == p {
      var j :| j in s.objs && s.objs[j].owns && s.objs[j].data == p;
      assert j in s'.objs && s'.objs[j].owns && s'.objs[j].data == p;
    }
  }

  lemma SlotSound(f: Fields, h: Heap, slot: int)
    requires Sound(f, h) && (slot >= 0 ==> !f.owns && f.data == 0)
    ensures Sound(f.(slot := slot), h)
  {
  }

  lemma ReslottedStorage(s: State, s': State, i: nat)
    requires Storage(s) && Reslotted(s, s') && i in s.objs
    requires forall j | j in s.objs && j != i :: s'.objs[j] == s.objs[j]
    requires s'.objs[i].slot >= 0 ==> Hollow(s.objs[i])
    ensures Storage(s')
  {
    forall j | j in s'.objs ensures Sound(s'.objs[j], s'.heap) {
      assert Sound(s.objs[j], s.heap);
      if j == i { SlotSound(s.objs[i], s.heap, s'.objs[i].slot); }
    }
  }

  lemma UntrackTracked(s: State, i: nat)
    requires Tracked(s) && i in s.objs
    ensures Tracked(Untrack(s, i))
  {
  }

  lemma UntrackKeeps(s: State, i: nat)
    requires Inv(s) && i in s.objs
    ensures Inv(Untrack(s, i)) && Untrack(s, i).objs[i].slot < 0
  {
    ReslottedStorage(s, Untrack(s, i), i);
    ReslottedOwners(s, Untrack(s, i));
    UntrackTracked(s, i);
  }

  lemma TrackTracked(s: State, i: nat, slot: int)
    requires Tracked(s) && i in s.objs && s.objs[i].slot < 0 && slot >= 0 && slot !in s.table
    ensures Tracked(Track(s, i, slot))
  {
  }

  lemma TrackKeeps(s: State, i: nat, slot: int)
    requires Inv(s) && i in s.objs && Hollow(s.objs[i]) && slot >= 0 && slot !in s.table
    ensures Inv(Track(s, i, slot))
  {
    ReslottedStorage(s, Track(s, i, slot), i);
    ReslottedOwners(s, Track(s, i, slot));
    TrackTracked(s, i, slot);
  }

  /** A tensor whose block is as it was is as sound as it was. */
  lemma StillSound(f: Fields, h: Heap, h': Heap)
    requires Sound(f, h) && (f.owns ==> f.data in h'.live && h'.live[f.data] == h.live[f.data])
    ensures Sound(f, h')
  {
  }

  lemma ReleaseStorage(s: State, i: nat)
    requires Storage(s) && SingleOwner(s) && i in s.objs
    ensures Storage(Release(s, i))
  {
    var s', f := Release(s, i), s.objs[i];
    assert Sound(f, s.heap);
    forall j | j in s'.objs ensures Sound(s'.objs[j], s'.heap) {
      assert Sound(s.objs[j], s.heap);
      if j != i { StillSound(s.objs[j], s.heap, s'.heap); }
    }
  }

  lemma ReleaseOwners(s: State, i: nat)
    requires SingleOwner(s) && NoLeak(s) && i in s.objs && Sound(s.objs[i], s.heap)
    ensures SingleOwner(Release(s, i)) && NoLeak(Release(s, i))
  {
    var s' := Release(s, i);
    forall p | p in s'.heap.live ensures exists j :: j in s'.objs && s'.objs[j].owns && s'.objs[j].data == p {
      var j :| j in s.objs && s.objs[j].owns && s.objs[j].data == p;
      assert j in s'.objs && s'.objs[j] == s.objs[j];
    }
  }

  /** Releasing frees exactly what the tensor owned; releasing a view frees nothing. */
  lemma ReleaseKeeps(s: State, i: nat)
    requires Inv(s) && i in s.objs
    ensures var s' := Release(s, i);
      && Inv(s') && (s.objs[i].slot < 0 ==> Idle(s'.objs[i]))
      && s'.heap.live == if s.objs[i].owns then s.heap.live - {s.objs[i].data} else s.heap.live
  {
    assert Sound(s.objs[i], s.heap);
    ReleaseStorage(s, i);
    ReleaseOwners(s, i);
  }

  lemma TransferStorage(s: State, to: nat, from: nat)
    requires Storage(s) && to in s.objs && from in s.objs && to != from
    ensures Storage(Transfer(s, to, from))
  {
    var s' := Transfer(s, to, from);
    forall j | j in s'.objs ensures Sound(s'.objs[j], s'.heap) {
      assert Sound(s.objs[if j == to then from else j], s.heap);
    }
  }

  lemma TransferOwners(s: State, to: nat, from: nat)
    requires SingleOwner(s) && NoLeak(s) && to in s.objs && from in s.objs && to != from && !s.objs[to].owns
    ensures SingleOwner(Transfer(s, to, from)) && NoLeak(Transfer(s, to, from))
  {
    var s' := Transfer(s, to, from);
    forall p | p in s'.heap.live ensures exists j :: j in s'.objs && s'.objs[j].owns && s'.objs[j].data == p {
      var j :| j in s.objs && s.objs[j].owns && s.objs[j].data == p;
      var j' := if j == from then to else j;
      assert j' in s'.objs && s'.objs[j'].owns && s'.objs[j'].data == p;
    }
  }

  lemma TransferTracked(s: State, to: nat, from: nat)
    requires Tracked(s) && to in s.objs && from in s.objs && to != from && s.objs[to].slot < 0
    ensures Tracked(Transfer(s, to, from))
  {
  }

  lemma TransferKeeps(s: State, to: nat, from: nat)
    requires Inv(s) && to in s.objs && from in s.objs && to != from && Idle(s.objs[to])
    ensures var s' := Transfer(s, to, from); Inv(s') && Idle(s'.objs[from])
  {
    TransferStorage(s, to, from);
    TransferOwners(s, to, from);
    TransferTracked(s, to, from);
  }

  /** What an idle tensor's replacement may be: nothing allocated, or one fresh block that it owns. */
  predicate Grown(f: Fields, h: Heap, h': Heap)
  {
    && h'.faults == h.faults && f.slot < 0
    && if f.owns then f.data !in h.live && h'.live == h.live[f.data := Block(f.device, f.cap)] && Sound(f, h')
       else h'.live == h.live && f.cap == 0
  }

  lemma PutStorage(s: State, i: nat, r: (Fields, Heap))
    requires Storage(s) && i in s.objs && Idle(s.objs[i]) && Grown(r.0, s.heap, r.1)
    ensures Storage(Put(s, i, r))
  {
    var s' := Put(s, i, r);
    forall j | j in s'.objs ensures Sound(s'.objs[j], s'.heap) {
      assert Sound(s.objs[j], s.heap);
      if j != i { StillSound(s.objs[j], s.heap, s'.heap); }
    }
  }

  lemma PutOwners(s: State, i: nat, r: (Fields, Heap))
    requires Inv(s) && i in s.objs && Idle(s.objs[i]) && Grown(r.0, s.heap, r.1)
    ensures SingleOwner(Put(s, i, r)) && NoLeak(Put(s, i, r))
  {
    var s' := Put(s, i, r);
    assert forall j | j in s.objs :: Sound(s.objs[j], s.heap);
    forall p | p in s'.heap.live ensures exists j :: j in s'.objs && s'.objs[j].owns && s'.objs[j].data == p {
      if p in s.heap.live {
        var j :| j in s.objs && s.objs[j].owns && s.objs[j].data == p;
        assert j in s'.objs && s'.objs[j] == s.objs[j];
      } else {
        assert i in s'.objs && s'.objs[i].owns && s'.objs[i].data == p;
      }
    }
  }

  lemma PutKeeps(s: State, i: nat, r: (Fields, Heap))
    requires Inv(s) && i in s.objs && Idle(s.objs[i]) && Grown(r.0, s.heap, r.1)
    ensures Inv(Put(s, i, r))
  {
    PutStorage(s, i, r);
    PutOwners(s, i, r);
  }

  /** A new shape that fits the storage it keeps. */
  lemma ReshapeKeeps(s: State, i: nat, f: Fields)
    requires Inv(s) && i in s.objs && f == Reshaped(s.objs[i], f.rows, f.cols, f.dtype)
    requires Bytes(f).Some? && Bytes(f).value <= f.cap
    ensures Inv(Put(s, i, (f, s.heap)))
  {
    var s' := Put(s, i, (f, s.heap));
    ReshapeOwners(s, i, f);
    forall j | j in s'.objs ensures Sound(s'.objs[j], s'.heap) {
      assert Sound(s.objs[j], s.heap);
    }
  }

  lemma ReshapeOwners(s: State, i: nat, f: Fields)
    requires SingleOwner(s) && NoLeak(s) && i in s.objs && f == Reshaped(s.objs[i], f.rows, f.cols, f.dtype)
    ensures SingleOwner(Put(s, i, (f, s.heap))) && NoLeak(Put(s, i, (f, s.heap)))
  {
    var s' := Put(s, i, (f, s.heap));
    forall p | p in s'.heap.live ensures exists j :: j in s'.objs && s'.objs[j].owns && s'.objs[j].data == p {
      var j :| j in s.objs && s.objs[j].owns && s.objs[j].data == p;
      assert j in s'.objs && s'.objs[j].owns && s'.objs[j].data == p;
    }
  }

  lemma RemoveKeeps(s: State, i: nat)
    requires Inv(s) && i in s.objs && Idle(s.objs[i])
    ensures Inv(Remove(s, i))
  {
    var s' := Remove(s, i);
    forall p | p in s'.heap.live ensures exists j :: j in s'.objs && s'.objs[j].owns && s'.objs[j].data == p {
      var j :| j in s.objs && s.objs[j].owns && s.objs[j].data == p;
      assert j in s'.objs && s'.objs[j] == s.objs[j];
    }
  }

  // ---- Operations ----

  /**
   What a program may do. A device is the one the code resolved, an address the one the allocator chose; `t`
   names the temporary of a copy. A traced intermediate gets a slot no live tensor has.
   */
  datatype Op =
    | Default(i: nat)
    | Empty(i: nat, device: Device, rows: int, cols: int, dtype: Dtype, address: nat)
    | View(i: nat, device: Device, data: nat, rows: int, cols: int, dtype: Dtype)
    | MoveConstruct(i: nat, from: nat)
    | MoveAssign(to: nat, from: nat)
    | CopyConstruct(i: nat, from: nat, t: nat, device: Device, address: nat)
    | CopyAssign(to: nat, from: nat, t: nat, device: Device, address: nat)
    | ResizeTo(i: nat, rows: int, cols: int, dtype: Dtype, device: Device, address: nat)
    | Destroy(i: nat)
    | Record(i: nat, slot: int, device: Device, rows: int, cols: int, dtype: Dtype)
    | RecordInPlace(i: nat, slot: int)
    | Materialize(slot: int, t: nat, device: Device, rows: int, cols: int, dtype: Dtype, address: nat)
    | ReleaseTracked

  /** The allocator never hands out an address in use, objects are constructed once and used while they live. */
  predicate Enabled(s: State, op: Op)
  {
    match op
    case Default(i) => i !in s.objs
    case Empty(i, _, _, _, _, p) => i !in s.objs && p != 0 && p !in s.heap.live
    case View(i, _, _, _, _, _) => i !in s.objs
    case MoveConstruct(i, from) => i !in s.objs && from in s.objs
    case MoveAssign(to, from) => to in s.objs && from in s.objs
    case CopyConstruct(i, from, t, _, p) =>
      i !in s.objs && from in s.objs && t !in s.objs && t != i && p != 0 && p !in s.heap.live
    case CopyAssign(to, from, t, _, p) => to in s.objs && from in s.objs && t !in s.objs && p != 0 && p !in s.heap.live
    case ResizeTo(i, _, _, _, _, p) => i in s.objs && p != 0 && p !in s.heap.live
    case Destroy(i) => i in s.objs
    case Record(i, slot, _, _, _, _) => i !in s.objs && slot >= 0 && slot !in s.table
    case RecordInPlace(i, slot) => i in s.objs && slot >= 0 && slot !in s.table
    case Materialize(slot, t, _, _, _, _, p) => t !in s.objs && p != 0 && p !in s.heap.live
    case ReleaseTracked => true
  }

  /** The destructor. */
  function DoDestroy(s: State, i: nat): State
    requires i in s.objs
  {
    Remove(Release(Untrack(s, i), i), i)
  }

  /** Move assignment; onto itself it does nothing. */
  function DoMoveAssign(s: State, to: nat, from: nat): State
    requires to in s.objs && from in s.objs
  {
    if to == from then s else Transfer(Release(Untrack(s, to), to), to, from)
  }

  /** Assignment from a fresh tensor `r`: the temporary `t` is built, moved from and destroyed. */
  function AssignFresh(s: State, to: nat, t: nat, r: (Fields, Heap)): State
    requires to in s.objs && t !in s.objs
  {
    DoDestroy(DoMoveAssign(Put(Add(s, t, EMPTY), t, r), to, t), t)
  }

  function DoResize(s: State, op: Op): State
    requires op.ResizeTo? && op.i in s.objs
  {
    var r := Resize(s.objs[op.i], s.heap, op.rows, op.cols, op.dtype, op.device, op.address);
    if r.None? then s else Put(s, op.i, r.value)
  }

  /** An in-place operation: a traced intermediate stands for the new node from here on, an ordinary tensor stays as it is. */
  function DoRecordInPlace(s: State, i: nat, slot: int): State
    requires i in s.objs
  {
    var was := s.objs[i].slot;
    if was < 0 then s else State(s.objs[i := s.objs[i].(slot := slot)], s.heap, (s.table - {was})[slot := i])
  }

  /** The trace ends with a live value in `slot`: its tensor becomes an ordinary one and gets a buffer. */
  function DoMaterialize(s: State, op: Op): State
    requires op.Materialize? && op.t !in s.objs
  {
    var r := EmptyOn(s.heap, op.device, op.rows, op.cols, op.dtype, op.address);
    if op.slot !in s.table || s.table[op.slot] !in s.objs || r.None? || r.value.0.data == 0 then s
    else
      var held := s.table[op.slot];
      AssignFresh(s.(table := s.table - {op.slot}, objs := s.objs[held := s.objs[held].(slot := -1)]), held, op.t, r.value)
  }

  /** What is still traced becomes an empty tensor. */
  function DoReleaseTracked(s: State): State
  {
    State(map i | i in s.objs :: if s.objs[i].slot >= 0 then s.objs[i].(slot := -1, rows := 0, cols := 0) else s.objs[i],
      s.heap, map[])
  }

  /** One operation; one that throws changes nothing. */
  function Step(s: State, op: Op): State
    requires Enabled(s, op)
  {
    match op
    case Default(i) => Add(s, i, EMPTY)
    case Empty(i, d, rows, cols, dt, p) =>
      var r := EmptyOn(s.heap, d, rows, cols, dt, p);
      if r.None? then s else Put(Add(s, i, EMPTY), i, r.value)
    case View(i, d, data, rows, cols, dt) =>
      var f := ViewOn(d, data, rows, cols, dt);
      if f.None? then s else Add(s, i, f.value)
    case MoveConstruct(i, from) => Transfer(Add(s, i, EMPTY), i, from)
    case MoveAssign(to, from) => DoMoveAssign(s, to, from)
    case CopyConstruct(i, from, t, d, p) =>
      var r := Clone(s.objs[from], s.heap, d, p);
      if r.None? then s else AssignFresh(Add(s, i, EMPTY), i, t, r.value)
    case CopyAssign(to, from, t, d, p) =>
      var r := Clone(s.objs[from], s.heap, d, p);
      if to == from || r.None? then s else AssignFresh(s, to, t, r.value)
    case ResizeTo(_, _, _, _, _, _) => DoResize(s, op)
    case Destroy(i) => DoDestroy(s, i)
    case Record(i, slot, d, rows, cols, dt) =>
      Track(Add(s, i, Fields(0, rows, cols, dt, d, -1, false, 0)), i, slot)
    case RecordInPlace(i, slot) => DoRecordInPlace(s, i, slot)
    case Materialize(_, _, _, _, _, _, _) => DoMaterialize(s, op)
    case ReleaseTracked => DoReleaseTracked(s)
  }

  // ---- Operations keep the invariant ----

  lemma DestroyKeeps(s: State, i: nat)
    requires Inv(s) && i in s.objs
    ensures Inv(DoDestroy(s, i))
  {
    UntrackKeeps(s, i);
    var u := Untrack(s, i);
    ReleaseKeeps(u, i);
    RemoveKeeps(Release(u, i), i);
  }

  lemma MoveAssignKeeps(s: State, to: nat, from: nat)
    requires Inv(s) && to in s.objs && from in s.objs
    ensures Inv(DoMoveAssign(s, to, from))
  {
    if to != from {
      UntrackKeeps(s, to);
      var u := Untrack(s, to);
      ReleaseKeeps(u, to);
      TransferKeeps(Release(u, to), to, from);
    }
  }

  lemma AssignFreshKeeps(s: State, to: nat, t: nat, r: (Fields, Heap))
    requires Inv(s) && to in s.objs && t !in s.objs && Grown(r.0, s.heap, r.1)
    ensures Inv(AssignFresh(s, to, t, r))
  {
    AddKeeps(s, t, EMPTY);
    PutKeeps(Add(s, t, EMPTY), t, r);
    var a := Put(Add(s, t, EMPTY), t, r);
    MoveAssignKeeps(a, to, t);
    DestroyKeeps(DoMoveAssign(a, to, t), t);
  }

  lemma EmptyOnGrows(h: Heap, d: Device, rows: int, cols: int, dt: Dtype, p: nat)
    requires p != 0 && p !in h.live
    ensures var r := EmptyOn(h, d, rows, cols, dt, p); r.Some? ==> Grown(r.value.0, h, r.value.1)
  {
    var r := EmptyOn(h, d, rows, cols, dt, p);
    if r.Some? { ShapeHasBytes(dt, rows, cols, r.value.0); }
  }

  /** A resize that needs a bigger buffer gets a fresh one behind the released heap. */
  lemma ResizeGrows(f: Fields, h: Heap, rows: int, cols: int, dt: Dtype, d: Device, p: nat)
    requires f.slot < 0 && p != 0 && p !in h.live
    ensures var r := Resize(f, h, rows, cols, dt, d, p);
      r.Some? && (!f.owns || r.value.1 != h) && r.value != (f, h) ==> Grown(r.value.0, ReleaseHeap(f, h), r.value.1)
  {
    var r := Resize(f, h, rows, cols, dt, d, p);
    if r.Some? && r.value != (f, h) { ShapeHasBytes(dt, rows, cols, r.value.0); }
  }

  /** Any other resize keeps the buffer, which the new shape fits. */
  lemma ResizeReshapes(f: Fields, h: Heap, rows: int, cols: int, dt: Dtype, d: Device, p: nat)
    requires f.owns && Sound(f, h)
    ensures var r := Resize(f, h, rows, cols, dt, d, p);
      r.Some? && r.value.1 == h ==>
        var g := r.value.0; g == Reshaped(f, g.rows, g.cols, g.dtype) && Bytes(g).Some? && Bytes(g).value <= g.cap
  {
    var r := Resize(f, h, rows, cols, dt, d, p);
    if r.Some? && r.value.1 == h && r.value != (f, h) { ShapeHasBytes(dt, rows, cols, r.value.0); }
  }

  lemma ReplaceKeeps(s: State, i: nat, r: (Fields, Heap))
    requires Inv(s) && i in s.objs && s.objs[i].slot < 0 && Grown(r.0, ReleaseHeap(s.objs[i], s.heap), r.1)
    ensures Inv(Put(s, i, r))
  {
    ReleaseKeeps(s, i);
    PutKeeps(Release(s, i), i, r);
    assert Put(Release(s, i), i, r) == Put(s, i, r);
  }

  lemma ResizeKeeps(s: State, op: Op)
    requires Inv(s) && op.ResizeTo? && Enabled(s, op)
    ensures Inv(DoResize(s, op))
  {
    var f := s.objs[op.i];
    assert Sound(f, s.heap);
    var r := Resize(f, s.heap, op.rows, op.cols, op.dtype, op.device, op.address);
    if r.Some? && r.value == (f, s.heap) {
      assert s.objs[op.i := f] == s.objs;
    } else if r.Some? && f.owns && r.value.1 == s.heap {
      ResizeReshapes(f, s.heap, op.rows, op.cols, op.dtype, op.device, op.address);
      ReshapeKeeps(s, op.i, r.value.0);
    } else if r.Some? {
      ResizeGrows(f, s.heap, op.rows, op.cols, op.dtype, op.device, op.address);
      ReplaceKeeps(s, op.i, r.value);
    }
  }

  lemma MaterializeKeeps(s: State, op: Op)
    requires Inv(s) && op.Materialize? && Enabled(s, op)
    ensures Inv(DoMaterialize(s, op))
  {
    var r := EmptyOn(s.heap, op.device, op.rows, op.cols, op.dtype, op.address);
    if op.slot in s.table && r.Some? && r.value.0.data != 0 {
      var held := s.table[op.slot];
      UntrackKeeps(s, held);
      EmptyOnGrows(s.heap, op.device, op.rows, op.cols, op.dtype, op.address);
      AssignFreshKeeps(Untrack(s, held), held, op.t, r.value);
    }
  }

  lemma ReleaseTrackedKeeps(s: State)
    requires Inv(s)
    ensures Inv(DoReleaseTracked(s))
  {
    var s' := DoReleaseTracked(s);
    forall j | j in s'.objs ensures Sound(s'.objs[j], s'.heap) {
      assert Sound(s.objs[j], s.heap);
    }
    forall p | p in s'.heap.live ensures exists j :: j in s'.objs && s'.objs[j].owns && s'.objs[j].data == p {
      var j :| j in s.objs && s.objs[j].owns && s.objs[j].data == p;
      assert j in s'.objs && s'.objs[j].owns && s'.objs[j].data == p;
    }
  }

  lemma RecordInPlaceKeeps(s: State, i: nat, slot: int)
    requires Inv(s) && i in s.objs && slot >= 0 && slot !in s.table
    ensures Inv(DoRecordInPlace(s, i, slot))
  {
    if s.objs[i].slot >= 0 {
      assert Sound(s.objs[i], s.heap);
      UntrackKeeps(s, i);
      var u := Untrack(s, i);
      TrackKeeps(u, i, slot);
      assert u.objs[i := u.objs[i].(slot := slot)] == s.objs[i := s.objs[i].(slot := slot)];
    }
  }

  lemma CopyKeeps(s: State, op: Op)
    requires Inv(s) && Enabled(s, op) && (op.CopyConstruct? || op.CopyAssign?)
    ensures Inv(Step(s, op))
  {
    var f := s.objs[op.from];
    EmptyOnGrows(s.heap, op.device, f.rows, f.cols, f.dtype, op.address);
    var r := Clone(f, s.heap, op.device, op.address);
    if r.Some? {
      if op.CopyConstruct? {
        AddKeeps(s, op.i, EMPTY);
        AssignFreshKeeps(Add(s, op.i, EMPTY), op.i, op.t, r.value);
      } else if op.to != op.from {
        AssignFreshKeeps(s, op.to, op.t, r.value);
      }
    }
  }

  lemma StepKeeps(s: State, op: Op)
    requires Inv(s) && Enabled(s, op)
    ensures Inv(Step(s, op))
  {
    match op
    case Default(i) => AddKeeps(s, i, EMPTY);
    case Empty(i, d, rows, cols, dt, p) =>
      EmptyOnGrows(s.heap, d, rows, cols, dt, p);
      var r := EmptyOn(s.heap, d, rows, cols, dt, p);
      if r.Some? {
        AddKeeps(s, i, EMPTY);
        PutKeeps(Add(s, i, EMPTY), i, r.value);
      }
    case View(i, d, data, rows, cols, dt) =>
      var f := ViewOn(d, data, rows, cols, dt);
      if f.Some? { AddKeeps(s, i, f.value); }
    case MoveConstruct(i, from) =>
      AddKeeps(s, i, EMPTY);
      TransferKeeps(Add(s, i, EMPTY), i, from);
    case MoveAssign(to, from) => MoveAssignKeeps(s, to, from);
    case CopyConstruct(_, _, _, _, _) => CopyKeeps(s, op);
    case CopyAssign(_, _, _, _, _) => CopyKeeps(s, op);
    case ResizeTo(_, _, _, _, _, _) => ResizeKeeps(s, op);
    case Destroy(i) => DestroyKeeps(s, i);
    case Record(i, slot, d, rows, cols, dt) =>
      var f := Fields(0, rows, cols, dt, d, -1, false, 0);
      AddKeeps(s, i, f);
      TrackKeeps(Add(s, i, f), i, slot);
    case RecordInPlace(i, slot) => RecordInPlaceKeeps(s, i, slot);
    case Materialize(_, _, _, _, _, _, _) => MaterializeKeeps(s, op);
    case ReleaseTracked => ReleaseTrackedKeeps(s);
  }

  // ---- Runs ----

  /** A run of operations from `s`, each enabled where it happens. */
  predicate Runs(s: State, ops: seq<Op>)
    decreases |ops|
  {
    ops == [] || (Enabled(s, ops[0]) && Runs(Step(s, ops[0]), ops[1..]))
  }

  function Run(s: State, ops: seq<Op>): State
    requires Runs(s, ops)
    decreases |ops|
  {
    if ops == [] then s else Run(Step(s, ops[0]), ops[1..])
  }

  lemma {:induction false} RunKeeps(s: State, ops: seq<Op>)
    requires Inv(s) && Runs(s, ops)
    ensures Inv(Run(s, ops))
    decreases |ops|
  {
    if ops != [] {
      StepKeeps(s, ops[0]);
      RunKeeps(Step(s, ops[0]), ops[1..]);
    }
  }

  /**
   After any run from nothing: live allocations are exactly the buffers of owning tensors, one owner each, of
   the owner's device and capacity, no smaller than what `bytes` says of its shape; every free was of a live allocation through its own
   device; and each traced tensor is its slot's one entry and owns nothing.
   */
  lemma {:induction false} EveryRun(ops: seq<Op>)
    requires Runs(START, ops)
    ensures Inv(Run(START, ops))
  {
    RunKeeps(START, ops);
  }

  predicate InIntRange(f: Fields) { f.rows <= INT_MAX && f.cols <= INT_MAX }

  lemma SoundHolds(f: Fields, h: Heap, numel: int)
    requires Sound(f, h) && f.owns && InIntRange(f) && numel == f.rows * f.cols
    ensures numel >= 0 && (f.cap >= TrueBytes(f.dtype, numel) <==> f.dtype != F64 || numel < 0x2000_0000_0000_0000)
  {
    Nonnegative(f.rows, f.cols);
    assert numel % BlockSize(f.dtype) == 0;
    StorageBytesExact(f.dtype, f.rows, f.cols, numel);
    if f.dtype == F64 { assert numel / 1 == numel; }
  }

  /**
   In bytes counted without wrapping: after any run an owner's buffer holds every element of its shape, for a shape
   of two C++ ints, exactly when the tensor is not F64 or has fewer than 2^61 elements.
   */
  lemma {:induction false} OwnersHold(ops: seq<Op>, i: nat, f: Fields, numel: int)
    requires Runs(START, ops) && i in Run(START, ops).objs && f == Run(START, ops).objs[i]
    requires f.owns && InIntRange(f) && numel == f.rows * f.cols
    ensures numel >= 0 && (f.cap >= TrueBytes(f.dtype, numel) <==> f.dtype != F64 || numel < 0x2000_0000_0000_0000)
  {
    EveryRun(ops);
    assert Sound(f, Run(START, ops).heap);
    SoundHolds(f, Run(START, ops).heap, numel);
  }

  /** One call is enough for a buffer that is too small: 2^31 - 1 rows of 2^30 + 1 doubles. */
  lemma OwnerTooSmall(op: Op)
    requires op == Empty(0, CPU, 0x7FFF_FFFF, 0x4000_0001, F64, 1)
    ensures Runs(START, [op]) && 0 in Run(START, [op]).objs
    ensures var f := Run(START, [op]).objs[0];
      f.owns && f.cap == 0x1_FFFF_FFF8 && TrueBytes(F64, 0x7FFF_FFFF * 0x4000_0001) == SIZE_MAX + 1 + 0x1_FFFF_FFF8
  {
    StorageBytesWraps();
    var r := EmptyOn(START.heap, CPU, op.rows, op.cols, F64, 1);
    assert Step(START, op) == Put(Add(START, 0, EMPTY), 0, r.value);
    assert [op][1..] == [];
  }

  lemma LiveHasOwner(s: State, p: nat) returns (i: nat)
    requires NoLeak(s) && p in s.heap.live
    ensures i in s.objs
  {
    i :| i in s.objs && s.objs[i].owns && s.objs[i].data == p;
  }

  /** Once every tensor is gone nothing stays allocated. */
  lemma {:induction false} NothingLeaks(ops: seq<Op>)
    requires Runs(START, ops) && Run(START, ops).objs == map[]
    ensures Run(START, ops).heap.live == map[] && Run(START, ops).heap.faults == 0
  {
    EveryRun(ops);
    var s := Run(START, ops);
    forall p ensures p !in s.heap.live {
      if p in s.heap.live {
        var i := LiveHasOwner(s, p);
      }
    }
  }

  /** Destroying or assigning over a tensor that owns nothing, a view for one, leaves every allocation alone. */
  lemma ViewsNeverFree(s: State, i: nat, from: nat)
    requires Inv(s) && i in s.objs && !s.objs[i].owns && from in s.objs
    ensures DoDestroy(s, i).heap == s.heap && DoMoveAssign(s, i, from).heap == s.heap
  {
  }
}

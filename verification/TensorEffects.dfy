/**
 What each tensor operation does to tensors, in terms of their shapes, types, devices and blocks: the tensor it is for
 gets what was asked, and no other tensor changes.
 */
module TensorEffects {
  import opened MachineWords
  import opened Results
  import opened Dtypes
  import opened Devices
  import opened TensorStorage
  import opened TensorRuns

  // ---- One tensor ----

  /** A shape that a tensor can have: no negative dimension, and rows of whole blocks. */
  predicate Sized(dt: Dtype, rows: int, cols: int)
  {
    rows >= 0 && cols >= 0 && (cols > 0 ==> cols % BlockSize(dt) == 0)
  }

  lemma SizedIsChecked(dt: Dtype, rows: int, cols: int)
    ensures ShapeBytes(dt, rows, cols).Some? <==> Sized(dt, rows, cols)
  {
    BlocksPackElements(dt);
    if Sized(dt, rows, cols) {
      ShapeHasBytes(dt, rows, cols, EMPTY.(rows := rows, cols := cols, dtype := dt));
    }
  }

  /** An untraced tensor of that shape, type and device. */
  predicate Has(f: Fields, rows: int, cols: int, dt: Dtype, d: Device)
  {
    f.rows == rows && f.cols == cols && f.dtype == dt && f.device == d && f.slot == -1
  }

  /** The tensor owns a new block of its own size, or none if it has no bytes; the heap is otherwise as it was. */
  predicate OwnsNew(f: Fields, p: nat, h: Heap, h': Heap)
  {
    && Bytes(f).Some? && h'.faults == h.faults
    && if Bytes(f).value == 0 then f.data == 0 && !f.owns && f.cap == 0 && h' == h
       else
         && f.data == p && f.owns && f.cap == Bytes(f).value && h'.live == h.live[p := Block(f.device, f.cap)]
         && h'.count == h.count + 1 && h'.bytes == h.bytes + f.cap
  }

  /** A new tensor has what was asked for, and is refused exactly for a shape no tensor can have. */
  lemma EmptyMakes(h: Heap, d: Device, rows: int, cols: int, dt: Dtype, p: nat)
    requires p != 0
    ensures match EmptyOn(h, d, rows, cols, dt, p)
      case Some(r) => Sized(dt, rows, cols) && Has(r.0, rows, cols, dt, d) && OwnsNew(r.0, p, h, r.1)
      case None => !Sized(dt, rows, cols)
  {
    SizedIsChecked(dt, rows, cols);
    var r := EmptyOn(h, d, rows, cols, dt, p);
    if r.Some? { ShapeHasBytes(dt, rows, cols, r.value.0); }
  }

  /** A clone has the original's shape and type, and is refused exactly for a traced intermediate or a shape no tensor can have. */
  lemma CloneMakes(f: Fields, h: Heap, d: Device, p: nat)
    requires p != 0
    ensures match Clone(f, h, d, p)
      case Some(r) => f.slot < 0 && Has(r.0, f.rows, f.cols, f.dtype, d) && OwnsNew(r.0, p, h, r.1)
      case None => f.slot >= 0 || !Sized(f.dtype, f.rows, f.cols)
    ensures f.slot >= 0 || !Sized(f.dtype, f.rows, f.cols) ==> Clone(f, h, d, p) == None
  {
    EmptyMakes(h, d, f.rows, f.cols, f.dtype, p);
  }

  /** A view is of the memory and shape given, and owns nothing. */
  lemma ViewMakes(d: Device, data: nat, rows: int, cols: int, dt: Dtype)
    ensures match ViewOn(d, data, rows, cols, dt)
      case Some(f) => Sized(dt, rows, cols) && Has(f, rows, cols, dt, d) && f.data == data && !f.owns && f.cap == 0
      case None => !Sized(dt, rows, cols)
  {
    BlocksPackElements(dt);
  }

  /** A resize is refused for a traced intermediate, a shape no tensor can have, and a view that would have to change. */
  predicate Resizable(f: Fields, rows: int, cols: int, dt: Dtype)
  {
    && f.slot < 0 && Sized(dt, rows, cols)
    && (f.owns || f.data == 0 || (rows == f.rows && cols == f.cols && dt == f.dtype))
  }

  /** The bytes of a tensor reshaped. */
  function Wanted(f: Fields, rows: int, cols: int, dt: Dtype): Option<nat>
  {
    Bytes(Reshaped(f, rows, cols, dt))
  }

  /** What a resize leaves: the shape asked for, in the old block if that is big enough, else in a new one. */
  predicate Resized(f: Fields, h: Heap, rows: int, cols: int, dt: Dtype, d: Device, p: nat, g: Fields, h': Heap)
  {
    && g.rows == rows && g.cols == cols && g.dtype == dt && g.slot == f.slot
    && if f.data != 0 && (!f.owns || (Wanted(f, rows, cols, dt).Some? && Wanted(f, rows, cols, dt).value <= f.cap))
       then g.data == f.data && g.device == f.device && g.owns == f.owns && g.cap == f.cap && h' == h
       else g.device == d && OwnsNew(g, p, ReleaseHeap(f, h), h')
  }

  lemma SameBytes(f: Fields, g: Fields)
    requires f.rows == g.rows && f.cols == g.cols && f.dtype == g.dtype
    ensures Bytes(f) == Bytes(g)
  {
  }

  lemma ResizeMakes(f: Fields, h: Heap, rows: int, cols: int, dt: Dtype, d: Device, p: nat)
    requires p != 0 && Sound(f, h)
    ensures match Resize(f, h, rows, cols, dt, d, p)
      case Some(r) => Resizable(f, rows, cols, dt) && Resized(f, h, rows, cols, dt, d, p, r.0, r.1)
      case None => !Resizable(f, rows, cols, dt)
  {
    SizedIsChecked(dt, rows, cols);
    BlocksPackElements(dt);
    var r := Resize(f, h, rows, cols, dt, d, p);
    if r.Some? && Sized(dt, rows, cols) {
      ShapeHasBytes(dt, rows, cols, Reshaped(f, rows, cols, dt));
      SameBytes(r.value.0, Reshaped(f, rows, cols, dt));
    }
  }

  // ---- Operations in a run ----

  /** Tensor `i` is now `f`, and the others are what they were. */
  predicate Became(s: State, i: nat, f: Fields, s': State)
  {
    s'.objs == s.objs[i := f]
  }

  /** A fresh tensor assigned through a temporary that is gone afterwards: the target is that tensor, its old block freed. */
  lemma AssignedFresh(s: State, to: nat, t: nat, r: (Fields, Heap))
    requires to in s.objs && t !in s.objs && r.0.slot == -1
    ensures var s' := AssignFresh(s, to, t, r);
      && Became(s, to, r.0, s') && s'.heap == ReleaseHeap(s.objs[to], r.1)
      && s'.table == if s.objs[to].slot >= 0 then Retarget(s.table, s.objs[to].slot, to, None) else s.table
  {
    var a := Put(Add(s, t, EMPTY), t, r);
    var m := DoMoveAssign(a, to, t);
    assert a.objs == s.objs[t := r.0];
    assert m.objs == s.objs[to := r.0][t := MovedFrom(r.0)];
    assert DoDestroy(m, t).objs == s.objs[to := r.0];
  }

  /** The tensor a copy is made into. */
  function CopyTarget(op: Op): nat
    requires op.CopyConstruct? || op.CopyAssign?
  {
    if op.CopyConstruct? then op.i else op.to
  }

  /** Copies of a tensor have its shape and type; the source and all other tensors are unchanged. */
  predicate Copied(s: State, from: nat, to: nat, d: Device, s': State)
    requires from in s.objs
  {
    && to in s'.objs && Has(s'.objs[to], s.objs[from].rows, s.objs[from].cols, s.objs[from].dtype, d)
    && Became(s, to, s'.objs[to], s')
    && (s'.objs[to].owns ==> s'.objs[to].data in s'.heap.live && s'.heap.live[s'.objs[to].data] == Block(d, s'.objs[to].cap))
    && Bytes(s'.objs[to]).Some? && s'.objs[to].cap == Bytes(s'.objs[to]).value && s'.objs[to].owns == (s'.objs[to].cap > 0)
  }

  lemma OwnsNewOwns(f: Fields, p: nat, h: Heap, h': Heap)
    requires OwnsNew(f, p, h, h') && p != 0
    ensures Bytes(f).Some? && f.cap == Bytes(f).value && f.owns == (f.cap > 0)
    ensures f.owns ==> f.data == p && p in h'.live && h'.live[p] == Block(f.device, f.cap)
  {
  }

  /** Freeing another tensor's block leaves a new block alone. */
  lemma ReleaseLeaves(f: Fields, h: Heap, p: nat)
    requires p in h.live && f.data != p
    ensures p in ReleaseHeap(f, h).live && ReleaseHeap(f, h).live[p] == h.live[p]
  {
  }

  lemma CopyMakes(s: State, from: nat, to: nat, t: nat, d: Device, p: nat, r: (Fields, Heap))
    requires Inv(s) && from in s.objs && to in s.objs && t !in s.objs && p != 0 && p !in s.heap.live
    requires Clone(s.objs[from], s.heap, d, p) == Some(r)
    ensures Copied(s, from, to, d, AssignFresh(s, to, t, r))
  {
    CloneMakes(s.objs[from], s.heap, d, p);
    AssignedFresh(s, to, t, r);
    OwnsNewOwns(r.0, p, s.heap, r.1);
    assert Sound(s.objs[to], s.heap);
    if r.0.owns && s.objs[to].owns { ReleaseLeaves(s.objs[to], r.1, p); }
  }

  /**
   A copy construction or assignment in any run: the target has the source's shape and type on the device asked for, in
   a block of its own, and no other tensor changes. It throws, changing nothing, exactly for a traced source or a shape
   no tensor can have; assigning a tensor to itself does nothing.
   */
  lemma {:induction false} CopyInRun(ops: seq<Op>, s: State, op: Op)
    requires Runs(START, ops) && s == Run(START, ops) && Enabled(s, op) && (op.CopyConstruct? || op.CopyAssign?)
    ensures var f := s.objs[op.from];
      if f.slot >= 0 || !Sized(f.dtype, f.rows, f.cols) || CopyTarget(op) == op.from then Step(s, op) == s
      else Copied(s, op.from, CopyTarget(op), op.device, Step(s, op))
  {
    EveryRun(ops);
    var f := s.objs[op.from];
    CloneMakes(f, s.heap, op.device, op.address);
    var r := Clone(f, s.heap, op.device, op.address);
    if r.Some? && CopyTarget(op) != op.from {
      if op.CopyConstruct? {
        AddKeeps(s, op.i, EMPTY);
        CopyMakes(Add(s, op.i, EMPTY), op.from, op.i, op.t, op.device, op.address, r.value);
        assert s.objs[op.i := EMPTY][op.i := r.value.0] == s.objs[op.i := r.value.0];
      } else {
        CopyMakes(s, op.from, op.to, op.t, op.device, op.address, r.value);
      }
    }
  }

  /** A new tensor in any run is what was asked for, and no other changes. */
  lemma {:induction false} EmptyInRun(ops: seq<Op>, s: State, op: Op)
    requires Runs(START, ops) && s == Run(START, ops) && Enabled(s, op) && op.Empty?
    ensures if !Sized(op.dtype, op.rows, op.cols) then Step(s, op) == s
      else
        var s' := Step(s, op);
        && op.i in s'.objs && Has(s'.objs[op.i], op.rows, op.cols, op.dtype, op.device) && Became(s, op.i, s'.objs[op.i], s')
        && OwnsNew(s'.objs[op.i], op.address, s.heap, s'.heap) && s'.table == s.table
  {
    EmptyMakes(s.heap, op.device, op.rows, op.cols, op.dtype, op.address);
    var r := EmptyOn(s.heap, op.device, op.rows, op.cols, op.dtype, op.address);
    if r.Some? { assert s.objs[op.i := EMPTY][op.i := r.value.0] == s.objs[op.i := r.value.0]; }
  }

  /** A resize in any run gives the tensor the shape asked for, in its old block if that is big enough. */
  lemma {:induction false} ResizeInRun(ops: seq<Op>, s: State, op: Op)
    requires Runs(START, ops) && s == Run(START, ops) && Enabled(s, op) && op.ResizeTo?
    ensures if !Resizable(s.objs[op.i], op.rows, op.cols, op.dtype) then Step(s, op) == s
      else
        var s' := Step(s, op);
        && Became(s, op.i, s'.objs[op.i], s') && s'.table == s.table
        && Resized(s.objs[op.i], s.heap, op.rows, op.cols, op.dtype, op.device, op.address, s'.objs[op.i], s'.heap)
  {
    EveryRun(ops);
    assert Sound(s.objs[op.i], s.heap);
    ResizeMakes(s.objs[op.i], s.heap, op.rows, op.cols, op.dtype, op.device, op.address);
  }

  /** A moved-from tensor: empty, owning and standing for nothing. */
  predicate Emptied(f: Fields, was: Fields)
  {
    f.data == 0 && f.rows == 0 && f.cols == 0 && !f.owns && f.cap == 0 && f.slot < 0 && f.dtype == was.dtype && f.device == was.device
  }

  /** What a move leaves: the target is what the source was, the source is empty, all others are as they were. */
  predicate Moved(s: State, to: nat, from: nat, s': State)
    requires from in s.objs
  {
    && to in s'.objs && from in s'.objs && Emptied(s'.objs[from], s.objs[from])
    && s'.objs[to] == s.objs[from].(slot := s'.objs[to].slot)
    && (s.objs[from].slot >= 0 ==> s'.objs[to].slot == s.objs[from].slot)
    && (s.objs[from].slot < 0 ==> s'.objs[to].slot < 0)
    && s'.objs == s.objs[to := s'.objs[to]][from := s'.objs[from]]
  }

  /** A move in any run: everything goes to the target, whose old block, and no other, is freed. */
  lemma {:induction false} MoveInRun(ops: seq<Op>, s: State, op: Op)
    requires Runs(START, ops) && s == Run(START, ops) && Enabled(s, op) && op.MoveAssign? && op.to != op.from
    ensures var s' := Step(s, op);
      && Moved(s, op.to, op.from, s')
      && s'.heap.live == if s.objs[op.to].owns then s.heap.live - {s.objs[op.to].data} else s.heap.live
  {
    EveryRun(ops);
    UntrackKeeps(s, op.to);
    ReleaseKeeps(Untrack(s, op.to), op.to);
  }

  /** A destruction in any run: the tensor is gone, its block, and no other, is freed, and all others are as they were. */
  lemma {:induction false} DestroyInRun(ops: seq<Op>, s: State, op: Op)
    requires Runs(START, ops) && s == Run(START, ops) && Enabled(s, op) && op.Destroy?
    ensures var s' := Step(s, op);
      && s'.objs == s.objs - {op.i}
      && s'.heap.live == if s.objs[op.i].owns then s.heap.live - {s.objs[op.i].data} else s.heap.live
  {
    EveryRun(ops);
    UntrackKeeps(s, op.i);
    ReleaseKeeps(Untrack(s, op.i), op.i);
  }

  /** Ending a trace with a live value: the tensor standing for it owns a block of the value's shape and stands for nothing. */
  lemma {:induction false} MaterializeInRun(ops: seq<Op>, s: State, op: Op)
    requires Runs(START, ops) && s == Run(START, ops) && Enabled(s, op) && op.Materialize?
    ensures var s' := Step(s, op);
      if op.slot !in s.table || !Sized(op.dtype, op.rows, op.cols) || StorageBytes(op.dtype, op.rows * op.cols) == Some(0) then s' == s
      else
        var i := s.table[op.slot];
        && i in s'.objs && Has(s'.objs[i], op.rows, op.cols, op.dtype, op.device) && Became(s, i, s'.objs[i], s')
        && OwnsNew(s'.objs[i], op.address, s.heap, s'.heap) && s'.table == s.table - {op.slot}
  {
    EveryRun(ops);
    EmptyMakes(s.heap, op.device, op.rows, op.cols, op.dtype, op.address);
    var r := EmptyOn(s.heap, op.device, op.rows, op.cols, op.dtype, op.address);
    if op.slot in s.table && r.Some? && r.value.0.data != 0 {
      var i := s.table[op.slot];
      var u := s.(table := s.table - {op.slot}, objs := s.objs[i := s.objs[i].(slot := -1)]);
      assert Sound(s.objs[i], s.heap);
      AssignedFresh(u, i, op.t, r.value);
      assert s.objs[i := s.objs[i].(slot := -1)][i := r.value.0] == s.objs[i := r.value.0];
    }
  }

  /**
   Recording a value makes a tensor of its shape without storage, which stands for its slot; recording in place moves a
   traced tensor to the new slot.
   */
  lemma {:induction false} RecordInRun(ops: seq<Op>, s: State, op: Op)
    requires Runs(START, ops) && s == Run(START, ops) && Enabled(s, op) && (op.Record? || op.RecordInPlace?)
    ensures var s' := Step(s, op);
      s'.heap == s.heap
      && if op.Record? then
           && s'.objs == s.objs[op.i := Fields(0, op.rows, op.cols, op.dtype, op.device, op.slot, false, 0)]
           && s'.table == s.table[op.slot := op.i]
         else if s.objs[op.i].slot < 0 then s' == s
         else
           && s'.objs == s.objs[op.i := s.objs[op.i].(slot := op.slot)]
           && s'.table == (s.table - {s.objs[op.i].slot})[op.slot := op.i]
  {
    if op.Record? {
      var f := Fields(0, op.rows, op.cols, op.dtype, op.device, -1, false, 0);
      assert s.objs[op.i := f][op.i := f.(slot := op.slot)] == s.objs[op.i := f.(slot := op.slot)];
    }
  }
}

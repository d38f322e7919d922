/** The tensor as the object it is: each member function updates its fields, the allocator and the trace's table in place. */
module TensorObjects {
  import opened Results
  import opened Dtypes
  import opened Devices
  import opened TensorStorage

  /** The allocators behind `detail::alloc_for`, and the trace's table of which tensor stands for which slot. */
  class Runtime {
    var heap: Heap
    var table: map<int, Tensor>

    constructor ()
      ensures heap == Heap(map[], 0, 0, 0) && table == map[]
    {
      heap := Heap(map[], 0, 0, 0);
      table := map[];
    }

    /** `backend_alloc`; the address is any that is not in use. */
    method BackendAlloc(d: Device, bytes: nat, address: nat) returns (p: nat)
      requires address != 0 && address !in heap.live
      modifies this`heap
      ensures (p, heap) == Alloc(old(heap), d, bytes, address)
    {
      if bytes == 0 { return 0; }
      heap := Heap(heap.live[address := Block(d, bytes)], heap.count + 1, heap.bytes + bytes, heap.faults);
      return address;
    }

    /** `backend_free`. */
    method BackendFree(d: Device, p: nat)
      modifies this`heap
      ensures heap == Free(old(heap), d, p)
    {
      if p == 0 { return; }
      if p in heap.live && heap.live[p].device == d {
        heap := heap.(live := heap.live - {p});
      } else {
        heap := heap.(faults := heap.faults + 1);
      }
    }

    /** `TraceContext::retarget`. */
    method RetargetSlot(slot: int, from: Tensor, to: Option<Tensor>)
      modifies this`table
      ensures table == Retarget(old(table), slot, from, to)
    {
      if slot !in table || table[slot] != from { return; }
      match to
      case Some(t) => table := table[slot := t];
      case None => table := table - {slot};
    }
  }

  class Tensor {
    var data: nat
    var rows: int
    var cols: int
    var dtype: Dtype
    var device: Device
    var slot: int
    var owns: bool
    var cap: nat

    ghost function Get(): Fields
      reads this
    {
      Fields(data, rows, cols, dtype, device, slot, owns, cap)
    }

    /** The default constructor. */
    constructor ()
      ensures Get() == EMPTY
    {
      data, rows, cols, dtype, device, slot, owns, cap := 0, 0, 0, FP32, CPU, -1, false, 0;
    }

    /** `release_`. */
    method ReleaseStorage(rt: Runtime)
      modifies this, rt`heap
      ensures Get() == Released(old(Get())) && rt.heap == ReleaseHeap(old(Get()), old(rt.heap))
    {
      if owns && data != 0 { rt.BackendFree(device, data); }
      data, owns, cap := 0, false, 0;
    }

    /** The destructor, the object's storage being gone afterwards. */
    method Destroy(rt: Runtime)
      modifies this, rt
      ensures rt.heap == ReleaseHeap(old(Get()), old(rt.heap)) && !owns && cap == 0
      ensures rt.table == if old(slot) >= 0 then Retarget(old(rt.table), old(slot), this, None) else old(rt.table)
    {
      if slot >= 0 { rt.RetargetSlot(slot, this, None); }
      ReleaseStorage(rt);
    }

    /** The move constructor. */
    constructor Move(o: Tensor, rt: Runtime)
      modifies o, rt`table
      ensures Get() == old(o.Get()) && o.Get() == MovedFrom(old(o.Get()))
      ensures rt.table == if old(o.slot) >= 0 then Retarget(old(rt.table), old(o.slot), o, Some(this)) else old(rt.table)
    {
      data, rows, cols, dtype, device := o.data, o.rows, o.cols, o.dtype, o.device;
      slot, owns, cap := o.slot, o.owns, o.cap;
      new;
      o.data, o.rows, o.cols, o.owns, o.cap := 0, 0, 0, false, 0;
      if slot >= 0 {
        o.slot := -1;
        rt.RetargetSlot(slot, o, Some(this));
      }
    }

    /** Move assignment. */
    method MoveAssign(o: Tensor, rt: Runtime)
      modifies this, o, rt
      ensures o == this ==> Get() == old(Get()) && rt.heap == old(rt.heap) && rt.table == old(rt.table)
      ensures o != this ==>
        && Get() == old(o.Get()).(slot := if old(o.slot) >= 0 then old(o.slot) else -1)
        && o.Get() == MovedFrom(old(o.Get()))
        && rt.heap == ReleaseHeap(old(Get()), old(rt.heap))
      ensures o != this ==>
        var gone := if old(slot) >= 0 then Retarget(old(rt.table), old(slot), this, None) else old(rt.table);
        rt.table == if old(o.slot) >= 0 then Retarget(gone, old(o.slot), o, Some(this)) else gone
    {
      if o == this { return; }
      if slot >= 0 { rt.RetargetSlot(slot, this, None); }
      slot := -1;
      ReleaseStorage(rt);
      data, rows, cols, dtype, device := o.data, o.rows, o.cols, o.dtype, o.device;
      owns, cap := o.owns, o.cap;
      o.data, o.rows, o.cols, o.owns, o.cap := 0, 0, 0, false, 0;
      if o.slot >= 0 {
        slot := o.slot;
        o.slot := -1;
        rt.RetargetSlot(slot, o, Some(this));
      }
    }

    /** `empty_on` on a resolved device. */
    static method EmptyTensor(rt: Runtime, d: Device, rows: int, cols: int, dt: Dtype, address: nat) returns (r: Result<Tensor>)
      requires address != 0 && address !in rt.heap.live
      modifies rt`heap
      ensures match EmptyOn(old(rt.heap), d, rows, cols, dt, address)
        case Some(v) => r.Success? && fresh(r.value) && (r.value.Get(), rt.heap) == v
        case None => r.Failure? && rt.heap == old(rt.heap)
    {
      if rows < 0 || cols < 0 { return Failure("negative dimension"); }
      if !ColsOk(dt, cols) { return Failure("cols not a multiple of block size"); }
      var n := StorageBytes(dt, rows * cols);
      if n.None? { return Failure("dtype_storage_bytes"); }
      var t := new Tensor();
      t.device, t.dtype, t.rows, t.cols := d, dt, rows, cols;
      t.data := rt.BackendAlloc(d, n.value, address);
      t.owns := t.data != 0;
      t.cap := if t.owns then n.value else 0;
      return Success(t);
    }

    /** `view`. */
    static method ViewTensor(d: Device, data: nat, rows: int, cols: int, dt: Dtype) returns (r: Result<Tensor>)
      ensures match ViewOn(d, data, rows, cols, dt)
        case Some(f) => r.Success? && fresh(r.value) && r.value.Get() == f
        case None => r.Failure?
    {
      if rows < 0 || cols < 0 { return Failure("negative dimension"); }
      if !ColsOk(dt, cols) { return Failure("cols not a multiple of block size"); }
      var t := new Tensor();
      t.device, t.dtype, t.rows, t.cols, t.data := d, dt, rows, cols, data;
      return Success(t);
    }

    /** `clone`, of a device that resolves to `d`; the copied bytes are not modelled. */
    method CloneTensor(rt: Runtime, d: Device, address: nat) returns (r: Result<Tensor>)
      requires address != 0 && address !in rt.heap.live
      modifies rt`heap
      ensures match Clone(old(Get()), old(rt.heap), d, address)
        case Some(v) => r.Success? && fresh(r.value) && (r.value.Get(), rt.heap) == v
        case None => r.Failure? && rt.heap == old(rt.heap)
    {
      if slot >= 0 { return Failure("this Tensor is a traced intermediate, not a tensor"); }
      r := EmptyTensor(rt, d, rows, cols, dtype, address);
    }

    /** Copy assignment: a clone, moved from and destroyed. */
    method CopyAssign(o: Tensor, rt: Runtime, d: Device, address: nat) returns (r: Result<()>)
      requires address != 0 && address !in rt.heap.live
      modifies this, rt
      ensures o == this ==> r.Success? && Get() == old(Get()) && rt.heap == old(rt.heap) && rt.table == old(rt.table)
      ensures o != this ==> o.Get() == old(o.Get())
      ensures o != this ==> match Clone(old(o.Get()), old(rt.heap), d, address)
        case Some(v) =>
          && r.Success? && Get() == v.0 && rt.heap == ReleaseHeap(old(Get()), v.1)
          && rt.table == if old(slot) >= 0 then Retarget(old(rt.table), old(slot), this, None) else old(rt.table)
        case None => r.Failure? && Get() == old(Get()) && rt.heap == old(rt.heap) && rt.table == old(rt.table)
    {
      if o == this { return Success(()); }
      var t := o.CloneTensor(rt, d, address);
      if t.Failure? { return Failure(t.message); }
      MoveAssign(t.value, rt);
      t.value.Destroy(rt);
      return Success(());
    }

    /** The part of `resize` that gets a bigger buffer. */
    method Reallocate(rt: Runtime, bytes: nat, d: Device, address: nat)
      requires address != 0 && address !in rt.heap.live
      modifies this, rt`heap
      ensures (Get(), rt.heap) == Reallocated(old(Get()), old(rt.heap), d, bytes, address)
    {
      ReleaseStorage(rt);
      device := d;
      data := rt.BackendAlloc(d, bytes, address);
      owns := data != 0;
      cap := if owns then bytes else 0;
    }

    /** `resize`, of a device that resolves to `d`. */
    method ResizeTensor(rt: Runtime, r: int, c: int, dt: Dtype, d: Device, address: nat) returns (res: Result<()>)
      requires address != 0 && address !in rt.heap.live
      modifies this, rt`heap
      ensures ResizeOutcome(old(Get()), old(rt.heap), Request(r, c, dt, d, address), res.Success?, Get(), rt.heap)
    {
      if slot >= 0 { return Failure("this Tensor is a traced intermediate, not a tensor"); }
      if r < 0 || c < 0 { return Failure("resize: negative dimension"); }
      if !ColsOk(dt, c) { return Failure("cols not a multiple of block size"); }
      if r == rows && c == cols && dt == dtype && data != 0 { return Success(()); }
      var n := StorageBytes(dt, r * c);
      if n.None? { return Failure("dtype_storage_bytes"); }
      if !owns && data != 0 { return Failure("resize: cannot reshape a non-owning view"); }
      if n.value > cap || !owns { Reallocate(rt, n.value, d, address); }
      ghost var g := Get();
      rows, cols, dtype := r, c, dt;
      ResizeEnds(old(Get()), old(rt.heap), Request(r, c, dt, d, address), n.value, g, rt.heap);
      return Success(());
    }
  }
}

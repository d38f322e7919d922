/**
 The fields of a tensor and the storage behind it, as values: what allocating, releasing, resizing and moving
 do to them. A pointer is a number, 0 being null; the address an allocation returns is an argument, any
 address that is not in use.
 */
module TensorStorage {
  import opened MachineWords
  import opened Results
  import opened Dtypes
  import opened Devices

  datatype Fields = Fields(
    data: nat, rows: int, cols: int, dtype: Dtype, device: Device, slot: int, owns: bool, cap: nat)

  /** A default-constructed tensor. */
  const EMPTY: Fields := Fields(0, 0, 0, FP32, CPU, -1, false, 0)

  datatype Block = Block(device: Device, size: nat)

  /**
   The live allocations, the allocation counters, and how often something was freed that was not a live
   allocation of that device.
   */
  datatype Heap = Heap(live: map<nat, Block>, count: nat, bytes: nat, faults: nat)

  // ---- Sizes ----

  /** `check_quant_cols`. */
  predicate ColsOk(dt: Dtype, cols: int)
  {
    IsQuant(dt) && cols > 0 ==> cols % BlockSize(dt) == 0
  }

  /** The checks of a shape and the bytes it takes; None is an exception. */
  function ShapeBytes(dt: Dtype, rows: int, cols: int): Option<nat>
  {
    if rows < 0 || cols < 0 || !ColsOk(dt, cols) then None else StorageBytes(dt, rows * cols)
  }

  /** `Tensor::bytes`. */
  function Bytes(f: Fields): Option<nat>
  {
    if f.rows < 0 || f.cols < 0 || (f.rows > 0 && !ColsOk(f.dtype, f.cols)) then None
    else StorageBytes(f.dtype, f.rows * f.cols)
  }

  /** A shape that passes the checks has a size, and `bytes` then agrees. */
  lemma ShapeHasBytes(dt: Dtype, rows: int, cols: int, f: Fields)
    requires rows >= 0 && cols >= 0 && ColsOk(dt, cols)
    requires f.rows == rows && f.cols == cols && f.dtype == dt
    ensures ShapeBytes(dt, rows, cols).Some? && Bytes(f) == ShapeBytes(dt, rows, cols)
  {
    if IsQuant(dt) {
      var q := cols / BlockSize(dt);
      if cols > 0 { TimesMultiple(rows, q, BlockSize(dt)); }
    } else {
      Nonnegative(rows, cols);
    }
  }

  lemma Nonnegative(a: int, b: int)
    requires a >= 0 && b >= 0
    ensures a * b >= 0
  {
  }

  lemma TimesMultiple(r: nat, q: nat, b: nat)
    requires b > 0
    ensures r * (q * b) % b == 0 && r * (q * b) >= 0
  {
    assert r * (q * b) == (r * q) * b;
    MultipleMod(r * q, b);
  }

  lemma MultipleMod(n: nat, b: nat)
    requires b > 0
    ensures n * b % b == 0
  {
    var q := n * b / b;
    QuotientRemainder(n * b, b);
    if n > q {
      Apart(n, q, b);
    } else if q > n {
      Apart(q, n, b);
    }
  }

  lemma QuotientRemainder(x: nat, b: nat)
    requires b > 0
    ensures x == x / b * b + x % b
  {
  }

  lemma Apart(hi: nat, lo: nat, b: nat)
    requires hi > lo
    ensures hi * b >= lo * b + b
  {
    Distribute(lo, hi - lo, b);
    Distribute(1, hi - lo - 1, b);
    Nonnegative(hi - lo - 1, b);
  }

  lemma Distribute(a: nat, c: nat, b: nat)
    ensures (a + c) * b == a * b + c * b
  {
  }

  // ---- Allocation ----

  /** `backend_alloc`, the allocator having chosen address `p`. */
  function Alloc(h: Heap, d: Device, n: nat, p: nat): (nat, Heap)
  {
    if n == 0 then (0, h)
    else (p, Heap(h.live[p := Block(d, n)], h.count + 1, h.bytes + n, h.faults))
  }

  /** `backend_free`. */
  function Free(h: Heap, d: Device, p: nat): Heap
  {
    if p == 0 then h
    else if p in h.live && h.live[p].device == d then h.(live := h.live - {p})
    else h.(faults := h.faults + 1)
  }

  /** `release_`. */
  function Released(f: Fields): Fields { f.(data := 0, owns := false, cap := 0) }

  function ReleaseHeap(f: Fields, h: Heap): Heap
  {
    if f.owns && f.data != 0 then Free(h, f.device, f.data) else h
  }

  /** `empty_on` on an already resolved device. */
  function EmptyOn(h: Heap, d: Device, rows: int, cols: int, dt: Dtype, p: nat): Option<(Fields, Heap)>
  {
    var n := ShapeBytes(dt, rows, cols);
    if n.None? then None
    else
      var (data, h') := Alloc(h, d, n.value, p);
      Some((Fields(data, rows, cols, dt, d, -1, data != 0, if data != 0 then n.value else 0), h'))
  }

  /** `view`. */
  function ViewOn(d: Device, data: nat, rows: int, cols: int, dt: Dtype): Option<Fields>
  {
    if rows < 0 || cols < 0 || !ColsOk(dt, cols) then None
    else Some(Fields(data, rows, cols, dt, d, -1, false, 0))
  }

  /** `clone`, `d` being what the tensor's device resolves to. */
  function Clone(f: Fields, h: Heap, d: Device, p: nat): Option<(Fields, Heap)>
  {
    if f.slot >= 0 then None else EmptyOn(h, d, f.rows, f.cols, f.dtype, p)
  }

  /** What a moved-from tensor keeps: its type and device. */
  function MovedFrom(f: Fields): Fields
  {
    f.(data := 0, rows := 0, cols := 0, owns := false, cap := 0, slot := if f.slot >= 0 then -1 else f.slot)
  }

  /** `jit_slot_retarget`: an entry that is not `from`'s is left alone. */
  function Retarget<T(==)>(table: map<int, T>, slot: int, from: T, to: Option<T>): map<int, T>
  {
    if slot !in table || table[slot] != from then table
    else if to.Some? then table[slot := to.value]
    else table - {slot}
  }

  /** What a resize is asked for; the device is the one the tensor's resolves to. */
  datatype Request = Request(rows: int, cols: int, dtype: Dtype, device: Device, address: nat)

  /** `resize`, `d` being what the tensor's device resolves to. */
  function Resize(f: Fields, h: Heap, rows: int, cols: int, dt: Dtype, d: Device, p: nat): Option<(Fields, Heap)>
  {
    if f.slot >= 0 || rows < 0 || cols < 0 || !ColsOk(dt, cols) then None
    else if rows == f.rows && cols == f.cols && dt == f.dtype && f.data != 0 then Some((f, h))
    else
      var n := StorageBytes(dt, rows * cols);
      if n.None? || (!f.owns && f.data != 0) then None
      else if n.value > f.cap || !f.owns then
        var (data, h') := Alloc(ReleaseHeap(f, h), d, n.value, p);
        Some((Fields(data, rows, cols, dt, d, f.slot, data != 0, if data != 0 then n.value else 0), h'))
      else Some((f.(rows := rows, cols := cols, dtype := dt), h))
  }

  /** A tensor whose storage is replaced by `n` bytes on `d`. */
  function Reallocated(f: Fields, h: Heap, d: Device, n: nat, p: nat): (Fields, Heap)
  {
    var (data, h') := Alloc(ReleaseHeap(f, h), d, n, p);
    (f.(device := d, data := data, owns := data != 0, cap := if data != 0 then n else 0), h')
  }

  function Reshaped(f: Fields, rows: int, cols: int, dt: Dtype): Fields { f.(rows := rows, cols := cols, dtype := dt) }

  /** The outcome of a resize of `f`: `f'` and `h'` are as `Resize` says, or as they were if it throws. */
  predicate ResizeOutcome(f: Fields, h: Heap, r: Request, ok: bool, f': Fields, h': Heap)
  {
    match Resize(f, h, r.rows, r.cols, r.dtype, r.device, r.address)
    case Some(v) => ok && (f', h') == v
    case None => !ok && f' == f && h' == h
  }

  /** A resize that throws nothing and is no repetition gets a bigger buffer first if it needs one, then the new shape. */
  lemma ResizeEnds(f: Fields, h: Heap, r: Request, n: nat, g: Fields, h': Heap)
    requires f.slot < 0 && r.rows >= 0 && r.cols >= 0 && ColsOk(r.dtype, r.cols) && (f.owns || f.data == 0)
    requires !(r.rows == f.rows && r.cols == f.cols && r.dtype == f.dtype && f.data != 0)
    requires StorageBytes(r.dtype, r.rows * r.cols) == Some(n)
    requires (g, h') == if n > f.cap || !f.owns then Reallocated(f, h, r.device, n, r.address) else (f, h)
    ensures ResizeOutcome(f, h, r, true, Reshaped(g, r.rows, r.cols, r.dtype), h')
  {
  }

  /**
   What holds of one tensor: an owner's block is live, its own, and no smaller than the size its shape is given,
   and a traced intermediate has none.
   */
  predicate Sound(f: Fields, h: Heap)
  {
    && (f.owns ==> f.data != 0 && f.data in h.live && h.live[f.data] == Block(f.device, f.cap))
    && (f.owns ==> Bytes(f).Some? && Bytes(f).value <= f.cap)
    && (!f.owns ==> f.cap == 0) && f.cap <= SIZE_MAX
    && (f.slot >= 0 ==> !f.owns && f.data == 0)
  }

  // ---- High-water mark ----

  /** A tensor and the heap after a sequence of resizes; one that throws changes nothing. */
  function ResizeAll(f: Fields, h: Heap, rs: seq<Request>): (Fields, Heap)
    decreases |rs|
  {
    if rs == [] then (f, h)
    else
      var r := Resize(f, h, rs[0].rows, rs[0].cols, rs[0].dtype, rs[0].device, rs[0].address);
      if r.None? then ResizeAll(f, h, rs[1..]) else ResizeAll(r.value.0, r.value.1, rs[1..])
  }

  /** The bytes a request asks for, 0 if it throws. */
  function Asked(r: Request): nat
  {
    var n := ShapeBytes(r.dtype, r.rows, r.cols);
    if n.None? then 0 else n.value
  }

  /** The running maximum of requested bytes, from `m`. */
  function Highest(m: nat, rs: seq<Request>): nat
    decreases |rs|
  {
    if rs == [] then m else Highest(if Asked(rs[0]) > m then Asked(rs[0]) else m, rs[1..])
  }

  /** How many requests exceed everything before them. */
  function StrictMaxima(m: nat, rs: seq<Request>): nat
    decreases |rs|
  {
    if rs == [] then 0
    else if Asked(rs[0]) > m then 1 + StrictMaxima(Asked(rs[0]), rs[1..])
    else StrictMaxima(m, rs[1..])
  }

  /** The address of the last request that exceeded everything before it, `p` if none did. */
  function LastMaximum(m: nat, rs: seq<Request>, p: nat): nat
    decreases |rs|
  {
    if rs == [] then p
    else if Asked(rs[0]) > m then LastMaximum(Asked(rs[0]), rs[1..], rs[0].address)
    else LastMaximum(m, rs[1..], p)
  }

  /** A tensor that is no view and no traced intermediate, with its size within its capacity. */
  predicate Plain(f: Fields)
  {
    && f.slot < 0 && (f.owns <==> f.data != 0) && (f.owns <==> f.cap > 0)
    && Bytes(f).Some? && Bytes(f).value <= f.cap
  }

  lemma OneResize(f: Fields, h: Heap, r: Request)
    requires Plain(f) && r.address != 0
    ensures var x := Resize(f, h, r.rows, r.cols, r.dtype, r.device, r.address);
      var (f', h') := if x.Some? then x.value else (f, h);
      && Plain(f')
      && f'.cap == (if Asked(r) > f.cap then Asked(r) else f.cap)
      && h'.count == h.count + (if Asked(r) > f.cap then 1 else 0)
      && f'.data == if Asked(r) > f.cap then r.address else f.data
  {
    if r.rows >= 0 && r.cols >= 0 && ColsOk(r.dtype, r.cols) {
      ShapeHasBytes(r.dtype, r.rows, r.cols, f.(rows := r.rows, cols := r.cols, dtype := r.dtype));
      ShapeHasBytes(r.dtype, r.rows, r.cols, EMPTY.(rows := r.rows, cols := r.cols, dtype := r.dtype));
    }
  }

  /**
   Whatever a plain tensor is resized to, in any order: its capacity is the largest size asked for so far,
   the allocation counter has risen by the number of strict new maxima, and the buffer is the one allocated
   at the last of them.
   */
  lemma {:induction false} HighWater(f: Fields, h: Heap, rs: seq<Request>)
    requires Plain(f) && forall i | 0 <= i < |rs| :: rs[i].address != 0
    ensures var (f', h') := ResizeAll(f, h, rs);
      && Plain(f') && f'.cap == Highest(f.cap, rs) && h'.count == h.count + StrictMaxima(f.cap, rs)
      && f'.data == LastMaximum(f.cap, rs, f.data)
    decreases |rs|
  {
    if rs != [] {
      OneResize(f, h, rs[0]);
      var x := Resize(f, h, rs[0].rows, rs[0].cols, rs[0].dtype, rs[0].device, rs[0].address);
      var (f', h') := if x.Some? then x.value else (f, h);
      HighWater(f', h', rs[1..]);
    }
  }

  lemma {:induction false} HighWaterFromDefault(h: Heap, rs: seq<Request>)
    requires forall i | 0 <= i < |rs| :: rs[i].address != 0
    ensures var (f', h') := ResizeAll(EMPTY, h, rs);
      && f'.cap == Highest(0, rs) && h'.count == h.count + StrictMaxima(0, rs) && f'.data == LastMaximum(0, rs, 0)
  {
    HighWater(EMPTY, h, rs);
  }
}

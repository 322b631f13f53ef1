/** The kernel's operations with the bitmap where it really is, from frame base of physical memory on: every
    alloc_frame reads and writes memory there. Apart from that they do what ImageLoading, ForkCopy, DemandPaging
    and Processes say. In a kernel they work on, ram.used plays no part: nothing reads it or changes it. */
module KernelInMemory {
  import opened Machine
  import opened Bytes
  import opened PageTables
  import opened ForkCopy
  import opened ImageLoading
  import opened Translation
  import opened DemandPaging
  import opened Processes
  import opened BitmapInMemory

  // ---- Page tables (mem/paging.c) ----

  function CreateDirectoryIn(m: Memory, base: nat, kdir: Frame): (r: (nat, Memory))
    ensures r.0 < TOTAL_FRAMES
  {
    var (d, m1) := AllocInMemory(m, base);
    if d == 0 then (0, m1) else (d, WriteFrame(m1, d, ZeroFrame()[..KERNEL_PDT_IDX] + kdir[KERNEL_PDT_IDX..]))
  }

  function EnsureTableIn(m: Memory, base: nat, d: nat, i: nat): Memory {
    if Present(Pde(m, d, i)) then m
    else
      var (t, m1) := AllocInMemory(m, base);
      if t == 0 then m1 else InstallTable(m1, t, d, i)
  }

  function MapPageIn(m: Memory, base: nat, d: nat, i: nat, j: nat, e: Word): Memory {
    var m1 := EnsureTableIn(m, base, d, i);
    if Present(Pde(m1, d, i)) then WriteWord(m1, FrameOf(Pde(m1, d, i)), j, e) else m1
  }

  // ---- Loading and copying (mem/process.c, arch/x86/syscall.c) ----

  datatype Outcome = Done(mem: Memory) | Failed(mem: Memory)

  function LoadPageIn(m: Memory, base: nat, d: nat, src: nat, size: Word, n: nat): Outcome
    requires n < PagesNeeded(size)
  {
    CopyStaysInModule(size, n);
    var (f, m1) := AllocInMemory(m, base);
    if f == 0 then Failed(m1)
    else
      var v := PageAddress(n);
      var m2 := MapPageIn(m1, base, d, DirIndex(v), TabIndex(v), Entry(f, PAGE_PRESENT + PAGE_USER + PAGE_RW));
      Done(FillPage(m2, f, src + n * FRAME_SIZE, CopySize(size, n)))
  }

  function LoadPagesIn(m: Memory, base: nat, d: nat, src: nat, size: Word, n: nat): Outcome
    requires n <= PagesNeeded(size)
    decreases PagesNeeded(size) - n
  {
    if n == PagesNeeded(size) then Done(m)
    else
      match LoadPageIn(m, base, d, src, size, n)
      case Failed(m1) => Failed(m1)
      case Done(m1) => LoadPagesIn(m1, base, d, src, size, n + 1)
  }

  function CopyPageIn(m: Memory, base: nat, t: nat, c: nat, i: nat, j: nat): Outcome {
    var (f, m1) := AllocInMemory(m, base);
    if f == 0 then Failed(m1)
    else
      var m2 := CopyFrame(m1, t, j, f);
      Done(MapPageIn(m2, base, c, i, j, Entry(f, FlagsOf(ReadWord(m2, t, j)))))
  }

  function CopyTableIn(m: Memory, base: nat, t: nat, c: nat, i: nat, j: nat): Outcome
    requires j <= ENTRIES
    decreases ENTRIES - j
  {
    if j == ENTRIES then Done(m)
    else if Present(ReadWord(m, t, j)) then
      match CopyPageIn(m, base, t, c, i, j)
      case Failed(m1) => Failed(m1)
      case Done(m1) => CopyTableIn(m1, base, t, c, i, j + 1)
    else CopyTableIn(m, base, t, c, i, j + 1)
  }

  function CopySpaceIn(m: Memory, base: nat, p: nat, c: nat, i: nat): Outcome
    requires i <= KERNEL_PDT_IDX
    decreases KERNEL_PDT_IDX - i
  {
    if i == KERNEL_PDT_IDX then Done(m)
    else if Present(Pde(m, p, i)) then
      match CopyTableIn(m, base, FrameOf(Pde(m, p, i)), c, i, 0)
      case Failed(m1) => Failed(m1)
      case Done(m1) => CopySpaceIn(m1, base, p, c, i + 1)
    else CopySpaceIn(m, base, p, c, i + 1)
  }

  // ---- Faults and stores (mem/page_frame_allocator.c) ----

  function HandleFaultIn(m: Memory, base: nat, d: nat, v: Word, error: ErrorCode): Stepped<Memory> {
    if v >= KERNEL_VIRTUAL_START || error.present then Halts
    else
      var (f, m1) := AllocInMemory(m, base);
      if f == 0 then Halts
      else
        var m2 := MapPageIn(m1, base, d, DirIndex(v), TabIndex(v), Entry(f, FaultFlags(v, error)));
        Goes(WriteFrame(m2, f, ZeroFrame()))
  }

  function TouchIn(m: Memory, base: nat, d: nat, v: Word): Stepped<Memory> {
    if Present(Pte(m, d, DirIndex(v), TabIndex(v))) then Goes(m)
    else
      match HandleFaultIn(m, base, d, v, ErrorCode(false, true, true))
      case Halts => Halts
      case Goes(m1) => if Present(Pte(m1, d, DirIndex(v), TabIndex(v))) then Goes(m1) else Halts
  }

  function StoreMappedIn(m: Memory, d: nat, v: Word, w: Word): Memory {
    WriteWord(m, FrameOf(Pte(m, d, DirIndex(v), TabIndex(v))), Offset(v) / 4, w)
  }

  function PutByteIn(m: Memory, base: nat, d: nat, v: Word, b: Byte): Stepped<Memory> {
    match TouchIn(m, base, d, v)
    case Halts => Halts
    case Goes(m1) => Goes(StoreMappedIn(m1, d, v, WithByte(WordAt(m1, d, v), v % 4, b)))
  }

  function PutWordIn(m: Memory, base: nat, d: nat, v: Word, w: Word, k: nat): Stepped<Memory>
    requires k <= 4
    decreases 4 - k
  {
    if k == 4 then Goes(m)
    else
      match PutByteIn(m, base, d, (v + k) % 0x1_0000_0000, ByteOf(w, k))
      case Halts => Halts
      case Goes(m1) => PutWordIn(m1, base, d, v, w, k + 1)
  }

  // ---- Processes ----

  function CreateProcessIn(k: Kernel, base: nat, src: nat, size: Word): (Kernel, Slot) {
    var slot := FirstFree(k.table, 0);
    if slot == MAX_PROCESSES then (k, NONE)
    else
      var k1 := TakePcb(k, slot);
      var made := CreateDirectoryIn(k1.ram.mem, base, k1.kdir);
      if made.0 == 0 then (WithMemory(k1, made.1), NONE)
      else
        var k2 := WithCr3(k1, slot, made.0);
        match LoadPagesIn(made.1, base, made.0, src, size, 0)
        case Failed(m) => (WithMemory(k2, m), NONE)
        case Done(m) => (Enqueue(SetPcb(WithMemory(k2, m), slot, LaunchUser(k2.table[slot])), slot), slot)
  }

  function CreateKernelProcessIn(k: Kernel, base: nat, entry: Word, idle: Word): (Kernel, Slot) {
    var slot := FirstFree(k.table, 0);
    if slot == MAX_PROCESSES then (k, NONE)
    else
      var k1 := TakePcb(k, slot);
      var made := CreateDirectoryIn(k1.ram.mem, base, k1.kdir);
      if made.0 == 0 then (WithMemory(k1, made.1), NONE)
      else
        var k2 := WithMemory(WithCr3(k1, slot, made.0), made.1);
        (Enqueue(SetPcb(k2, slot, LaunchKernel(k2.table[slot], entry, idle)), slot), slot)
  }

  function ForkIn(k: Kernel, base: nat): (Kernel, Word) {
    var slot := FirstFree(k.table, 0);
    if k.current == NONE || slot == MAX_PROCESSES then (k, FAILED)
    else
      var k2 := ForkTake(k, slot);
      var made := CreateDirectoryIn(k2.ram.mem, base, k2.kdir);
      if made.0 == 0 then (WithMemory(k2, made.1), FAILED)
      else
        var parent := k2.table[k2.current];
        var child := ForkPcb(k2.table[slot], parent, made.0);
        match CopySpaceIn(made.1, base, DirOf(parent), made.0, 0)
        case Failed(m) => (SetPcb(WithMemory(k2, m), slot, child), FAILED)
        case Done(m) => (Enqueue(SetPcb(WithMemory(k2, m), slot, LaunchChild(child)), slot), k.nextPid)
  }

  function WaitIn(k: Kernel, base: nat, status: Word): Stepped<(Kernel, Word)> {
    if k.current == NONE then Goes((k, FAILED))
    else
      var child := FirstZombie(k.table, k.table[k.current].pid, 0);
      if child == MAX_PROCESSES then Goes((k, FAILED))
      else if status == 0 then Goes((Reap(k, child), Reap(k, child).table[child].pid))
      else
        match PutWordIn(k.ram.mem, base, DirOf(k.table[k.current]), status, k.table[child].ctx.reg.eax, 0)
        case Halts => Halts
        case Goes(m) => Goes((Reap(WithMemory(k, m), child), Reap(k, child).table[child].pid))
  }

  function FaultIn(k: Kernel, base: nat, v: Word, write: bool, user: bool): Stepped<Kernel> {
    if k.current == NONE then Halts
    else
      var d := DirOf(k.table[k.current]);
      var error := ErrorCode(Present(Pte(k.ram.mem, d, DirIndex(v), TabIndex(v))), write, user);
      match HandleFaultIn(k.ram.mem, base, d, v, error)
      case Halts => Halts
      case Goes(m) => Goes(WithMemory(k, m))
  }

  function StoreIn(k: Kernel, base: nat, v: Word, b: Byte): Stepped<Kernel> {
    if k.current == NONE then Goes(k)
    else if v >= KERNEL_VIRTUAL_START then Halts
    else
      match PutByteIn(k.ram.mem, base, DirOf(k.table[k.current]), v, b)
      case Halts => Halts
      case Goes(m) => Goes(WithMemory(k, m))
  }

  function StepIn(k: Kernel, base: nat, op: Op): Stepped<Kernel> {
    match op
    case Create(src, size) => Goes(CreateProcessIn(k, base, src, size).0)
    case CreateKernel(entry, idle) => Goes(CreateKernelProcessIn(k, base, entry, idle).0)
    case DoFork => Goes(ForkIn(k, base).0)
    case DoExit(status) => Goes(Exit(k, status).0)
    case DoWait(status) => (match WaitIn(k, base, status) case Halts => Halts case Goes(r) => Goes(r.0))
    case DoSchedule => Goes(Schedule(k))
    case Fault(v, write, user) => FaultIn(k, base, v, write, user)
    case Store(v, b) => StoreIn(k, base, v, b)
  }

  function RunIn(k: Kernel, base: nat, ops: seq<Op>): Kernel
    decreases |ops|
  {
    if ops == [] then k
    else match StepIn(k, base, ops[0]) case Halts => k case Goes(k') => RunIn(k', base, ops[1..])
  }
}

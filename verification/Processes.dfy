/** Process control blocks, the ready list, and the process operations of mem/process.c and
    arch/x86/syscall.c as functions on the kernel's state. Each runs as one atomic step. */
module Processes {
  import opened Machine
  import opened Bytes
  import opened FramePool
  import opened PageTables
  import opened ForkCopy
  import opened ImageLoading
  import opened Translation
  import opened DemandPaging

  const MAX_PROCESSES := 64
  const USER_STACK_TOP: Word := 0xBFFF_F000

  // A pointer into the process table: a slot number, or NONE for NULL.
  const NONE := -1
  type Slot = s: int | NONE <= s < MAX_PROCESSES witness NONE

  datatype ProcessState = Free | Ready | Running | Blocked | Terminated
  datatype Registers = Registers(edi: Word, esi: Word, ebp: Word, edx: Word, ecx: Word, ebx: Word, eax: Word, esp: Word)
  datatype Stack = Stack(eip: Word, cs: Word, eflags: Word, esp: Word, ss: Word)
  datatype Context = Context(reg: Registers, stack: Stack, cr3: Word)
  datatype Pcb = Pcb(pid: Word, state: ProcessState, ctx: Context, kstack: Frame, next: Slot, parentPid: Word)

  const ZERO_CONTEXT := Context(Registers(0, 0, 0, 0, 0, 0, 0, 0), Stack(0, 0, 0, 0, 0), 0)

  function EmptyPcb(): Pcb { Pcb(0, Free, ZERO_CONTEXT, ZeroFrame(), NONE, 0) }

  type Table = t: seq<Pcb> | |t| == MAX_PROCESSES witness seq<Pcb>(MAX_PROCESSES, _ => EmptyPcb())

  datatype Kernel = Kernel(ram: Ram, kdir: Frame, table: Table, nextPid: Word, current: Slot, head: Slot)

  /** The kernel with other contents of memory. */
  function WithMemory(k: Kernel, m: Memory): Kernel { k.(ram := Ram(m, k.ram.used)) }

  function DirOf(p: Pcb): nat { p.ctx.cr3 / FRAME_SIZE }

  // ---- Slots ----

  function FirstFree(table: Table, i: nat): (r: nat)
    requires i <= MAX_PROCESSES
    ensures i <= r <= MAX_PROCESSES && (r < MAX_PROCESSES ==> table[r].state.Free?)
    ensures forall k :: i <= k < r ==> !table[k].state.Free?
    decreases MAX_PROCESSES - i
  {
    if i == MAX_PROCESSES || table[i].state.Free? then i else FirstFree(table, i + 1)
  }

  function FirstZombie(table: Table, parent: Word, i: nat): (r: nat)
    requires i <= MAX_PROCESSES
    ensures i <= r <= MAX_PROCESSES
              && (r < MAX_PROCESSES ==> table[r].state.Terminated? && table[r].parentPid == parent)
    ensures forall k :: i <= k < r ==> !(table[k].state.Terminated? && table[k].parentPid == parent)
    decreases MAX_PROCESSES - i
  {
    if i == MAX_PROCESSES || (table[i].state.Terminated? && table[i].parentPid == parent) then i
    else FirstZombie(table, parent, i + 1)
  }

  function StackFill(): Frame { seq<Word>(FRAME_WORDS, _ => 0xCDCD_CDCD) }

  function SetPcb(k: Kernel, slot: nat, p: Pcb): Kernel
    requires slot < MAX_PROCESSES
  {
    k.(table := k.table[slot := p])
  }

  /** allocate_pcb_and_pid once a free slot is found; the state stays Free, parentPid is left as it was. */
  function TakePcb(k: Kernel, slot: nat): Kernel
    requires slot < MAX_PROCESSES
  {
    SetPcb(k, slot, k.table[slot].(pid := k.nextPid, ctx := ZERO_CONTEXT, kstack := StackFill()))
      .(nextPid := (k.nextPid + 1) % 0x1_0000_0000)
  }

  /** The frame iret pops, pushed on an empty kernel stack. Kernel stack pointers are
      offsets into the slot's own stack. */
  function PushFrame(kstack: Frame, s: Stack): Frame {
    kstack[1023 := s.ss][1022 := s.esp][1021 := s.eflags][1020 := s.cs][1019 := s.eip]
  }
  const FRAME_OFFSET: Word := 4096 - 5 * 4

  function Enqueue(k: Kernel, slot: nat): Kernel
    requires slot < MAX_PROCESSES
  {
    SetPcb(k, slot, k.table[slot].(state := Ready, next := k.head)).(head := slot)
  }

  // ---- Creation ----

  function LaunchUser(p: Pcb): Pcb {
    var stack := Stack(USER_CODE_START, 0x1B, 0x202, USER_STACK_TOP, 0x23);
    p.(ctx := p.ctx.(stack := stack, reg := p.ctx.reg.(esp := FRAME_OFFSET)), kstack := PushFrame(p.kstack, stack))
  }

  function LaunchKernel(p: Pcb, entry: Word, idle: Word): Pcb {
    var stack := Stack(entry, 0x08, 0x202, 0, 0);
    p.(ctx := p.ctx.(stack := stack, reg := p.ctx.reg.(esp := 4096 - 4 * 4)),
       kstack := p.kstack[1023 := idle][1022 := 0x202][1021 := 0x08][1020 := entry])
  }

  function WithCr3(k: Kernel, slot: nat, d: nat): Kernel
    requires slot < MAX_PROCESSES && d < TOTAL_FRAMES
  {
    var p := k.table[slot];
    SetPcb(k, slot, p.(ctx := p.ctx.(cr3 := d * FRAME_SIZE)))
  }

  function CreateProcess(k: Kernel, src: nat, size: Word): (Kernel, Slot) {
    var slot := FirstFree(k.table, 0);
    if slot == MAX_PROCESSES then (k, NONE)
    else
      var k1 := TakePcb(k, slot);
      var made := CreateDirectory(k1.ram, k1.kdir);
      if made.0 == 0 then (k1.(ram := made.1), NONE)
      else
        var k2 := WithCr3(k1, slot, made.0);
        match LoadPages(made.1, made.0, src, size, 0)
        case NoFrame(r) => (k2.(ram := r), NONE)
        case Loaded(r) => (Enqueue(SetPcb(k2.(ram := r), slot, LaunchUser(k2.table[slot])), slot), slot)
  }

  function CreateKernelProcess(k: Kernel, entry: Word, idle: Word): (Kernel, Slot) {
    var slot := FirstFree(k.table, 0);
    if slot == MAX_PROCESSES then (k, NONE)
    else
      var k1 := TakePcb(k, slot);
      var made := CreateDirectory(k1.ram, k1.kdir);
      if made.0 == 0 then (k1.(ram := made.1), NONE)
      else
        var k2 := WithCr3(k1, slot, made.0).(ram := made.1);
        (Enqueue(SetPcb(k2, slot, LaunchKernel(k2.table[slot], entry, idle)), slot), slot)
  }

  // ---- System calls ----

  const FAILED: Word := 0xFFFF_FFFF

  /** The child's block once its directory exists: the parent's saved context under its own cr3. */
  function ForkPcb(child: Pcb, parent: Pcb, c: nat): Pcb
    requires c < TOTAL_FRAMES
  {
    child.(ctx := Context(parent.ctx.reg, parent.ctx.stack, c * FRAME_SIZE))
  }

  function LaunchChild(p: Pcb): Pcb {
    p.(ctx := p.ctx.(reg := p.ctx.reg.(eax := 0, esp := FRAME_OFFSET)), kstack := PushFrame(p.kstack, p.ctx.stack))
  }

  /** The slot taken, its pid and its parent's noted. */
  function ForkTake(k: Kernel, slot: nat): Kernel
    requires slot < MAX_PROCESSES && k.current != NONE
  {
    var k1 := TakePcb(k, slot);
    SetPcb(k1, slot, k1.table[slot].(parentPid := k1.table[k1.current].pid))
  }

  function Fork(k: Kernel): (Kernel, Word) {
    var slot := FirstFree(k.table, 0);
    if k.current == NONE || slot == MAX_PROCESSES then (k, FAILED)
    else
      var k2 := ForkTake(k, slot);
      var made := CreateDirectory(k2.ram, k2.kdir);
      if made.0 == 0 then (k2.(ram := made.1), FAILED)
      else
        var parent := k2.table[k2.current];
        var child := ForkPcb(k2.table[slot], parent, made.0);
        match CopySpace(made.1, DirOf(parent), made.0, 0)
        case OutOfFrames(r) => (SetPcb(k2.(ram := r), slot, child), FAILED)
        case Copied(r) => (Enqueue(SetPcb(k2.(ram := r), slot, LaunchChild(child)), slot), k.nextPid)
  }

  function Schedule(k: Kernel): Kernel {
    if k.head == NONE then k
    else
      var p := k.table[k.head];
      SetPcb(k, k.head, p.(state := Running)).(current := k.head, head := p.next)
  }

  function Exit(k: Kernel, status: Word): (Kernel, Word) {
    if k.current == NONE then (k, FAILED)
    else
      var p := k.table[k.current];
      (Schedule(SetPcb(k, k.current, p.(state := Terminated, ctx := p.ctx.(reg := p.ctx.reg.(eax := status))))), 0)
  }

  datatype Stepped<+T> = Halts | Goes(result: T)

  /** The page of address v is there, or a fault brings it in. If the handler cannot map it, the access faults
      again until the pool is empty and the handler halts. It never looks at who caused the fault. */
  function Touch(ram: Ram, d: nat, v: Word): Stepped<Ram> {
    if Present(Pte(ram.mem, d, DirIndex(v), TabIndex(v))) then Goes(ram)
    else
      match HandleFault(ram, d, v, ErrorCode(false, true, true))
      case Halted => Halts
      case Resumed(r) => if Present(Pte(r.mem, d, DirIndex(v), TabIndex(v))) then Goes(r) else Halts
  }

  /** Overwrites the word that holds address v, on a page that is there. */
  function StoreMapped(ram: Ram, d: nat, v: Word, w: Word): Ram {
    ram.(mem := WriteWord(ram.mem, FrameOf(Pte(ram.mem, d, DirIndex(v), TabIndex(v))), Offset(v) / 4, w))
  }

  function WordAt(m: Memory, d: nat, v: Word): Word { UserWord(m, d, DirIndex(v), TabIndex(v), Offset(v) / 4) }

  /** One byte stored at virtual address v under directory d. */
  function PutByte(ram: Ram, d: nat, v: Word, b: Byte): Stepped<Ram> {
    match Touch(ram, d, v)
    case Halts => Halts
    case Goes(r) => Goes(StoreMapped(r, d, v, WithByte(WordAt(r.mem, d, v), v % 4, b)))
  }

  /** Bytes k to 3 of a little-endian word, at any address. */
  function PutWord(ram: Ram, d: nat, v: Word, w: Word, k: nat): Stepped<Ram>
    requires k <= 4
    decreases 4 - k
  {
    if k == 4 then Goes(ram)
    else
      match PutByte(ram, d, (v + k) % 0x1_0000_0000, ByteOf(w, k))
      case Halts => Halts
      case Goes(r) => PutWord(r, d, v, w, k + 1)
  }

  function Reap(k: Kernel, child: nat): Kernel
    requires child < MAX_PROCESSES
  {
    SetPcb(k, child, k.table[child].(state := Free, pid := 0, parentPid := 0))
  }

  /** sys_wait; the pid it returns has just been cleared. */
  function Wait(k: Kernel, status: Word): Stepped<(Kernel, Word)> {
    if k.current == NONE then Goes((k, FAILED))
    else
      var child := FirstZombie(k.table, k.table[k.current].pid, 0);
      if child == MAX_PROCESSES then Goes((k, FAILED))
      else if status == 0 then Goes((Reap(k, child), Reap(k, child).table[child].pid))
      else
        match PutWord(k.ram, DirOf(k.table[k.current]), status, k.table[child].ctx.reg.eax, 0)
        case Halts => Halts
        case Goes(r) => Goes((Reap(k.(ram := r), child), Reap(k, child).table[child].pid))
  }

  // ---- Runs ----

  datatype Op =
    | Create(src: nat, size: Word)
    | CreateKernel(entry: Word, idle: Word)
    | DoFork
    | DoExit(status: Word)
    | DoWait(status: Word)
    | DoSchedule
    | Fault(v: Word, write: bool, user: bool)
    | Store(v: Word, b: Byte)

  /** A page fault reports whether the translation was present. A store is a byte stored in user mode, as wider
      stores are bytes one after the other; in the kernel's half it is a violation. It needs a current process. */
  function Step(k: Kernel, op: Op): Stepped<Kernel> {
    match op
    case Create(src, size) => Goes(CreateProcess(k, src, size).0)
    case CreateKernel(entry, idle) => Goes(CreateKernelProcess(k, entry, idle).0)
    case DoFork => Goes(Fork(k).0)
    case DoExit(status) => Goes(Exit(k, status).0)
    case DoWait(status) => (match Wait(k, status) case Halts => Halts case Goes(r) => Goes(r.0))
    case DoSchedule => Goes(Schedule(k))
    case Fault(v, write, user) =>
      if k.current == NONE then Halts
      else
        var d := DirOf(k.table[k.current]);
        var error := ErrorCode(Present(Pte(k.ram.mem, d, DirIndex(v), TabIndex(v))), write, user);
        (match HandleFault(k.ram, d, v, error) case Halted => Halts case Resumed(r) => Goes(k.(ram := r)))
    case Store(v, b) =>
      if k.current == NONE then Goes(k)
      else if v >= KERNEL_VIRTUAL_START then Halts
      else (match PutByte(k.ram, DirOf(k.table[k.current]), v,
        b) case Halts => Halts case Goes(r) => Goes(k.(ram := r)))
  }

  /** The state after the operations; a halted machine does no more. */
  function Run(k: Kernel, ops: seq<Op>): Kernel
    decreases |ops|
  {
    if ops == [] then k
    else match Step(k, ops[0]) case Halts => k case Goes(k') => Run(k', ops[1..])
  }

  function InitialPool(reserved: nat): Used
    requires reserved <= TOTAL_FRAMES
  {
    seq<bool>(TOTAL_FRAMES, f => f < reserved)
  }

  /** Power-on memory with the first reserved frames taken, after init_process_manager. */
  function Boot(mem: Memory, reserved: nat, kdir: Frame): Kernel
    requires reserved <= TOTAL_FRAMES
  {
    Kernel(Ram(mem, InitialPool(reserved)), kdir, seq<Pcb>(MAX_PROCESSES, _ => EmptyPcb()), 1, NONE, NONE)
  }
}

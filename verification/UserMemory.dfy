/** What a process reads over a whole run: what it found, overwritten by its own stores and by nothing else. */
module UserMemory {
  import opened Machine
  import opened Bytes
  import opened FramePool
  import opened PageTables
  import opened Ownership
  import opened Directories
  import opened ForkCopy
  import opened ImageLoading
  import opened ImageContents
  import opened Translation
  import opened DemandPaging
  import opened Processes
  import opened Stores
  import opened Isolation
  import opened Lifecycle
  import opened Runs
  import opened Theorems
  import opened Spawning
  import opened Creation

  /** The step stores at address a while the process in slot s is current. */
  predicate StoresAt(k: Kernel, op: Op, s: nat, a: Word) {
    op.Store? && op.v == a && k.current == s
  }

  /** The byte last stored at address a while the process in slot s was current, x if none was. */
  function LastStored(k: Kernel, ops: seq<Op>, s: nat, a: Word, x: Byte): Byte
    decreases |ops|
  {
    if ops == [] then x
    else
      match Step(k, ops[0])
      case Halts => x
      case Goes(k') => LastStored(k', ops[1..], s, a, if StoresAt(k, ops[0], s, a) then ops[0].b else x)
  }

  lemma SameSpaceSameByte(m: Memory, m': Memory, d: nat, a: Word)
    requires SameSpace(m, m', d) && a < KERNEL_VIRTUAL_START
    ensures UserByte(m', d, a) == UserByte(m, d, a)
  {
    hide Present, FrameOf, Pte, Pde, DirIndex, TabIndex, Offset, ByteOf;
    UserIndices(a);
    assert SamePage(m, m', d, DirIndex(a), TabIndex(a));
    SameFrameSameWord(m, m', FrameOf(Pte(m, d, DirIndex(a), TabIndex(a))), Offset(a) / 4);
  }

  lemma SameFrameSameWord(m: Memory, m': Memory, f: nat, k: nat)
    requires k < FRAME_WORDS
    ensures ReadFrame(m', f) == ReadFrame(m, f) ==> ReadWord(m', f, k) == ReadWord(m, f, k)
  {
  }

  /** The process in slot s stays, and its byte at a is b afterwards. */
  ghost predicate ByteIs(k: Kernel, k': Kernel, s: nat, a: Word, b: Byte)
    requires s < MAX_PROCESSES
  {
    && !k'.table[s].state.Free? && DirOf(k'.table[s]) == DirOf(k.table[s])
    && UserByte(k'.ram.mem, DirOf(k.table[s]), a) == b
  }

  lemma SpaceKeepsByte(k: Kernel, k': Kernel, s: nat, a: Word)
    requires s < MAX_PROCESSES && a < KERNEL_VIRTUAL_START
    requires !k'.table[s].state.Free? && DirOf(k'.table[s]) == DirOf(k.table[s])
    requires SameSpace(k.ram.mem, k'.ram.mem, DirOf(k.table[s]))
    ensures ByteIs(k, k', s, a, UserByte(k.ram.mem, DirOf(k.table[s]), a))
  {
    hide SameSpace, UserByte;
    SameSpaceSameByte(k.ram.mem, k'.ram.mem, DirOf(k.table[s]), a);
  }

  /** Creations and forks leave every byte of every process. */
  lemma BuildKeepsByte(k: Kernel, own: map<nat, Use>, reserved: nat, q: seq<nat>, op: Op, s: nat, a: Word)
    requires Consistent(k, own, reserved, q) && (op.Create? || op.CreateKernel? || op.DoFork?)
    requires s < MAX_PROCESSES && !k.table[s].state.Free? && a < KERNEL_VIRTUAL_START
    ensures Step(k, op).Goes? && ByteIs(k, Step(k, op).result, s, a, UserByte(k.ram.mem, DirOf(k.table[s]), a))
  {
    hide Isolated, ReadyList, Pids, Childless, KernelKept, CreateProcess, CreateKernelProcess, Fork, SameSpace, ByteIs;
    hide UserByte;
    CurrentIsLive(k, q);
    hide SpacesKept;
    var own';
    match op
    case Create(src, size) =>
      own' := CreateIsolated(k, own, reserved, src, size);
      KeptByte(k, CreateProcess(k, src, size).0, s, a);
    case CreateKernel(entry, idle) =>
      own' := CreateKernelIsolated(k, own, reserved, entry, idle);
      KeptByte(k, CreateKernelProcess(k, entry, idle).0, s, a);
    case DoFork =>
      own' := ForkIsolated(k, own, reserved);
      KeptByte(k, Fork(k).0, s, a);
  }

  lemma KeptByte(k: Kernel, k': Kernel, s: nat, a: Word)
    requires SpacesKept(k, k') && s < MAX_PROCESSES && !k.table[s].state.Free? && a < KERNEL_VIRTUAL_START
    ensures ByteIs(k, k', s, a, UserByte(k.ram.mem, DirOf(k.table[s]), a))
  {
    hide SameSpace, UserByte;
    var p := k'.table[s];
    SpaceKeepsByte(k, k', s, a);
  }

  lemma FaultKeepsByte(k: Kernel, own: map<nat, Use>, reserved: nat, q: seq<nat>, v: Word, write: bool, user: bool,
                       a: Word)
    requires Consistent(k, own, reserved, q) && Step(k, Fault(v, write, user)).Goes? && a < KERNEL_VIRTUAL_START
    ensures k.current != NONE
    ensures ByteIs(k, Step(k, Fault(v, write, user)).result, k.current, a,
                   UserByte(k.ram.mem, DirOf(k.table[k.current]), a))
  {
    hide ReadyList, Pids, Separated, Preserved, Grown, LiveDirs, Pde, Pte, Present, Childless, LeavesFree;
    hide SharesKernelHalf, DistinctDirs, Reserves, Alloc, Entry, FreeCount, UserWord, DirIndex, TabIndex, Offset;
    hide LedgerClosed, ByteOf;
    var d := DirOf(k.table[k.current]);
    var error := ErrorCode(Present(Pte(k.ram.mem, d, DirIndex(v), TabIndex(v))), write, user);
    CurrentIsLive(k, q);
    LiveDirOwned(k, own, reserved, k.current);
    var own' := FaultIsInvisible(k.ram, own, LiveDirs(k.table), d, v, error);
    UserIndices(a);
  }

  lemma StoreSetsByte(k: Kernel, own: map<nat, Use>, reserved: nat, q: seq<nat>, v: Word, b: Byte, a: Word)
    requires Consistent(k, own, reserved, q) && Step(k, Store(v, b)).Goes? && a < KERNEL_VIRTUAL_START
    requires k.current != NONE
    ensures ByteIs(k, Step(k, Store(v, b)).result, k.current, a,
                   if a == v then b else UserByte(k.ram.mem, DirOf(k.table[k.current]), a))
  {
    hide ReadyList, Pids, Separated, Confined, Grown, LiveDirs, Pde, Childless, PutByte, SameWords, UserByte;
    hide SharesKernelHalf, DistinctDirs, Reserves, LedgerClosed;
    var d := DirOf(k.table[k.current]);
    CurrentIsLive(k, q);
    LiveDirOwned(k, own, reserved, k.current);
    var own' := StoreIsPrivate(k.ram, own, LiveDirs(k.table), d, v, b);
  }

  lemma SameMemoryKeepsByte(k: Kernel, k': Kernel, s: nat, a: Word)
    requires k'.ram == k.ram && SameDirs(k.table, k'.table) && s < MAX_PROCESSES && !k.table[s].state.Free?
    ensures ByteIs(k, k', s, a, UserByte(k.ram.mem, DirOf(k.table[s]), a))
  {
    hide UserByte;
    var p := k'.table[s];
  }

  lemma CurrentByte(k: Kernel, own: map<nat, Use>, reserved: nat, q: seq<nat>, op: Op, a: Word)
    requires Consistent(k, own, reserved, q) && Step(k, op).Goes? && k.current != NONE && a < KERNEL_VIRTUAL_START
    ensures var x := UserByte(k.ram.mem, DirOf(k.table[k.current]), a);
            ByteIs(k, Step(k, op).result, k.current, a, if StoresAt(k, op, k.current, a) then op.b else x)
  {
    hide Isolated, ReadyList, Pids, Childless, StepKept, CreateProcess, CreateKernelProcess, Fork, BuildEvent, Schedule;
    hide Exit, Wait, HandleFault, PutByte, Present, Pte, ByteIs, UserByte, SameDirs;
    CurrentIsLive(k, q);
    match op
    case DoExit(status) =>
      ExitStep(k, own, reserved, q, status);
      SameMemoryKeepsByte(k, Exit(k, status).0, k.current, a);
    case DoSchedule =>
      ScheduleStep(k, own, reserved, q);
      SameMemoryKeepsByte(k, Schedule(k), k.current, a);
    case DoWait(status) =>
      WaitFindsNobody(k, status);
      NothingMoves(k);
      SameMemoryKeepsByte(k, k, k.current, a);
    case Fault(v, write, user) => FaultKeepsByte(k, own, reserved, q, v, write, user, a);
    case Store(v, b) => StoreSetsByte(k, own, reserved, q, v, b, a);
    case _ => BuildKeepsByte(k, own, reserved, q, op, k.current, a);
  }

  lemma NothingMoves(k: Kernel)
    ensures SameDirs(k.table, k.table)
  {
  }

  /** One step: a byte of a process changes only by its own store. */
  lemma StepByte(k: Kernel, own: map<nat, Use>, reserved: nat, q: seq<nat>, op: Op, s: nat, a: Word)
    requires Consistent(k, own, reserved, q) && k.nextPid < 0xFFFF_FFFF && Step(k, op).Goes?
    requires s < MAX_PROCESSES && !k.table[s].state.Free? && a < KERNEL_VIRTUAL_START
    ensures var x := UserByte(k.ram.mem, DirOf(k.table[s]), a);
            ByteIs(k, Step(k, op).result, s, a, if StoresAt(k, op, s, a) then op.b else x)
  {
    hide Consistent, Step, EventOf, KernelKept, SameSpace, ByteIs, UserByte;
    if s == k.current {
      CurrentByte(k, own, reserved, q, op, a);
    } else {
      var own' := StepKeeps(k, own, reserved, q, op);
      var p := Step(k, op).result.table[s];
      SpaceKeepsByte(k, Step(k, op).result, s, a);
    }
  }

  /** Over any run a live process stays, and the byte it reads at a user address is the one it had, overwritten by
      exactly the stores made while it was current: not by faults, forks, creations, exits or other processes. */
  lemma {:induction false} ReadsItsOwnStores(k: Kernel, own: map<nat, Use>, reserved: nat, q: seq<nat>, ops: seq<Op>,
                                             s: nat, a: Word)
    requires Consistent(k, own, reserved, q) && PidsLast(k, ops)
    requires s < MAX_PROCESSES && !k.table[s].state.Free? && a < KERNEL_VIRTUAL_START
    ensures var (k', d) := (Run(k, ops), DirOf(k.table[s]));
            && !k'.table[s].state.Free? && DirOf(k'.table[s]) == d
            && UserByte(k'.ram.mem, d, a) == LastStored(k, ops, s, a, UserByte(k.ram.mem, d, a))
    decreases |ops|
  {
    hide Consistent, Step, EventOf, KernelKept, OthersKept, UserByte, StoresAt;
    if ops != [] && Step(k, ops[0]).Goes? {
      StepByte(k, own, reserved, q, ops[0], s, a);
      var own1 := StepKeeps(k, own, reserved, q, ops[0]);
      ReadsItsOwnStores(Step(k, ops[0]).result, own1, reserved, After(q, EventOf(k, ops[0])), ops[1..], s, a);
    }
  }

  // ---- From its beginning ----

  lemma MirroredByte(m: Memory, m': Memory, p: nat, c: nat, a: Word)
    requires MirrorsFrom(m, m', p, c, 0) && a < KERNEL_VIRTUAL_START
    ensures UserByte(m', c, a) == UserByte(m, p, a)
  {
    hide Present, FrameOf, FlagsOf, Pte, DirIndex, TabIndex, Offset, ByteOf;
    UserIndices(a);
    var (i, j) := (DirIndex(a), TabIndex(a));
    assert Mirrors(m, m', p, c, i, j);
    MirroredWord(m, m', FrameOf(Pte(m, p, i, j)), FrameOf(Pte(m', c, i, j)), Offset(a) / 4);
  }

  lemma MirroredWord(m: Memory, m': Memory, f: nat, g: nat, k: nat)
    requires k < FRAME_WORDS
    ensures ReadFrame(m', g) == ReadFrame(m, f) ==> ReadWord(m', g, k) == ReadWord(m, f, k)
  {
  }

  /** A forked child starts with the bytes its parent had at the fork, and then reads them overwritten by its own
      stores; what the parent stores afterwards it never sees. */
  lemma ChildReadsItsOwnStores(k: Kernel, own: map<nat, Use>, reserved: nat, q: seq<nat>, ops: seq<Op>, a: Word)
    requires Consistent(k, own, reserved, q) && k.current != NONE && FirstFree(k.table, 0) < MAX_PROCESSES
    requires FreeCount(k.ram.used) >= ForkNeed(k) && PidsLast(k, [DoFork] + ops) && a < KERNEL_VIRTUAL_START
    ensures var (k1, slot) := (Fork(k).0, FirstFree(k.table, 0));
            UserByte(Run(k1, ops).ram.mem, DirOf(k1.table[slot]), a) ==
            LastStored(k1, ops, slot, a, UserByte(k.ram.mem, DirOf(k.table[k.current]), a))
  {
    hide Consistent, Fork, Run, LastStored, UserByte, FreeCount, ForkNeed, MirrorsFrom, SpacesKept, OthersKept;
    hide KernelKept, EventOf, NobodyFreed;
    var k1, slot := Fork(k).0, FirstFree(k.table, 0);
    ForkCopiesExactly(k, own, reserved, q);
    MirroredByte(k.ram.mem, k1.ram.mem, DirOf(k.table[k.current]), DirOf(k1.table[slot]), a);
    var own1 := StepKeeps(k, own, reserved, q, DoFork);
    ForkTakesOnePid(k);
    ReadsItsOwnStores(k1, own1, reserved, After(q, EventOf(k, DoFork)), ops, slot, a);
  }

  lemma ForkTakesOnePid(k: Kernel)
    requires k.nextPid < 0xFFFF_FFFF
    ensures Step(k, DoFork) == Goes(Fork(k).0) && Fork(k).0.nextPid <= k.nextPid + 1
  {
    hide CreateDirectory, CopySpace, StackFill, PushFrame;
  }

  /** What a process is meant to find: the module at USER_CODE_START, and zeros everywhere else. */
  function ImageByte(m: Memory, src: nat, size: Word, a: Word): Byte {
    if USER_CODE_START <= a < USER_CODE_START + size then LoadByte(m, src + (a - USER_CODE_START)) else 0
  }

  lemma AddressPage(a: Word)
    ensures DirIndex(a) * ENTRIES + TabIndex(a) == a / FRAME_SIZE && a == a / FRAME_SIZE * FRAME_SIZE + Offset(a)
    ensures Offset(a) % 4 == a % 4 && Offset(a) < FRAME_SIZE && TabIndex(a) < ENTRIES
  {
    InFrame(a);
    LowBits(a, 1024 * (a / FRAME_SIZE), Offset(a));
    DirFromPage(a);
    TablePart(a / FRAME_SIZE);
  }

  lemma ImageReadsBytes(m: Memory, m': Memory, d: nat, src: nat, size: Word, a: Word)
    requires HoldsImage(m, m', d, src, size) && src + size <= MEMORY_SIZE && a < KERNEL_VIRTUAL_START
    ensures UserByte(m', d, a) == ImageByte(m, src, size, a)
  {
    hide Present, LoadByte, FrameByte, Pte, PagesNeeded, Di, Ti, FrameOf, DirIndex, TabIndex, Offset, ByteOf, MapsPage;
    AddressPage(a);
    UserIndices(a);
    var (i, j, n) := (DirIndex(a), TabIndex(a), a / FRAME_SIZE - CODE_PAGE);
    ImagePages(size);
    if 0 <= n < PagesNeeded(size) {
      SamePosition(n, i, j);
      ImagePageByte(m, m', d, src, size, n, a);
    } else {
      assert !Present(Pte(m', d, i, j));
      ZeroBytes(a % 4);
    }
  }

  lemma ZeroBytes(k: nat)
    requires k < 4
    ensures ByteOf(0, k) == 0
  {
  }

  lemma ImagePages(size: Word)
    requires size <= MEMORY_SIZE
    ensures PagesNeeded(size) * FRAME_SIZE >= size
  {
  }

  lemma ImagePageByte(m: Memory, m': Memory, d: nat, src: nat, size: Word, n: nat, a: Word)
    requires HasImagePage(m, m', d, src, size, n) && a / FRAME_SIZE == CODE_PAGE + n
    requires DirIndex(a) == Di(n) && TabIndex(a) == Ti(n)
    ensures UserByte(m', d, a) == ImageByte(m, src, size, a)
  {
    hide Present, LoadByte, Pte, Di, Ti, FrameOf, FlagsOf, DirIndex, TabIndex, Offset, ByteOf;
    AddressPage(a);
    var k, f := Offset(a), FrameOf(Pte(m', d, Di(n), Ti(n)));
    assert a - USER_CODE_START == n * FRAME_SIZE + k;
    assert FrameByte(ReadFrame(m', f), k) ==
           if n * FRAME_SIZE + k < size then LoadByte(m, src + (n * FRAME_SIZE + k)) else 0;
  }

  /** A process whose image has been loaded reads, after any run, the module overwritten by its own stores. */
  lemma ProgramReadsItsOwnStores(m: Memory, src: nat, size: Word, k: Kernel, own: map<nat, Use>, reserved: nat,
                                 q: seq<nat>, ops: seq<Op>, s: nat, a: Word)
    requires Consistent(k, own, reserved, q) && PidsLast(k, ops)
    requires s < MAX_PROCESSES && !k.table[s].state.Free? && a < KERNEL_VIRTUAL_START
    requires HoldsImage(m, k.ram.mem, DirOf(k.table[s]), src, size) && src + size <= MEMORY_SIZE
    ensures UserByte(Run(k, ops).ram.mem, DirOf(k.table[s]), a) == LastStored(k, ops, s, a, ImageByte(m, src, size, a))
  {
    hide Consistent, Run, LastStored, UserByte, HoldsImage, ImageByte;
    ImageReadsBytes(m, k.ram.mem, DirOf(k.table[s]), src, size, a);
    ReadsItsOwnStores(k, own, reserved, q, ops, s, a);
  }
}

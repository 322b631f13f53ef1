/** Whole runs of the kernel with its bitmap in memory. As long as frames whose bits lie in the reserved frame are
    left, such a run is one of the kernel that Processes describes: the same process table, the same frames handed
    out, the same memory outside the frame of the bitmap. */
module ShadowRuns {
  import opened Machine
  import opened FramePool
  import opened PageTables
  import opened Ownership
  import opened Directories
  import opened ForkCopy
  import opened ImageLoading
  import opened Translation
  import opened DemandPaging
  import opened Processes
  import opened Isolation
  import opened Lifecycle
  import opened Runs
  import opened Theorems
  import opened Creation
  import opened BitmapInMemory
  import opened KernelInMemory
  import opened BitmapShadow
  import opened ShadowSpaces

  /** Kernel k1, with its bitmap in frame base of memory, is in the state k2. */
  ghost predicate Shadowed(k1: Kernel, base: nat, kept: nat, k2: Kernel) {
    k1 == k2.(ram := k1.ram) && Shadows(k1.ram.mem, base, kept, k2.ram)
  }

  lemma NobodysBitmap(k: Kernel, own: map<nat, Use>, reserved: nat, base: nat)
    requires Isolated(k, own, reserved) && base < reserved
    ensures base !in own && base < TOTAL_FRAMES && k.ram.used[base] && k.ram.used[0]
    ensures Separated(k.ram, own, LiveDirs(k.table))
  {
    hide LiveDirs, PagesApart;
    assert k.ram.used[base];
  }

  // ---- create_process, create_kernel_process and fork ----

  lemma MakingTakes(ram: Ram, kdir: Frame)
    ensures StaysTaken(ram.used, CreateDirectory(ram, kdir).1.used)
  {
  }

  lemma MadeShadow(k1: Kernel, base: nat, kept: nat, k2: Kernel, own: map<nat, Use>, reserved: nat)
    requires Shadowed(k1, base, kept, k2) && Isolated(k2, own, reserved) && base < reserved
    requires CoveredFree(k2.ram.used)
    ensures var (made', made) := (CreateDirectoryIn(k1.ram.mem, base, k1.kdir), CreateDirectory(k2.ram, k2.kdir));
            && made'.0 == made.0 != 0 && Shadows(made'.1, base, kept, made.1)
            && Shadowing(made'.1, base, kept, made.1, own[made.0 := Directory(made.0)], LiveDirs(k2.table) + {made.0})
            && made.0 !in own
  {
    hide LiveDirs, Separated, Shadows, CreateDirectory, CreateDirectoryIn, Isolated, CoveredFree, FreeCount, Advances;
    hide FreshDirectory;
    NobodysBitmap(k2, own, reserved, base);
    CreateDirectoryShadow(k1.ram.mem, base, kept, k2.ram, k2.kdir);
    CreateDirectoryFresh(k2.ram, own, LiveDirs(k2.table), k2.kdir);
    CreateDirectoryKeeps(k2.ram, own, LiveDirs(k2.table), k2.kdir);
  }

  /** Every allocation of create_process finds a frame whose bit lies in the reserved frame. */
  ghost predicate CreationCovered(k: Kernel, src: nat, size: Word) {
    FirstFree(k.table, 0) < MAX_PROCESSES ==>
      && CoveredFree(k.ram.used)
      && var made := CreateDirectory(k.ram, k.kdir); LoadingCovered(made.1, made.0, src, size, 0)
  }

  lemma LeftOverCoversCreation(k: Kernel, src: nat, size: Word)
    requires CoveredFree(CreateProcess(k, src, size).0.ram.used) && k.ram.used[0]
    ensures CreationCovered(k, src, size)
  {
    hide CreateDirectory, CoveredFree, CreateProcess, LoadPages, LoadingCovered, StaysTaken, Alloc;
    if FirstFree(k.table, 0) < MAX_PROCESSES {
      CreateFills(k, src, size);
      var made := CreateDirectory(k.ram, k.kdir);
      MakingTakes(k.ram, k.kdir);
      if made.0 != 0 {
        LeftOverCovers(made.1, made.0, src, size, 0);
        LoadPagesTake(made.1, made.0, src, size, 0);
        StillCovered(made.1.used, LoadPages(made.1, made.0, src, size, 0).ram.used);
      }
      StillCovered(k.ram.used, made.1.used);
      CoveredMakes(k.ram, k.kdir);
    }
  }

  lemma CoveredMakes(ram: Ram, kdir: Frame)
    requires CoveredFree(ram.used)
    ensures ram.used[0] ==> CreateDirectory(ram, kdir).0 != 0
  {
    var f :| 0 <= f < COVERED && !ram.used[f];
    assert LowestFree(ram.used, 0) <= f;
  }

  lemma CreateShadow(k1: Kernel, base: nat, kept: nat, k2: Kernel, own: map<nat, Use>, reserved: nat, src: nat,
                     size: Word)
    requires Shadowed(k1, base, kept, k2) && Isolated(k2, own, reserved) && base < reserved
    requires CreationCovered(k2, src, size) && PagesAvoid(src, size, 0, base, kept)
    ensures Shadowed(CreateProcessIn(k1, base, src, size).0, base, kept, CreateProcess(k2, src, size).0)
    ensures CreateProcessIn(k1, base, src, size).1 == CreateProcess(k2, src, size).1
  {
    hide LiveDirs, Separated, Shadows, CreateDirectory, CreateDirectoryIn, Isolated, CoveredFree, CreateProcess;
    hide CreateProcessIn, LoadPages, LoadPagesIn, PagesAvoid, TablesUpTo, FreeCount, LoadingCovered;
    if FirstFree(k2.table, 0) == MAX_PROCESSES {
      NoSlotNoProcess(k2, src, size);
      NoSlotNoProcessIn(k1, base, src, size);
    } else {
      var made := CreateDirectory(k2.ram, k2.kdir);
      MadeShadow(k1, base, kept, k2, own, reserved);
      CreateStart(k2, own, reserved);
      LoadPagesShadow(CreateDirectoryIn(k1.ram.mem, base, k1.kdir).1, base, kept, made.1,
                      own[made.0 := Directory(made.0)], LiveDirs(k2.table) + {made.0}, made.0, src, size, 0);
      SameCreation(k1, k2, base, src, size);
    }
  }

  lemma NoSlotNoProcessIn(k: Kernel, base: nat, src: nat, size: Word)
    requires FirstFree(k.table, 0) == MAX_PROCESSES
    ensures CreateProcessIn(k, base, src, size) == (k, NONE)
  {
  }

  lemma SameCreation(k1: Kernel, k2: Kernel, base: nat, src: nat, size: Word)
    requires k1 == k2.(ram := k1.ram) && FirstFree(k2.table, 0) < MAX_PROCESSES
    requires var (made', made) := (CreateDirectoryIn(k1.ram.mem, base, k1.kdir), CreateDirectory(k2.ram, k2.kdir));
             && made'.0 == made.0 != 0 && LoadPages(made.1, made.0, src, size, 0).Loaded?
             && LoadPagesIn(made'.1, base, made'.0, src, size, 0).Done?
    ensures var (k1', k2') := (CreateProcessIn(k1, base, src, size), CreateProcess(k2, src, size));
            var (made', made) := (CreateDirectoryIn(k1.ram.mem, base, k1.kdir), CreateDirectory(k2.ram, k2.kdir));
            && k1'.1 == k2'.1 && k1'.0 == k2'.0.(ram := k1'.0.ram)
            && k1'.0.ram.mem == LoadPagesIn(made'.1, base, made'.0, src, size, 0).mem
            && k2'.0.ram == LoadPages(made.1, made.0, src, size, 0).ram
  {
    hide CreateDirectory, CreateDirectoryIn, LoadPages, LoadPagesIn, StackFill, PushFrame;
  }

  lemma CreateKernelShadow(k1: Kernel, base: nat, kept: nat, k2: Kernel, own: map<nat, Use>, reserved: nat,
                           entry: Word, idle: Word)
    requires Shadowed(k1, base, kept, k2) && Isolated(k2, own, reserved) && base < reserved
    requires CoveredFree(CreateKernelProcess(k2, entry, idle).0.ram.used)
    ensures Shadowed(CreateKernelProcessIn(k1, base, entry, idle).0, base, kept, CreateKernelProcess(k2, entry, idle).0)
  {
    hide LiveDirs, Separated, Shadows, CreateDirectory, CreateDirectoryIn, Isolated, CoveredFree, CreateKernelProcess;
    hide CreateKernelProcessIn, StaysTaken;
    if FirstFree(k2.table, 0) == MAX_PROCESSES {
      NoSlotNoKernelProcess(k2, entry, idle);
      NoSlotNoKernelProcessIn(k1, base, entry, idle);
    } else {
      CreateKernelFills(k2, entry, idle);
      MakingTakes(k2.ram, k2.kdir);
      StillCovered(k2.ram.used, CreateDirectory(k2.ram, k2.kdir).1.used);
      MadeShadow(k1, base, kept, k2, own, reserved);
      SameKernelCreation(k1, k2, base, entry, idle);
    }
  }

  lemma NoSlotNoKernelProcessIn(k: Kernel, base: nat, entry: Word, idle: Word)
    requires FirstFree(k.table, 0) == MAX_PROCESSES
    ensures CreateKernelProcessIn(k, base, entry, idle) == (k, NONE)
  {
  }

  lemma SameKernelCreation(k1: Kernel, k2: Kernel, base: nat, entry: Word, idle: Word)
    requires k1 == k2.(ram := k1.ram) && FirstFree(k2.table, 0) < MAX_PROCESSES
    requires CreateDirectoryIn(k1.ram.mem, base, k1.kdir).0 == CreateDirectory(k2.ram, k2.kdir).0 != 0
    ensures var (k1', k2') := (CreateKernelProcessIn(k1, base, entry, idle).0, CreateKernelProcess(k2, entry, idle).0);
            && k1' == k2'.(ram := k1'.ram) && k2'.ram == CreateDirectory(k2.ram, k2.kdir).1
            && k1'.ram.mem == CreateDirectoryIn(k1.ram.mem, base, k1.kdir).1
  {
    hide CreateDirectory, CreateDirectoryIn, StackFill;
  }

  lemma ForkShadow(k1: Kernel, base: nat, kept: nat, k2: Kernel, own: map<nat, Use>, reserved: nat)
    requires Shadowed(k1, base, kept, k2) && Isolated(k2, own, reserved) && base < reserved && CurrentLive(k2)
    requires CoveredFree(Fork(k2).0.ram.used)
    ensures Shadowed(ForkIn(k1, base).0, base, kept, Fork(k2).0) && ForkIn(k1, base).1 == Fork(k2).1
  {
    hide LiveDirs, Separated, Shadows, CreateDirectory, CreateDirectoryIn, Isolated, CoveredFree, Fork, ForkIn;
    hide CopySpace, CopySpaceIn, StaysTaken;
    if k2.current == NONE || FirstFree(k2.table, 0) == MAX_PROCESSES {
      NoSlotNoFork(k2);
      NoSlotNoForkIn(k1, base);
    } else {
      ForkFills(k2);
      var made, p := CreateDirectory(k2.ram, k2.kdir), DirOf(k2.table[k2.current]);
      MakingTakes(k2.ram, k2.kdir);
      if made.0 != 0 {
        CopySpaceTakes(made.1, p, made.0, 0);
        StillCovered(made.1.used, CopySpace(made.1, p, made.0, 0).ram.used);
      }
      StillCovered(k2.ram.used, made.1.used);
      MadeShadow(k1, base, kept, k2, own, reserved);
      LiveDirOwned(k2, own, reserved, k2.current);
      CopySpaceShadow(CreateDirectoryIn(k1.ram.mem, base, k1.kdir).1, base, kept, made.1,
                      own[made.0 := Directory(made.0)], LiveDirs(k2.table) + {made.0}, p, made.0, 0);
      SameFork(k1, k2, base);
    }
  }

  lemma NoSlotNoForkIn(k: Kernel, base: nat)
    requires k.current == NONE || FirstFree(k.table, 0) == MAX_PROCESSES
    ensures ForkIn(k, base) == (k, FAILED)
  {
  }

  lemma SameFork(k1: Kernel, k2: Kernel, base: nat)
    requires k1 == k2.(ram := k1.ram) && FirstFree(k2.table, 0) < MAX_PROCESSES && k2.current != NONE && CurrentLive(k2)
    requires var (made', made) := (CreateDirectoryIn(k1.ram.mem, base, k1.kdir), CreateDirectory(k2.ram, k2.kdir));
             var p := DirOf(k2.table[k2.current]);
             && made'.0 == made.0 != 0 && CopySpace(made.1, p, made.0, 0).Copied?
             && CopySpaceIn(made'.1, base, p, made'.0, 0).Done?
    ensures var (k1', k2') := (ForkIn(k1, base), Fork(k2));
            var (made', made) := (CreateDirectoryIn(k1.ram.mem, base, k1.kdir), CreateDirectory(k2.ram, k2.kdir));
            var p := DirOf(k2.table[k2.current]);
            && k1'.1 == k2'.1 && k1'.0 == k2'.0.(ram := k1'.0.ram)
            && k1'.0.ram.mem == CopySpaceIn(made'.1, base, p, made'.0, 0).mem
            && k2'.0.ram == CopySpace(made.1, p, made.0, 0).ram
  {
    hide CreateDirectory, CreateDirectoryIn, CopySpace, CopySpaceIn, StackFill, PushFrame;
  }

  // ---- Steps ----

  lemma SameSchedule(k: Kernel, ram: Ram)
    ensures Schedule(k.(ram := ram)) == Schedule(k).(ram := ram) && Schedule(k).ram == k.ram
  {
  }

  lemma SameExit(k: Kernel, ram: Ram, status: Word)
    ensures Exit(k.(ram := ram), status).0 == Exit(k, status).0.(ram := ram) && Exit(k, status).0.ram == k.ram
  {
    hide Schedule;
    if k.current != NONE {
      var p := k.table[k.current];
      SameSchedule(SetPcb(k, k.current, p.(state := Terminated, ctx := p.ctx.(reg := p.ctx.reg.(eax := status)))), ram);
    }
  }

  lemma WaitInFindsNobody(k: Kernel, base: nat, status: Word)
    requires Childless(k)
    ensures WaitIn(k, base, status) == Goes((k, FAILED))
  {
    hide PutWordIn;
  }

  /** What a step asks of the module it loads: no byte of it among the bits that change. */
  ghost predicate ModuleAvoids(op: Op, base: nat, kept: nat) {
    op.Create? ==> PagesAvoid(op.src, op.size, 0, base, kept)
  }

  lemma MemoryShadow(k1: Kernel, base: nat, kept: nat, k2: Kernel, own: map<nat, Use>, reserved: nat, q: seq<nat>,
                     op: Op)
    requires Shadowed(k1, base, kept, k2) && Consistent(k2, own, reserved, q) && base < reserved
    requires Spare(k2.ram.used) && (op.Fault? || op.Store?)
    ensures StepIn(k1, base, op).Goes? <==> Step(k2, op).Goes?
    ensures Step(k2, op).Goes? ==> Shadowed(StepIn(k1, base, op).result, base, kept, Step(k2, op).result)
  {
    hide Isolated, ReadyList, Pids, Childless, Shadows, HandleFault, HandleFaultIn, PutByte, PutByteIn, Present, Pte;
    hide Pde, FrameOf, Separated, LiveDirs, Spare;
    NobodysBitmap(k2, own, reserved, base);
    CurrentIsLive(k2, q);
    if k2.current != NONE {
      LiveDirOwned(k2, own, reserved, k2.current);
      var d, dirs := DirOf(k2.table[k2.current]), LiveDirs(k2.table);
      match op
      case Fault(v, write, user) =>
        if v < KERNEL_VIRTUAL_START {
          UserIndexes(v);
          PteShadow(k1.ram.mem, base, kept, k2.ram, own, dirs, d, DirIndex(v), TabIndex(v));
          FaultShadow(k1.ram.mem, base, kept, k2.ram, own, dirs, d, v,
                      ErrorCode(Present(Pte(k2.ram.mem, d, DirIndex(v), TabIndex(v))), write, user));
        } else {
          KernelFaults(k1.ram, k2.ram, base, d, v, ErrorCode(Present(Pte(k1.ram.mem, d, DirIndex(v), TabIndex(v))),
            write, user));
          KernelFaults(k1.ram, k2.ram, base, d, v, ErrorCode(Present(Pte(k2.ram.mem, d, DirIndex(v), TabIndex(v))),
            write, user));
        }
      case Store(v, b) =>
        if v < KERNEL_VIRTUAL_START {
          PutByteShadow(k1.ram.mem, base, kept, k2.ram, own, dirs, d, v, b);
        }
    }
  }

  lemma UserIndexes(v: Word)
    requires v < KERNEL_VIRTUAL_START
    ensures DirIndex(v) < KERNEL_PDT_IDX && TabIndex(v) < ENTRIES
  {
  }

  lemma KernelFaults(r1: Ram, r2: Ram, base: nat, d: nat, v: Word, error: ErrorCode)
    requires v >= KERNEL_VIRTUAL_START
    ensures HandleFaultIn(r1.mem, base, d, v, error).Halts? && HandleFault(r2, d, v, error).Halted?
  {
  }

  /** One step. */
  lemma StepShadow(k1: Kernel, base: nat, kept: nat, k2: Kernel, own: map<nat, Use>, reserved: nat, q: seq<nat>, op: Op)
    requires Shadowed(k1, base, kept, k2) && Consistent(k2, own, reserved, q) && base < reserved
    requires Spare(k2.ram.used) && (Step(k2, op).Goes? ==> Spare(Step(k2, op).result.ram.used))
    requires ModuleAvoids(op, base, kept)
    ensures StepIn(k1, base, op).Goes? <==> Step(k2, op).Goes?
    ensures Step(k2, op).Goes? ==> Shadowed(StepIn(k1, base, op).result, base, kept, Step(k2, op).result)
  {
    hide Isolated, ReadyList, Pids, Childless, Shadows, CreateProcess, CreateProcessIn, CreateKernelProcess;
    hide CreateKernelProcessIn, Fork, ForkIn, Exit, Schedule, Wait, WaitIn, HandleFault, PutByte, FaultIn, StoreIn;
    hide Present, Pte, Spare, CoveredFree, PagesAvoid;
    if Step(k2, op).Goes? {
      SpareCovers(Step(k2, op).result.ram.used);
    }
    CurrentIsLive(k2, q);
    match op
    case Create(src, size) =>
      NobodysBitmap(k2, own, reserved, base);
      LeftOverCoversCreation(k2, src, size);
      CreateShadow(k1, base, kept, k2, own, reserved, src, size);
    case CreateKernel(entry, idle) => CreateKernelShadow(k1, base, kept, k2, own, reserved, entry, idle);
    case DoFork => ForkShadow(k1, base, kept, k2, own, reserved);
    case DoExit(status) => SameExit(k2, k1.ram, status);
    case DoSchedule => SameSchedule(k2, k1.ram);
    case DoWait(status) =>
      WaitFindsNobody(k2, status);
      ChildlessToo(k1, k2);
      WaitInFindsNobody(k1, base, status);
    case _ => MemoryShadow(k1, base, kept, k2, own, reserved, q, op);
  }

  lemma ChildlessToo(k1: Kernel, k2: Kernel)
    requires Childless(k2) && k1 == k2.(ram := k1.ram)
    ensures Childless(k1)
  {
  }

  // ---- Runs ----

  ghost predicate ModulesAvoid(ops: seq<Op>, base: nat, kept: nat) {
    forall x :: 0 <= x < |ops| ==> ModuleAvoids(ops[x], base, kept)
  }

  lemma KeptIsTaken(k: Kernel, k': Kernel, reserved: nat)
    requires KernelKept(k, k', reserved)
    ensures StaysTaken(k.ram.used, k'.ram.used)
  {
  }

  /** The kernel with its bitmap in memory runs like the kernel of Processes, if at the end two frames are free whose
      bits lie in the reserved frame, and no module lies among the bits that change. */
  lemma {:induction false} RunShadow(k1: Kernel, base: nat, kept: nat, k2: Kernel, own: map<nat, Use>, reserved: nat,
                                     q: seq<nat>, ops: seq<Op>)
    requires Shadowed(k1, base, kept, k2) && Consistent(k2, own, reserved, q) && base < reserved
    requires PidsLast(k2, ops) && Spare(Run(k2, ops).ram.used) && ModulesAvoid(ops, base, kept)
    ensures Shadowed(RunIn(k1, base, ops), base, kept, Run(k2, ops))
    decreases |ops|
  {
    hide Consistent, Step, StepIn, EventOf, OthersKept, KernelKept, Shadowed, Spare, ModuleAvoids, StaysTaken;
    var own', q' := RunConsistent(k2, own, reserved, q, ops);
    KeptIsTaken(k2, Run(k2, ops), reserved);
    SpareLasts(k2.ram.used, Run(k2, ops).ram.used);
    if ops != [] {
      if Step(k2, ops[0]).Goes? {
        var k2' := Step(k2, ops[0]).result;
        var own1 := StepKeeps(k2, own, reserved, q, ops[0]);
        var q1 := After(q, EventOf(k2, ops[0]));
        own', q' := RunConsistent(k2', own1, reserved, q1, ops[1..]);
        KeptIsTaken(k2', Run(k2, ops), reserved);
        SpareLasts(k2'.ram.used, Run(k2, ops).ram.used);
        StepShadow(k1, base, kept, k2, own, reserved, q, ops[0]);
        RunShadow(StepIn(k1, base, ops[0]).result, base, kept, k2', own1, reserved, q1, ops[1..]);
      } else {
        StepShadow(k1, base, kept, k2, own, reserved, q, ops[0]);
      }
    }
  }

  // ---- From boot ----

  /** The kernel after init_page_frame_allocator and init_process_manager, the bitmap in its last reserved frame. */
  function BootIn(mem: Memory, reserved: nat, kdir: Frame): Kernel
    requires 0 < reserved <= TOTAL_FRAMES
  {
    Boot(MarkedBitmap(mem, reserved - 1, reserved), reserved, kdir)
  }

  /** Words of the bitmap that say nothing but that frames are reserved. */
  function FullWords(reserved: nat): nat { reserved / 8 }

  lemma BootShadow(mem: Memory, reserved: nat, kdir: Frame)
    requires 0 < reserved <= COVERED
    ensures Shadowed(BootIn(mem, reserved, kdir), reserved - 1, FullWords(reserved), BootIn(mem, reserved, kdir))
    ensures Consistent(BootIn(mem, reserved, kdir), map[], reserved, []) && BootIn(mem, reserved, kdir).nextPid == 1
  {
    hide Taken, MarkedBitmap, Consistent;
    BootConsistent(MarkedBitmap(mem, reserved - 1, reserved), reserved, kdir);
    forall f | 0 <= f < COVERED
      ensures Taken(MarkedBitmap(mem, reserved - 1, reserved), reserved - 1, f) <==> InitialPool(reserved)[f]
    {
      MarkedFrames(mem, reserved - 1, reserved, f);
    }
  }

  lemma SameSpaceShadow(m: Memory, base: nat, kept: nat, ram: Ram, own: map<nat, Use>, dirs: set<nat>, d: nat)
    requires Shadowing(m, base, kept, ram, own, dirs) && d in dirs
    ensures SameSpace(ram.mem, m, d)
  {
    hide Present, FrameOf, Pte, Pde, Separated, Agrees;
    DirsInLedgerToo(ram, own, dirs, d);
    forall i | 0 <= i < ENTRIES
      ensures Pde(m, d, i) == Pde(ram.mem, d, i)
    {
      SamePde(ram.mem, m, base, d, i);
    }
    forall i, j | 0 <= i < KERNEL_PDT_IDX && 0 <= j < ENTRIES
      ensures SamePage(ram.mem, m, d, i, j)
    {
      PteShadow(m, base, kept, ram, own, dirs, d, i, j);
    }
  }

  lemma ShadowedParts(k1: Kernel, base: nat, kept: nat, k2: Kernel)
    requires Shadowed(k1, base, kept, k2)
    ensures k1 == k2.(ram := k1.ram) && base < TOTAL_FRAMES && DiffersOnlyAt(k2.ram.mem, k1.ram.mem, base)
    ensures Agrees(k1.ram.mem, base, k2.ram.used) && Shadows(k1.ram.mem, base, kept, k2.ram)
  {
    hide Agrees;
  }

  /** From boot, the kernel with its bitmap in memory has the process table, and gives every process the address space
      and the page contents, that the kernel of Processes has and gives; memory is the same but for the frame of the
      bitmap, and the bits there are the pool. At the end two frames must be free whose bits lie in that frame. */
  lemma RunsWithTheBitmapInMemory(mem: Memory, reserved: nat, kdir: Frame, k0: Kernel, ops: seq<Op>)
    requires 0 < reserved <= COVERED && |ops| < 0xFFFF_FFFF && k0 == BootIn(mem, reserved, kdir)
    requires Spare(Run(k0, ops).ram.used) && ModulesAvoid(ops, reserved - 1, FullWords(reserved))
    ensures var (k, k') := (Run(k0, ops), RunIn(k0, reserved - 1, ops));
            && k' == k.(ram := k'.ram)
            && DiffersOnlyAt(k.ram.mem, k'.ram.mem, reserved - 1) && Agrees(k'.ram.mem, reserved - 1, k.ram.used)
            && forall s :: 0 <= s < MAX_PROCESSES && !k.table[s].state.Free? ==>
                 SameSpace(k.ram.mem, k'.ram.mem, DirOf(k.table[s]))
  {
    hide Run, RunIn, BootIn, Shadowed, Spare, ModulesAvoid, Agrees, SameSpace, Consistent, DiffersOnlyAt, FullWords;
    BootShadow(mem, reserved, kdir);
    RunsAlike(k0, reserved - 1, FullWords(reserved), k0, map[], reserved, [], ops);
  }

  lemma RunsAlike(k1: Kernel, base: nat, kept: nat, k2: Kernel, own: map<nat, Use>, reserved: nat, q: seq<nat>,
                  ops: seq<Op>)
    requires Shadowed(k1, base, kept, k2) && Consistent(k2, own, reserved, q) && base < reserved
    requires PidsLast(k2, ops) && Spare(Run(k2, ops).ram.used) && ModulesAvoid(ops, base, kept)
    ensures var (k, k') := (Run(k2, ops), RunIn(k1, base, ops));
            && k' == k.(ram := k'.ram) && base < TOTAL_FRAMES
            && DiffersOnlyAt(k.ram.mem, k'.ram.mem, base) && Agrees(k'.ram.mem, base, k.ram.used)
            && forall s :: 0 <= s < MAX_PROCESSES && !k.table[s].state.Free? ==>
                 SameSpace(k.ram.mem, k'.ram.mem, DirOf(k.table[s]))
  {
    hide Run, RunIn, Shadowed, Shadows, Spare, ModulesAvoid, Agrees, SameSpace, Consistent, KernelKept, DiffersOnlyAt;
    RunShadow(k1, base, kept, k2, own, reserved, q, ops);
    var own', q' := RunConsistent(k2, own, reserved, q, ops);
    ConsistentIsolated(Run(k2, ops), own', reserved, q');
    ShadowedParts(RunIn(k1, base, ops), base, kept, Run(k2, ops));
    ShadowedSpaces(RunIn(k1, base, ops), base, kept, Run(k2, ops), own', reserved);
  }

  lemma ShadowedSpaces(k1: Kernel, base: nat, kept: nat, k2: Kernel, own: map<nat, Use>, reserved: nat)
    requires Shadowed(k1, base, kept, k2) && Isolated(k2, own, reserved) && base < reserved
    ensures forall s :: 0 <= s < MAX_PROCESSES && !k2.table[s].state.Free? ==>
              SameSpace(k2.ram.mem, k1.ram.mem, DirOf(k2.table[s]))
  {
    hide Isolated, Shadows, SameSpace, Separated, LiveDirs;
    NobodysBitmap(k2, own, reserved, base);
    forall s | 0 <= s < MAX_PROCESSES && !k2.table[s].state.Free?
      ensures SameSpace(k2.ram.mem, k1.ram.mem, DirOf(k2.table[s]))
    {
      LiveDirOwned(k2, own, reserved, s);
      SameSpaceShadow(k1.ram.mem, base, kept, k2.ram, own, LiveDirs(k2.table), DirOf(k2.table[s]));
    }
  }

  lemma ConsistentIsolated(k: Kernel, own: map<nat, Use>, reserved: nat, q: seq<nat>)
    requires Consistent(k, own, reserved, q)
    ensures Isolated(k, own, reserved)
  {
  }

  lemma SameUse(k: Kernel, k': Kernel, a: Place)
    requires k' == k.(ram := k'.ram)
    requires forall s :: 0 <= s < MAX_PROCESSES && !k.table[s].state.Free? ==>
               SameSpace(k.ram.mem, k'.ram.mem, DirOf(k.table[s]))
    ensures InUse(k', a) <==> InUse(k, a)
    ensures InUse(k, a) ==> FrameIn(k', a) == FrameIn(k, a)
  {
    hide Present, FrameOf, Pde, Pte, SamePage;
    if a.s < MAX_PROCESSES && !k.table[a.s].state.Free? {
      var d := DirOf(k.table[a.s]);
      assert SameSpace(k.ram.mem, k'.ram.mem, d);
      match a
      case DirectoryOf(_) =>
      case TableOf(_, i) => assert i < KERNEL_PDT_IDX ==> Pde(k'.ram.mem, d, i) == Pde(k.ram.mem, d, i);
      case PageOf(_, i, j) =>
        if i < KERNEL_PDT_IDX && j < ENTRIES {
          assert SamePage(k.ram.mem, k'.ram.mem, d, i, j);
          SameEntry(k.ram.mem, k'.ram.mem, d, i, j);
        }
    }
  }

  lemma SameEntry(m: Memory, m': Memory, d: nat, i: nat, j: nat)
    requires SamePage(m, m', d, i, j)
    ensures Pte(m', d, i, j) == Pte(m, d, i, j)
  {
  }

  /** So with the bitmap in memory, too, no frame that a process uses is used twice or is the kernel's. */
  lemma NoFrameIsSharedInMemory(mem: Memory, reserved: nat, kdir: Frame, k0: Kernel, ops: seq<Op>)
    requires 0 < reserved <= COVERED && |ops| < 0xFFFF_FFFF && k0 == BootIn(mem, reserved, kdir)
    requires Spare(Run(k0, ops).ram.used) && ModulesAvoid(ops, reserved - 1, FullWords(reserved))
    ensures var k := RunIn(k0, reserved - 1, ops);
            && (forall a :: InUse(k, a) ==> reserved <= FrameIn(k, a) < TOTAL_FRAMES)
            && (forall a, b :: InUse(k, a) && InUse(k, b) && FrameIn(k, a) == FrameIn(k, b) ==> a == b)
  {
    hide Run, RunIn, Spare, ModulesAvoid, Agrees, SameSpace, DiffersOnlyAt, FullWords, InUse, FrameIn, Boot;
    hide MarkedBitmap;
    RunsWithTheBitmapInMemory(mem, reserved, kdir, k0, ops);
    NoFrameIsShared(MarkedBitmap(mem, reserved - 1, reserved), reserved, kdir, ops);
    var k, k' := Run(k0, ops), RunIn(k0, reserved - 1, ops);
    forall a
      ensures InUse(k', a) <==> InUse(k, a)
      ensures InUse(k, a) ==> a.s < MAX_PROCESSES && FrameIn(k', a) == FrameIn(k, a)
    {
      SameUse(k, k', a);
      if InUse(k, a) {
        SlotsInRange(k, a);
      }
    }
  }
}

/** What holds after any run of kernel operations, page faults and user stores. */
module Runs {
  import opened Machine
  import opened FramePool
  import opened PageTables
  import opened Ownership
  import opened Directories
  import opened ForkCopy
  import opened Translation
  import opened DemandPaging
  import opened Processes
  import opened Stores
  import opened Isolation
  import opened Lifecycle

  ghost predicate Consistent(k: Kernel, own: map<nat, Use>, reserved: nat, q: seq<nat>) {
    Isolated(k, own, reserved) && ReadyList(k, q) && Pids(k) && Childless(k)
  }

  lemma CurrentIsLive(k: Kernel, q: seq<nat>)
    requires ReadyList(k, q)
    ensures CurrentLive(k) && (k.head != NONE ==> k.table[k.head].state.Ready?) && (k.head == NONE <==> q == [])
    ensures k.current != NONE ==> k.table[k.current].state.Running? || k.table[k.current].state.Terminated?
  {
    assert q != [] ==> q[0] in q;
  }

  /** Processes other than the current one stay, keep their directories and see the same memory. */
  ghost predicate OthersKept(k: Kernel, k': Kernel) {
    forall s {:trigger k'.table[s]} :: 0 <= s < MAX_PROCESSES && s != k.current && !k.table[s].state.Free? ==>
      && !k'.table[s].state.Free? && DirOf(k'.table[s]) == DirOf(k.table[s])
      && SameSpace(k.ram.mem, k'.ram.mem, DirOf(k.table[s]))
  }

  lemma SpacesKeptOthers(k: Kernel, k': Kernel)
    requires SpacesKept(k, k')
    ensures OthersKept(k, k') && NobodyFreed(k.table, k'.table)
  {
    hide SameSpace;
    forall s | 0 <= s < MAX_PROCESSES && !k.table[s].state.Free?
      ensures !k'.table[s].state.Free? && DirOf(k'.table[s]) == DirOf(k.table[s])
      ensures SameSpace(k.ram.mem, k'.ram.mem, DirOf(k.table[s]))
    {
      var p := k'.table[s];
    }
  }

  /** No process comes, goes or moves. */
  ghost predicate SameDirs(t: Table, t': Table) {
    forall s {:trigger t'[s]} :: 0 <= s < MAX_PROCESSES ==>
      t'[s].state.Free? == t[s].state.Free? && (!t[s].state.Free? ==> DirOf(t'[s]) == DirOf(t[s]))
  }

  ghost predicate NobodyFreed(t: Table, t': Table) {
    forall s {:trigger t'[s]} :: 0 <= s < MAX_PROCESSES && !t[s].state.Free? ==> !t'[s].state.Free?
  }

  lemma SameMemoryKept(k: Kernel, k': Kernel, reserved: nat)
    requires k'.ram == k.ram && SameDirs(k.table, k'.table)
    ensures OthersKept(k, k') && KernelKept(k, k', reserved) && NobodyFreed(k.table, k'.table)
    ensures NoNewDirs(k.table, k'.table)
  {
    hide SameSpace;
    forall s | 0 <= s < MAX_PROCESSES && !k.table[s].state.Free?
      ensures SameSpace(k.ram.mem, k'.ram.mem, DirOf(k.table[s]))
    {
      SameSpaceReflexive(k.ram.mem, DirOf(k.table[s]));
    }
  }

  // ---- One step ----

  /** What a step does to the list: a slot pushed on its front, its front taken off, or nothing. */
  datatype Event = Push(slot: nat, pid: Word) | Pop | Quiet

  function BuildEvent(k: Kernel, k': Kernel): Event {
    var slot := FirstFree(k.table, 0);
    if slot < MAX_PROCESSES && k'.table[slot].state.Ready? then Push(slot, k.nextPid) else Quiet
  }

  function EventOf(k: Kernel, op: Op): Event {
    match op
    case Create(src, size) => BuildEvent(k, CreateProcess(k, src, size).0)
    case CreateKernel(entry, idle) => BuildEvent(k, CreateKernelProcess(k, entry, idle).0)
    case DoFork => BuildEvent(k, Fork(k).0)
    case DoExit(_) => if k.current != NONE && k.head != NONE then Pop else Quiet
    case DoSchedule => if k.head != NONE then Pop else Quiet
    case _ => Quiet
  }

  function After(q: seq<nat>, e: Event): seq<nat> {
    match e
    case Push(slot, _) => [slot] + q
    case Pop => if q == [] then [] else q[1..]
    case Quiet => q
  }

  ghost predicate StepKept(k: Kernel, k': Kernel, own': map<nat, Use>, reserved: nat, q': seq<nat>) {
    && Consistent(k', own', reserved, q') && OthersKept(k, k') && KernelKept(k, k', reserved)
    && NobodyFreed(k.table, k'.table) && k'.nextPid <= k.nextPid + 1
  }

  lemma TookPid(k: Kernel, k': Kernel, slot: nat)
    requires TakesSlot(k, k', slot)
    ensures k'.nextPid <= k.nextPid + 1
  {
  }

  lemma TookSlot(k: Kernel, own: map<nat, Use>, reserved: nat, q: seq<nat>, k': Kernel, own': map<nat, Use>)
    requires Consistent(k, own, reserved, q) && k.nextPid < 0xFFFF_FFFF
    requires k' == k || (FirstFree(k.table, 0) < MAX_PROCESSES && TakesSlot(k, k', FirstFree(k.table, 0)))
    requires Isolated(k', own', reserved) && SpacesKept(k, k') && KernelKept(k, k', reserved)
    ensures StepKept(k, k', own', reserved, After(q, BuildEvent(k, k')))
  {
    hide Isolated, ReadyList, Pids, Childless, SpacesKept, OthersKept, TakesSlot;
    SpacesKeptOthers(k, k');
    CurrentIsLive(k, q);
    if k' != k {
      TakesSlotKeeps(k, k', FirstFree(k.table, 0), q);
      TakesSlotKeepsPids(k, k', FirstFree(k.table, 0));
      TakesSlotKeepsChildless(k, k', FirstFree(k.table, 0));
      TookPid(k, k', FirstFree(k.table, 0));
    }
  }

  /** Creations and forks. */
  lemma BuildStep(k: Kernel, own: map<nat, Use>, reserved: nat, q: seq<nat>, op: Op)
    returns (own': map<nat, Use>)
    requires Consistent(k, own, reserved, q) && k.nextPid < 0xFFFF_FFFF
               && (op.Create? || op.CreateKernel? || op.DoFork?)
    ensures Step(k, op).Goes? && StepKept(k, Step(k, op).result, own', reserved, After(q, EventOf(k, op)))
  {
    hide Isolated, ReadyList, Pids, SpacesKept, KernelKept, CreateProcess, CreateKernelProcess, Fork, TakesSlot;
    hide StepKept, BuildEvent;
    CurrentIsLive(k, q);
    match op
    case Create(src, size) =>
      own' := CreateIsolated(k, own, reserved, src, size);
      CreateTakes(k, src, size);
      TookSlot(k, own, reserved, q, CreateProcess(k, src, size).0, own');
    case CreateKernel(entry, idle) =>
      own' := CreateKernelIsolated(k, own, reserved, entry, idle);
      CreateKernelTakes(k, entry, idle);
      TookSlot(k, own, reserved, q, CreateKernelProcess(k, entry, idle).0, own');
    case DoFork =>
      own' := ForkIsolated(k, own, reserved);
      ForkTakes(k);
      TookSlot(k, own, reserved, q, Fork(k).0, own');
  }

  /** schedule keeps the invariant and takes the front off the list; memory stays as it is. */
  lemma ScheduleStep(k: Kernel, own: map<nat, Use>, reserved: nat, q: seq<nat>)
    requires Consistent(k, own, reserved, q)
    ensures StepKept(k, Schedule(k), own, reserved, After(q, if k.head != NONE then Pop else Quiet))
    ensures SameDirs(k.table, Schedule(k).table) && Schedule(k).ram == k.ram && Schedule(k).kdir == k.kdir
  {
    hide Isolated, ReadyList, Pids, Childless, OthersKept, KernelKept;
    CurrentIsLive(k, q);
    ScheduleDispatches(k);
    DispatchKeeps(k, Schedule(k), q);
    DispatchKeepsPids(k, Schedule(k));
    DispatchKeepsChildless(k, Schedule(k));
    SameMemoryKept(k, Schedule(k), reserved);
    FewerProcesses(k, own, reserved, Schedule(k));
  }

  /** sys_exit keeps the invariant and takes the front off the list, even when it is called again by a process
      that has ended and is still current; memory stays as it is. */
  lemma ExitStep(k: Kernel, own: map<nat, Use>, reserved: nat, q: seq<nat>, status: Word)
    requires Consistent(k, own, reserved, q)
    ensures StepKept(k, Exit(k, status).0, own, reserved, After(q, EventOf(k, DoExit(status))))
    ensures SameDirs(k.table, Exit(k, status).0.table) && Exit(k, status).0.ram == k.ram
  {
    hide Isolated, ReadyList, Pids, Childless, OthersKept, KernelKept, Schedule;
    CurrentIsLive(k, q);
    if k.current == NONE {
      SameMemoryKept(k, k, reserved);
    } else {
      var k1 := Exited(k, status);
      ExitDispatches(k, status);
      ExitedKeeps(k, status, q);
      ExitedKeepsChildless(k, status);
      SameMemoryKept(k, k1, reserved);
      FewerProcesses(k, own, reserved, k1);
      ScheduleStep(k1, own, reserved, q);
      SameMemoryKept(k, Schedule(k1), reserved);
    }
  }

  lemma MemoryStep(k: Kernel, own: map<nat, Use>, reserved: nat, q: seq<nat>, k': Kernel, own': map<nat, Use>)
    requires Consistent(k, own, reserved, q) && k.current != NONE && k' == k.(ram := k'.ram)
    requires var d := DirOf(k.table[k.current]);
             && Separated(k'.ram, own', LiveDirs(k.table)) && Confined(k.ram, own, k'.ram, d)
             && Grown(k.ram, own, own', d)
             && forall i {:trigger Pde(k'.ram.mem, d, i)} :: KERNEL_PDT_IDX <= i < ENTRIES ==>
                  Pde(k'.ram.mem, d, i) == Pde(k.ram.mem, d, i)
    ensures StepKept(k, k', own', reserved, q)
  {
    hide Isolated, Separated, Confined, Grown, SameSpace, LiveDirs, Pde;
    CurrentIsLive(k, q);
    OwnMemoryChanged(k, own, reserved, k', own');
    assert ReadyList(k', q) && Childless(k');
  }

  lemma StoreStep(k: Kernel, own: map<nat, Use>, reserved: nat, q: seq<nat>, v: Word, b: Byte)
    returns (own': map<nat, Use>)
    requires Consistent(k, own, reserved, q) && k.current != NONE && v < KERNEL_VIRTUAL_START
    requires PutByte(k.ram, DirOf(k.table[k.current]), v, b).Goes?
    ensures StepKept(k, k.(ram := PutByte(k.ram, DirOf(k.table[k.current]), v, b).result), own', reserved, q)
  {
    hide ReadyList, Pids, Childless, Separated, Confined, Grown, LiveDirs, Pde, PutByte, StepKept, OnlyByte, SameWords;
    hide SharesKernelHalf, DistinctDirs, Reserves;
    var d := DirOf(k.table[k.current]);
    CurrentIsLive(k, q);
    LiveDirOwned(k, own, reserved, k.current);
    own' := StoreIsPrivate(k.ram, own, LiveDirs(k.table), d, v, b);
    MemoryStep(k, own, reserved, q, k.(ram := PutByte(k.ram, d, v, b).result), own');
  }

  lemma FaultStep(k: Kernel, own: map<nat, Use>, reserved: nat, q: seq<nat>, v: Word, write: bool, user: bool)
    returns (own': map<nat, Use>)
    requires Consistent(k, own, reserved, q) && Step(k, Fault(v, write, user)).Goes?
    ensures StepKept(k, Step(k, Fault(v, write, user)).result, own', reserved, q)
  {
    hide ReadyList, Pids, Separated, Confined, Grown, Preserved, LiveDirs, Pde, Pte, Present, StepKept;
    hide SharesKernelHalf, DistinctDirs, Reserves, Alloc, Entry, FreeCount, UserWord;
    var d := DirOf(k.table[k.current]);
    var error := ErrorCode(Present(Pte(k.ram.mem, d, DirIndex(v), TabIndex(v))), write, user);
    CurrentIsLive(k, q);
    LiveDirOwned(k, own, reserved, k.current);
    own' := FaultIsInvisible(k.ram, own, LiveDirs(k.table), d, v, error);
    var k' := Step(k, Fault(v, write, user)).result;
    AdvancesConfines(k.ram, own, k'.ram, own', d);
    MemoryStep(k, own, reserved, q, k', own');
  }

  /** The invariant of every step. There is none that it does not cover. */
  lemma StepKeeps(k: Kernel, own: map<nat, Use>, reserved: nat, q: seq<nat>, op: Op)
    returns (own': map<nat, Use>)
    requires Consistent(k, own, reserved, q) && k.nextPid < 0xFFFF_FFFF && Step(k, op).Goes?
    ensures StepKept(k, Step(k, op).result, own', reserved, After(q, EventOf(k, op)))
  {
    hide Isolated, ReadyList, Pids, Childless, StepKept, CreateProcess, CreateKernelProcess, Fork, BuildEvent, Schedule;
    hide Exit, Wait, HandleFault, PutByte, Present, Pte;
    match op
    case DoExit(status) => ExitStep(k, own, reserved, q, status); own' := own;
    case DoSchedule => ScheduleStep(k, own, reserved, q); own' := own;
    case DoWait(status) =>
      own' := own;
      WaitFindsNobody(k, status);
      StutterStep(k, own, reserved, q);
    case Fault(v, write, user) => own' := FaultStep(k, own, reserved, q, v, write, user);
    case Store(v, b) =>
      if k.current == NONE {
        own' := own;
        StutterStep(k, own, reserved, q);
      } else {
        own' := StoreStep(k, own, reserved, q, v, b);
      }
    case _ => own' := BuildStep(k, own, reserved, q, op);
  }

  lemma StutterStep(k: Kernel, own: map<nat, Use>, reserved: nat, q: seq<nat>)
    requires Consistent(k, own, reserved, q)
    ensures StepKept(k, k, own, reserved, q)
  {
    hide Isolated, ReadyList, Pids, Childless, OthersKept, KernelKept;
    SameMemoryKept(k, k, reserved);
  }
}

/** The main results about whole runs from boot. */
module Theorems {
  import opened Machine
  import opened PageTables
  import opened Ownership
  import opened ForkCopy
  import opened DemandPaging
  import opened Processes
  import opened Isolation
  import opened Lifecycle
  import opened Runs

  /** Fewer process creations than there are pids: next_pid has not come round. */
  ghost predicate PidsLast(k: Kernel, ops: seq<Op>) {
    k.nextPid + |ops| <= 0xFFFF_FFFF
  }

  /** The invariant holds at boot, with nothing owned and nobody ready. */
  lemma BootConsistent(mem: Memory, reserved: nat, kdir: Frame)
    requires 0 < reserved <= TOTAL_FRAMES
    ensures Consistent(Boot(mem, reserved, kdir), map[], reserved, [])
  {
    hide Pde, Pte;
    var k := Boot(mem, reserved, kdir);
    assert LiveDirs(k.table) == {};
    assert forall s :: 0 <= s < MAX_PROCESSES ==> k.table[s] == EmptyPcb();
  }

  /** And after any run, however it allocates, fails and leaks. */
  lemma {:induction false} RunConsistent(k: Kernel, own: map<nat, Use>, reserved: nat, q: seq<nat>, ops: seq<Op>)
    returns (own': map<nat, Use>, q': seq<nat>)
    requires Consistent(k, own, reserved, q) && PidsLast(k, ops)
    ensures Consistent(Run(k, ops), own', reserved, q') && KernelKept(k, Run(k, ops), reserved)
    decreases |ops|
  {
    hide Consistent, Step, EventOf, OthersKept;
    own', q' := own, q;
    if ops != [] && Step(k, ops[0]).Goes? {
      var k1 := Step(k, ops[0]).result;
      var own1 := StepKeeps(k, own, reserved, q, ops[0]);
      own', q' := RunConsistent(k1, own1, reserved, After(q, EventOf(k, ops[0])), ops[1..]);
    }
  }

  /** Each step of a run is the call it stands for. */
  lemma StepsAreCalls(k: Kernel, src: nat, size: Word, entry: Word, idle: Word, status: Word)
    ensures Step(k, Create(src, size)) == Goes(CreateProcess(k, src, size).0)
    ensures Step(k, CreateKernel(entry, idle)) == Goes(CreateKernelProcess(k, entry, idle).0)
    ensures Step(k, DoFork) == Goes(Fork(k).0) && Step(k, DoSchedule) == Goes(Schedule(k))
    ensures Step(k, DoExit(status)) == Goes(Exit(k, status).0)
    ensures Wait(k, status).Goes? ==> Step(k, DoWait(status)) == Goes(Wait(k, status).result.0)
  {
    hide CreateProcess, CreateKernelProcess, Fork, Schedule, Exit, Wait;
  }

  // ---- Isolation ----

  /** Where a frame is in use: as the directory of the process in slot s, its table i, or its page (i, j). */
  datatype Place = DirectoryOf(s: nat) | TableOf(s: nat, i: nat) | PageOf(s: nat, i: nat, j: nat)

  ghost predicate InUse(k: Kernel, at: Place) {
    && at.s < MAX_PROCESSES && !k.table[at.s].state.Free?
    && match at
       case DirectoryOf(s) => true
       case TableOf(s, i) => i < KERNEL_PDT_IDX && Present(Pde(k.ram.mem, DirOf(k.table[s]), i))
       case PageOf(s, i, j) => i < KERNEL_PDT_IDX && j < ENTRIES && Present(Pte(k.ram.mem, DirOf(k.table[s]), i, j))
  }

  function FrameIn(k: Kernel, at: Place): nat
    requires at.s < MAX_PROCESSES
  {
    var d := DirOf(k.table[at.s]);
    match at
    case DirectoryOf(_) => d
    case TableOf(_, i) => FrameOf(Pde(k.ram.mem, d, i))
    case PageOf(_, i, j) => FrameOf(Pte(k.ram.mem, d, i, j))
  }

  lemma UseOf(k: Kernel, own: map<nat, Use>, reserved: nat, at: Place)
    requires Isolated(k, own, reserved) && InUse(k, at)
    ensures FrameIn(k, at) in own
    ensures own[FrameIn(k, at)] == match at
                                   case DirectoryOf(s) => Directory(DirOf(k.table[s]))
                                   case TableOf(s, i) => Table(DirOf(k.table[s]), i)
                                   case PageOf(s, i, j) => Page(DirOf(k.table[s]), i, j)
  {
    hide Pde, Pte, Present, FrameOf, LargePage, LiveDirs;
    LiveDirOwned(k, own, reserved, at.s);
    var d := DirOf(k.table[at.s]);
    match at
    case DirectoryOf(s) =>
    case TableOf(s, i) => assert TableApart(k.ram.mem, own, d, i);
    case PageOf(s, i, j) => assert PageApart(k.ram.mem, own, d, i, j);
  }

  lemma OnePlace(k: Kernel, own: map<nat, Use>, reserved: nat, a: Place, b: Place)
    requires Isolated(k, own, reserved) && InUse(k, a) && InUse(k, b) && FrameIn(k, a) == FrameIn(k, b)
    ensures a == b
  {
    hide Pde, Pte, Present, FrameOf, Separated, LiveDirs, FrameIn, InUse;
    UseOf(k, own, reserved, a);
    UseOf(k, own, reserved, b);
    SlotsInRange(k, a);
    SlotsInRange(k, b);
  }

  lemma SlotsInRange(k: Kernel, a: Place)
    requires InUse(k, a)
    ensures a.s < MAX_PROCESSES && !k.table[a.s].state.Free?
  {
  }

  /** After any run, every frame that a process uses -- as directory, table or page -- is marked taken,
      is none of the kernel's, and is used in exactly one place of exactly one process. */
  lemma NoFrameIsShared(mem: Memory, reserved: nat, kdir: Frame, ops: seq<Op>)
    requires 0 < reserved <= TOTAL_FRAMES && |ops| < 0xFFFF_FFFF
    ensures var k := Run(Boot(mem, reserved, kdir), ops);
            && (forall a :: InUse(k, a) ==>
                  && reserved <= FrameIn(k, a) < TOTAL_FRAMES && k.ram.used[FrameIn(k, a)])
            && (forall a, b :: InUse(k, a) && InUse(k, b) && FrameIn(k, a) == FrameIn(k, b) ==> a == b)
  {
    hide Run, InUse, FrameIn, Boot, Isolated, ReadyList, Pids;
    var k := Run(Boot(mem, reserved, kdir), ops);
    BootConsistent(mem, reserved, kdir);
    BootPid(mem, reserved, kdir);
    var own, q := RunConsistent(Boot(mem, reserved, kdir), map[], reserved, [], ops);
    forall a | InUse(k, a)
      ensures a.s < MAX_PROCESSES && reserved <= FrameIn(k, a) < TOTAL_FRAMES && k.ram.used[FrameIn(k, a)]
    {
      SlotsInRange(k, a);
      UseOf(k, own, reserved, a);
      OwnedIsTaken(k, own, reserved, FrameIn(k, a));
    }
    forall a, b | InUse(k, a) && InUse(k, b) && FrameIn(k, a) == FrameIn(k, b)
      ensures a == b
    {
      OnePlace(k, own, reserved, a, b);
    }
  }

  lemma BootPid(mem: Memory, reserved: nat, kdir: Frame)
    requires reserved <= TOTAL_FRAMES
    ensures Boot(mem, reserved, kdir).nextPid == 1 && Boot(mem, reserved, kdir).ram.mem == mem
    ensures Boot(mem, reserved, kdir).kdir == kdir
  {
  }

  lemma OwnedIsTaken(k: Kernel, own: map<nat, Use>, reserved: nat, g: nat)
    requires Isolated(k, own, reserved) && g in own
    ensures reserved <= g < TOTAL_FRAMES && k.ram.used[g]
  {
    hide PagesApart, LiveDirs;
    assert g < TOTAL_FRAMES && k.ram.used[g];
  }

  /** No page-table, image, copy or user write of any run reaches a reserved frame, and every process keeps seeing the
      kernel in its upper quarter. (What the kernel itself keeps in reserved frames -- process table, list head,
      bitmap -- is modelled apart from memory.) */
  lemma KernelIsUntouched(mem: Memory, reserved: nat, kdir: Frame, ops: seq<Op>)
    requires 0 < reserved <= TOTAL_FRAMES && |ops| < 0xFFFF_FFFF
    ensures var k := Run(Boot(mem, reserved, kdir), ops);
            && (forall g :: 0 <= g < reserved ==> k.ram.mem[g] == mem[g])
            && (forall s, i :: 0 <= s < MAX_PROCESSES && !k.table[s].state.Free? && 768 <= i < 1024 ==>
                  Pde(k.ram.mem, DirOf(k.table[s]), i) == kdir[i])
  {
    hide Run, Boot, Separated, ReadyList, Pids, Pde, LiveDirs;
    var k := Run(Boot(mem, reserved, kdir), ops);
    BootConsistent(mem, reserved, kdir);
    BootPid(mem, reserved, kdir);
    var own, q := RunConsistent(Boot(mem, reserved, kdir), map[], reserved, [], ops);
    RunKeepsKdir(Boot(mem, reserved, kdir), ops);
    forall s, i | 0 <= s < MAX_PROCESSES && !k.table[s].state.Free? && KERNEL_PDT_IDX <= i < ENTRIES
      ensures Pde(k.ram.mem, DirOf(k.table[s]), i) == kdir[i]
    {
      LiveDirOwned(k, own, reserved, s);
    }
  }

  lemma {:induction false} RunKeepsKdir(k: Kernel, ops: seq<Op>)
    ensures Run(k, ops).kdir == k.kdir
    decreases |ops|
  {
    hide Step;
    if ops != [] && Step(k, ops[0]).Goes? {
      StepKeepsKdir(k, ops[0]);
      RunKeepsKdir(Step(k, ops[0]).result, ops[1..]);
    }
  }

  lemma StepKeepsKdir(k: Kernel, op: Op)
    requires Step(k, op).Goes?
    ensures Step(k, op).result.kdir == k.kdir
  {
    hide CreateDirectory, PutWord, Present, Pte, StackFill, PushFrame;
  }

  // ---- The process table ----

  /** After any run the list threaded through the process blocks is a proper list of exactly the Ready slots; the
      current process is Running or Terminated and not on it; pids are distinct, every parent's pid is the smaller,
      and nobody has a terminated child to wait for. */
  lemma ProcessTableIsSound(mem: Memory, reserved: nat, kdir: Frame, ops: seq<Op>)
    returns (q: seq<nat>)
    requires 0 < reserved <= TOTAL_FRAMES && |ops| < 0xFFFF_FFFF
    ensures var k := Run(Boot(mem, reserved, kdir), ops); ReadyList(k, q) && Pids(k) && Childless(k)
  {
    hide Run, Boot, Isolated, ReadyList, Pids, Childless;
    BootConsistent(mem, reserved, kdir);
    BootPid(mem, reserved, kdir);
    var own;
    own, q := RunConsistent(Boot(mem, reserved, kdir), map[], reserved, [], ops);
  }

  // ---- Memory of a process that is not running ----

  /** In no state of the run, before its last, is the process in slot s current. */
  ghost predicate NeverCurrent(k: Kernel, ops: seq<Op>, s: nat)
    decreases |ops|
  {
    ops == [] || (k.current != s && (Step(k, ops[0]).Halts? || NeverCurrent(Step(k, ops[0]).result, ops[1..], s)))
  }

  /** Whatever the other processes do -- fork, fault, store, exit, wait, run out of memory -- a process that is
      never current stays, and finds its address space as it was. */
  lemma {:induction false} BystanderKeepsItsMemory(k: Kernel, own: map<nat, Use>, reserved: nat, q: seq<nat>,
                                                   ops: seq<Op>, s: nat)
    requires Consistent(k, own, reserved, q) && PidsLast(k, ops)
    requires s < MAX_PROCESSES && !k.table[s].state.Free? && NeverCurrent(k, ops, s)
    ensures var k' := Run(k, ops);
            && !k'.table[s].state.Free? && DirOf(k'.table[s]) == DirOf(k.table[s])
            && SameSpace(k.ram.mem, k'.ram.mem, DirOf(k.table[s]))
    decreases |ops|
  {
    hide Consistent, Step, EventOf, KernelKept, SameSpace;
    if ops != [] && Step(k, ops[0]).Goes? {
      var k1 := Step(k, ops[0]).result;
      var own1 := StepKeeps(k, own, reserved, q, ops[0]);
      BystanderKeepsItsMemory(k1, own1, reserved, After(q, EventOf(k, ops[0])), ops[1..], s);
      SameSpaceTransitive(k.ram.mem, k1.ram.mem, Run(k, ops).ram.mem, DirOf(k.table[s]));
    } else {
      SameSpaceReflexive(k.ram.mem, DirOf(k.table[s]));
    }
  }

  // ---- Dispatch ----

  function Events(k: Kernel, ops: seq<Op>): seq<Event>
    decreases |ops|
  {
    if ops == [] then []
    else match Step(k, ops[0]) case Halts => [] case Goes(k') => [EventOf(k, ops[0])] + Events(k', ops[1..])
  }

  /** The pids made current, in order. */
  function Dispatched(k: Kernel, ops: seq<Op>): seq<Word>
    decreases |ops|
  {
    if ops == [] then []
    else
      match Step(k, ops[0])
      case Halts => []
      case Goes(k') =>
        (if EventOf(k, ops[0]).Pop? && k'.current != NONE then [k'.table[k'.current].pid]
          else []) + Dispatched(k', ops[1..])
  }

  /** What a stack yields when pids are pushed and popped as the events say. */
  function Popped(stack: seq<Word>, events: seq<Event>): seq<Word>
    decreases |events|
  {
    if events == [] then []
    else
      match events[0]
      case Push(_, pid) => Popped([pid] + stack, events[1..])
      case Pop => if stack == [] then Popped([], events[1..]) else [stack[0]] + Popped(stack[1..], events[1..])
      case Quiet => Popped(stack, events[1..])
  }

  function PidOf(t: Table, s: nat): Word {
    if s < MAX_PROCESSES then t[s].pid else 0
  }

  function PidsIn(t: Table, q: seq<nat>): seq<Word> {
    seq<Word>(|q|, x requires 0 <= x < |q| => PidOf(t, q[x]))
  }

  /** The effect of an event on the pids waiting, newest first. */
  ghost predicate FollowsEvent(k: Kernel, k': Kernel, q: seq<nat>, e: Event) {
    var before, after := PidsIn(k.table, q), PidsIn(k'.table, After(q, e));
    match e
    case Push(_, pid) => after == [pid] + before && pid == k.nextPid && k'.nextPid == k.nextPid + 1
    case Pop => q != [] && k'.current == q[0] && before == [PidOf(k'.table, q[0])] + after && k'.nextPid == k.nextPid
    case Quiet => after == before && k.nextPid <= k'.nextPid <= k.nextPid + 1
  }

  lemma TakePids(k: Kernel, k': Kernel, q: seq<nat>)
    requires ReadyList(k, q) && k.nextPid < 0xFFFF_FFFF
    requires k' == k || (FirstFree(k.table, 0) < MAX_PROCESSES && TakesSlot(k, k', FirstFree(k.table, 0)))
    ensures FollowsEvent(k, k', q, BuildEvent(k, k'))
  {
    hide PidsIn, ReadyList;
    var slot := FirstFree(k.table, 0);
    WaitingPids(k, k', q, slot);
    if BuildEvent(k, k').Push? {
      PushedPids(k'.table, q, slot);
    }
  }

  lemma WaitingPids(k: Kernel, k': Kernel, q: seq<nat>, slot: nat)
    requires ReadyList(k, q) && (k' == k || TakesSlot(k, k', slot))
    ensures PidsIn(k'.table, q) == PidsIn(k.table, q)
  {
    hide Chain;
    forall x | 0 <= x < |q|
      ensures PidOf(k'.table, q[x]) == PidOf(k.table, q[x])
    {
      assert q[x] in q;
      assert q[x] < MAX_PROCESSES && k.table[q[x]].state.Ready?;
    }
  }

  lemma PushedPids(t: Table, q: seq<nat>, slot: nat)
    ensures PidsIn(t, [slot] + q) == [PidOf(t, slot)] + PidsIn(t, q)
  {
    hide PidOf;
  }

  lemma DispatchPids(k: Kernel, k': Kernel, q: seq<nat>)
    requires ReadyList(k, q) && DispatchesHead(k, k')
    ensures FollowsEvent(k, k', q, if k.head != NONE then Pop else Quiet)
  {
    if q != [] {
      assert q[0] in q;
      forall x | 0 <= x < |q|
        ensures PidOf(k'.table, q[x]) == PidOf(k.table, q[x])
      {
        assert q[x] in q;
      }
    }
  }

  lemma SamePids(k: Kernel, k': Kernel, q: seq<nat>)
    requires forall s :: s in q && s < MAX_PROCESSES ==> k'.table[s].pid == k.table[s].pid
    requires k'.nextPid == k.nextPid
    ensures FollowsEvent(k, k', q, Quiet) && PidsIn(k'.table, q) == PidsIn(k.table, q)
  {
    forall x | 0 <= x < |q|
      ensures PidOf(k'.table, q[x]) == PidOf(k.table, q[x])
    {
      assert q[x] in q;
    }
  }

  lemma ExitPids(k: Kernel, q: seq<nat>, status: Word)
    requires ReadyList(k, q) && Pids(k) && k.current != NONE
    ensures FollowsEvent(k, Exit(k, status).0, q, if k.head != NONE then Pop else Quiet)
  {
    hide ReadyList, Chain, Pids, Schedule;
    var k1 := Exited(k, status);
    ExitDispatches(k, status);
    ExitedKeeps(k, status, q);
    ScheduleDispatches(k1);
    DispatchPids(k1, Schedule(k1), q);
    SamePids(k, k1, q);
  }

  lemma StepPids(k: Kernel, own: map<nat, Use>, reserved: nat, q: seq<nat>, op: Op)
    requires Consistent(k, own, reserved, q) && k.nextPid < 0xFFFF_FFFF && Step(k, op).Goes?
    ensures FollowsEvent(k, Step(k, op).result, q, EventOf(k, op))
  {
    hide Isolated, Pids, Childless, ReadyList, CreateProcess, CreateKernelProcess, Fork, Schedule, Exit, Wait,
      Chain, PutWord;
    hide HandleFault, Present, Pte;
    hide FollowsEvent, TakesSlot, DispatchesHead;
    CurrentIsLive(k, q);
    match op
    case Create(src, size) => CreateTakes(k, src, size); TakePids(k, CreateProcess(k, src, size).0, q);
    case CreateKernel(entry, idle) => CreateKernelTakes(k, entry, idle); TakePids(k,
      CreateKernelProcess(k, entry, idle).0, q);
    case DoFork => ForkTakes(k); TakePids(k, Fork(k).0, q);
    case DoWait(status) =>
      WaitFindsNobody(k, status);
      SamePids(k, k, q);
    case DoExit(status) =>
      if k.current != NONE {
        ExitPids(k, q, status);
      } else {
        assert Exit(k, status).0 == k by { ExitNobody(k, status); }
        SamePids(k, k, q);
      }
    case DoSchedule => ScheduleDispatches(k); DispatchPids(k, Schedule(k), q);
    case _ => SamePids(k, Step(k, op).result, q);
  }

  lemma ExitNobody(k: Kernel, status: Word)
    requires k.current == NONE
    ensures Exit(k, status) == (k, 0xFFFF_FFFF)
  {
  }

  lemma PoppedStep(stack: seq<Word>, e: Event, rest: seq<Event>)
    ensures Popped(stack, [e] + rest) ==
            if e.Push? then Popped([e.pid] + stack, rest)
            else if e.Quiet? then Popped(stack, rest)
            else if stack == [] then Popped([], rest)
            else [stack[0]] + Popped(stack[1..], rest)
  {
    assert ([e] + rest)[1..] == rest;
  }

  lemma SlotsOf(k: Kernel, own: map<nat, Use>, reserved: nat, q: seq<nat>)
    requires Consistent(k, own, reserved, q)
    ensures forall s :: s in q ==> s < MAX_PROCESSES
  {
    hide Isolated, Pids, Chain;
  }

  /** Over any run, processes are dispatched as a stack yields them: newest first, from creations and
      forks pushed and schedules and exits popping. */
  lemma {:induction false} DispatchIsAStack(k: Kernel, own: map<nat, Use>, reserved: nat, q: seq<nat>, ops: seq<Op>)
    requires Consistent(k, own, reserved, q) && PidsLast(k, ops)
    ensures Dispatched(k, ops) == Popped(PidsIn(k.table, q), Events(k, ops))
    decreases |ops|
  {
    hide Consistent, Step, EventOf, PidsIn, OthersKept, KernelKept;
    if ops != [] && Step(k, ops[0]).Goes? {
      var k', e := Step(k, ops[0]).result, EventOf(k, ops[0]);
      var own' := StepKeeps(k, own, reserved, q, ops[0]);
      StepPids(k, own, reserved, q, ops[0]);
      DispatchIsAStack(k', own', reserved, After(q, e), ops[1..]);
      PoppedStep(PidsIn(k.table, q), e, Events(k', ops[1..]));
      SlotsOf(k, own, reserved, q);
    }
  }

  lemma WaitingPidsDiffer(k: Kernel, q: seq<nat>)
    requires ReadyList(k, q) && Pids(k)
    ensures NoRepeats(PidsIn(k.table, q)) && forall p :: p in PidsIn(k.table, q) ==> p < k.nextPid
  {
    hide Chain;
    forall a, b | 0 <= a < b < |q|
      ensures PidOf(k.table, q[a]) != PidOf(k.table, q[b])
    {
      assert q[a] in q && q[b] in q && q[a] != q[b];
    }
    forall a | 0 <= a < |q|
      ensures PidOf(k.table, q[a]) < k.nextPid
    {
      assert q[a] in q;
    }
  }

  /** Over any run, no pid is dispatched twice. */
  lemma {:induction false} DispatchedAtMostOnce(k: Kernel, own: map<nat, Use>, reserved: nat, q: seq<nat>, ops: seq<Op>)
    requires Consistent(k, own, reserved, q) && PidsLast(k, ops)
    ensures NoRepeats(Dispatched(k, ops))
    ensures forall p :: p in Dispatched(k, ops) ==> p in PidsIn(k.table, q) || p >= k.nextPid
    decreases |ops|
  {
    hide Isolated, ReadyList, Pids, Childless, Step, EventOf, PidsIn, OthersKept, KernelKept, NoRepeats;
    if ops != [] && Step(k, ops[0]).Goes? {
      var k', e := Step(k, ops[0]).result, EventOf(k, ops[0]);
      var own' := StepKeeps(k, own, reserved, q, ops[0]);
      StepPids(k, own, reserved, q, ops[0]);
      var q', rest := After(q, e), Dispatched(k', ops[1..]);
      DispatchedAtMostOnce(k', own', reserved, q', ops[1..]);
      WaitingPidsDiffer(k, q);
      SlotsOf(k, own, reserved, q);
      if e.Pop? {
        var p, after := PidOf(k'.table, q[0]), PidsIn(k'.table, q');
        assert Dispatched(k, ops) == [p] + rest;
        FirstOnce(p, after, rest, k.nextPid);
      } else {
        assert Dispatched(k, ops) == rest;
      }
    } else {
      NoneRepeat();
    }
  }

  lemma NoneRepeat()
    ensures NoRepeats<Word>([])
  {
  }

  lemma FirstOnce(p: Word, after: seq<Word>, rest: seq<Word>, next: Word)
    requires NoRepeats([p] + after) && (forall x :: x in [p] + after ==> x < next)
    requires NoRepeats(rest) && forall x :: x in rest ==> x in after || x >= next
    ensures NoRepeats([p] + rest)
  {
    assert p in [p] + after;
    forall x | x in after
      ensures x != p
    {
      var a :| 0 <= a < |after| && after[a] == x;
      assert ([p] + after)[0] == p && ([p] + after)[a + 1] == x;
    }
    forall a, b | 0 <= a < b < |[p] + rest|
      ensures ([p] + rest)[a] != ([p] + rest)[b]
    {
      assert rest[b - 1] in rest;
      assert a > 0 ==> ([p] + rest)[a] == rest[a - 1];
    }
  }

  /** Both, for runs from boot. */
  lemma DispatchFromBoot(mem: Memory, reserved: nat, kdir: Frame, ops: seq<Op>)
    requires 0 < reserved <= TOTAL_FRAMES && |ops| < 0xFFFF_FFFF
    ensures var k := Boot(mem, reserved, kdir);
            Dispatched(k, ops) == Popped([], Events(k, ops)) && NoRepeats(Dispatched(k, ops))
  {
    hide Boot, Dispatched, Popped, Events, Isolated, ReadyList, Pids, NoRepeats;
    var k := Boot(mem, reserved, kdir);
    BootConsistent(mem, reserved, kdir);
    BootPid(mem, reserved, kdir);
    DispatchIsAStack(k, map[], reserved, [], ops);
    DispatchedAtMostOnce(k, map[], reserved, [], ops);
    assert PidsIn(k.table, []) == [];
  }
}

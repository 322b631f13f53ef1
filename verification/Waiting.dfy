/** What becomes of processes that end: nobody ever waits for one with success, and their blocks are never
    given out again. */
module Waiting {
  import opened Machine
  import opened PageTables
  import opened Ownership
  import opened Processes
  import opened Isolation
  import opened Lifecycle
  import opened Runs
  import opened Theorems

  /** After any run from boot sys_wait fails and changes nothing, whatever address it is given. A parent that has
      a terminated child is never dispatched again to wait for it. */
  lemma WaitAlwaysFails(mem: Memory, reserved: nat, kdir: Frame, ops: seq<Op>, status: Word)
    requires 0 < reserved <= TOTAL_FRAMES && |ops| < 0xFFFF_FFFF
    ensures var k := Run(Boot(mem, reserved, kdir), ops);
            Wait(k, status) == Goes((k, 0xFFFF_FFFF))
  {
    hide Run, Boot, Isolated, ReadyList, Pids, Childless, Wait;
    BootConsistent(mem, reserved, kdir);
    BootPid(mem, reserved, kdir);
    var own, q := RunConsistent(Boot(mem, reserved, kdir), map[], reserved, [], ops);
    WaitFindsNobody(Run(Boot(mem, reserved, kdir), ops), status);
  }

  // ---- Terminated processes ----

  lemma TakenSparesZombies(k: Kernel, k': Kernel, slot: nat, s: nat)
    requires k' == k || TakesSlot(k, k', slot)
    requires s < MAX_PROCESSES && k.table[s].state.Terminated? && k.current != s
    ensures k'.current != s && k'.table[s] == k.table[s]
  {
  }

  lemma DispatchSparesZombies(k: Kernel, k': Kernel, s: nat)
    requires DispatchesHead(k, k') && (k.head != NONE ==> k.table[k.head].state.Ready?)
    requires s < MAX_PROCESSES && k.table[s].state.Terminated? && (k.head == NONE ==> k.current != s)
    ensures k'.current != s && k'.table[s] == k.table[s]
  {
  }

  lemma ExitSparesZombies(k: Kernel, q: seq<nat>, status: Word, s: nat)
    requires ReadyList(k, q) && Pids(k) && k.current != NONE
    requires s < MAX_PROCESSES && k.table[s].state.Terminated? && k.current != s
    ensures Exit(k, status).0.current != s && Exit(k, status).0.table[s] == k.table[s]
  {
    hide Schedule, ReadyList, Pids, Chain;
    ExitDispatches(k, status);
    ExitedKeeps(k, status, q);
    CurrentIsLive(Exited(k, status), q);
    ScheduleDispatches(Exited(k, status));
    DispatchSparesZombies(Exited(k, status), Schedule(Exited(k, status)), s);
  }

  lemma StepSparesZombies(k: Kernel, own: map<nat, Use>, reserved: nat, q: seq<nat>, op: Op, s: nat)
    requires Consistent(k, own, reserved, q) && Step(k, op).Goes?
    requires s < MAX_PROCESSES && k.table[s].state.Terminated? && k.current != s
    ensures Step(k, op).result.current != s && Step(k, op).result.table[s] == k.table[s]
  {
    hide Isolated, Pids, Childless, ReadyList, CreateProcess, CreateKernelProcess, Fork, Exit, Schedule, Wait, PutByte;
    hide TakesSlot, DispatchesHead, Present, Pte;
    CurrentIsLive(k, q);
    match op
    case Create(src, size) =>
      CreateTakes(k, src, size);
      TakenSparesZombies(k, CreateProcess(k, src, size).0, FirstFree(k.table, 0), s);
    case CreateKernel(entry, idle) =>
      CreateKernelTakes(k, entry, idle);
      TakenSparesZombies(k, CreateKernelProcess(k, entry, idle).0, FirstFree(k.table, 0), s);
    case DoFork =>
      ForkTakes(k);
      TakenSparesZombies(k, Fork(k).0, FirstFree(k.table, 0), s);
    case DoExit(status) =>
      if k.current != NONE {
        ExitSparesZombies(k, q, status, s);
      } else {
        ExitNobody(k, status);
      }
    case DoSchedule =>
      ScheduleDispatches(k);
      DispatchSparesZombies(k, Schedule(k), s);
    case DoWait(status) => WaitFindsNobody(k, status);
    case _ =>
  }

  /** Once a process has ended and another is current, its block stays as it is for good. */
  lemma {:induction false} ZombieKeepsItsBlock(k: Kernel, own: map<nat, Use>, reserved: nat, q: seq<nat>,
    ops: seq<Op>, s: nat)
    requires Consistent(k, own, reserved, q) && PidsLast(k, ops)
    requires s < MAX_PROCESSES && k.table[s].state.Terminated? && k.current != s
    ensures Run(k, ops).table[s] == k.table[s] && Run(k, ops).current != s
    decreases |ops|
  {
    hide Consistent, Step, EventOf, OthersKept, KernelKept;
    if ops != [] && Step(k, ops[0]).Goes? {
      var own1 := StepKeeps(k, own, reserved, q, ops[0]);
      StepSparesZombies(k, own, reserved, q, ops[0], s);
      ZombieKeepsItsBlock(Step(k, ops[0]).result, own1, reserved, After(q, EventOf(k, ops[0])), ops[1..], s);
    }
  }

  // ---- sys_exit ----

  /** sys_exit, field by field: the process is Terminated with its status, the rest of its block is as it was, and
      the first of the list, if there is one, becomes current and Running. */
  lemma ExitEnds(k: Kernel, q: seq<nat>, status: Word)
    requires ReadyList(k, q) && k.current != NONE
    ensures var (k', r) := Exit(k, status);
            var p, p' := k.table[k.current], k'.table[k.current];
            && r == 0 && k'.ram == k.ram && k'.kdir == k.kdir && k'.nextPid == k.nextPid
            && p'.state.Terminated? && p'.ctx.reg.eax == status
            && p'.pid == p.pid && p'.parentPid == p.parentPid && p'.next == p.next && p'.kstack == p.kstack
            && p'.ctx.cr3 == p.ctx.cr3 && p'.ctx.stack == p.ctx.stack
            && p'.ctx.reg.edi == p.ctx.reg.edi && p'.ctx.reg.esi == p.ctx.reg.esi && p'.ctx.reg.ebp == p.ctx.reg.ebp
            && p'.ctx.reg.edx == p.ctx.reg.edx && p'.ctx.reg.ecx == p.ctx.reg.ecx && p'.ctx.reg.ebx == p.ctx.reg.ebx
            && p'.ctx.reg.esp == p.ctx.reg.esp
    ensures var k' := Exit(k, status).0;
            && k'.current == (if q == [] then k.current else q[0])
            && k'.head == (if |q| < 2 then NONE else q[1])
            && forall s :: 0 <= s < MAX_PROCESSES && s != k.current ==>
                 k'.table[s] == if q != [] && s == q[0] then k.table[s].(state := Running) else k.table[s]
  {
    if q != [] {
      assert q[0] in q;
      SecondIs(k.table, k.head, q);
    }
  }

  lemma SecondIs(t: Table, head: Slot, q: seq<nat>)
    requires Chain(t, head, q) && q != []
    ensures q[0] < MAX_PROCESSES && t[q[0]].next == if |q| < 2 then NONE else q[1]
  {
    var rest := q[1..];
    assert Chain(t, t[q[0]].next, rest);
  }

  lemma ExitedStays(k: Kernel, q: seq<nat>, status: Word, s: nat)
    requires ReadyList(k, q) && k.current != NONE && s < MAX_PROCESSES && k.table[s].state.Terminated?
    ensures var p, p' := k.table[s], Exit(k, status).0.table[s];
            p'.state.Terminated? && p'.pid == p.pid && p'.parentPid == p.parentPid && (k.current != s ==> p' == p)
  {
    hide Exit, Chain;
    ExitEnds(k, q, status);
    assert q != [] ==> q[0] in q;
  }

  /** A terminated process never comes back. Only itself can change its block, by ending again while it is still
      current. */
  lemma StepKeepsEnded(k: Kernel, own: map<nat, Use>, reserved: nat, q: seq<nat>, op: Op, s: nat)
    requires Consistent(k, own, reserved, q) && Step(k, op).Goes?
    requires s < MAX_PROCESSES && k.table[s].state.Terminated?
    ensures var p, p' := k.table[s], Step(k, op).result.table[s];
            && p'.state.Terminated? && p'.pid == p.pid && p'.parentPid == p.parentPid
            && (k.current != s || !op.DoExit? ==> p' == p)
  {
    hide Isolated, Pids, Childless, ReadyList, CreateProcess, CreateKernelProcess, Fork, Exit, Schedule, Wait, PutByte;
    hide TakesSlot, DispatchesHead, Present, Pte;
    CurrentIsLive(k, q);
    match op
    case Create(src, size) =>
      CreateTakes(k, src, size);
      TakenKeepsEnded(k, CreateProcess(k, src, size).0, FirstFree(k.table, 0), s);
    case CreateKernel(entry, idle) =>
      CreateKernelTakes(k, entry, idle);
      TakenKeepsEnded(k, CreateKernelProcess(k, entry, idle).0, FirstFree(k.table, 0), s);
    case DoFork =>
      ForkTakes(k);
      TakenKeepsEnded(k, Fork(k).0, FirstFree(k.table, 0), s);
    case DoExit(status) =>
      if k.current != NONE {
        ExitedStays(k, q, status, s);
      } else {
        ExitNobody(k, status);
      }
    case DoSchedule =>
      ScheduleDispatches(k);
      DispatchKeepsEnded(k, Schedule(k), s);
    case DoWait(status) => WaitFindsNobody(k, status);
    case _ =>
  }

  lemma TakenKeepsEnded(k: Kernel, k': Kernel, slot: nat, s: nat)
    requires k' == k || TakesSlot(k, k', slot)
    requires s < MAX_PROCESSES && k.table[s].state.Terminated?
    ensures k'.table[s] == k.table[s]
  {
  }

  lemma DispatchKeepsEnded(k: Kernel, k': Kernel, s: nat)
    requires DispatchesHead(k, k') && (k.head != NONE ==> k.table[k.head].state.Ready?)
    requires s < MAX_PROCESSES && k.table[s].state.Terminated?
    ensures k'.table[s] == k.table[s]
  {
  }

  /** Over any run an ended process stays Terminated under its pid. */
  lemma {:induction false} EndedForGood(k: Kernel, own: map<nat, Use>, reserved: nat, q: seq<nat>, ops: seq<Op>, s: nat)
    requires Consistent(k, own, reserved, q) && PidsLast(k, ops)
    requires s < MAX_PROCESSES && k.table[s].state.Terminated?
    ensures var p, p' := k.table[s], Run(k, ops).table[s];
            && p'.state.Terminated? && p'.pid == p.pid && p'.parentPid == p.parentPid
            && ((forall op :: op in ops ==> !op.DoExit?) ==> p' == p)
    decreases |ops|
  {
    hide Consistent, Step, EventOf, OthersKept, KernelKept;
    if ops != [] && Step(k, ops[0]).Goes? {
      var own1 := StepKeeps(k, own, reserved, q, ops[0]);
      StepKeepsEnded(k, own, reserved, q, ops[0], s);
      EndedForGood(Step(k, ops[0]).result, own1, reserved, After(q, EventOf(k, ops[0])), ops[1..], s);
      assert ops[0] in ops && forall op :: op in ops[1..] ==> op in ops;
    }
  }

  /** A process that exits has ended for good: whatever happens afterwards its block is Terminated, with its pid. It
      keeps the status if another process was waiting to run, which is then current; otherwise it stays current,
      and keeps the status until it exits again. */
  lemma ExitIsForGood(k: Kernel, own: map<nat, Use>, reserved: nat, q: seq<nat>, status: Word, ops: seq<Op>)
    requires Consistent(k, own, reserved, q) && k.current != NONE && PidsLast(k, [DoExit(status)] + ops)
    ensures var k' := Run(k, [DoExit(status)] + ops);
            var p, p' := k.table[k.current], k'.table[k.current];
            && p'.state.Terminated? && p'.pid == p.pid && p'.parentPid == p.parentPid
            && (q != [] || (forall op :: op in ops ==> !op.DoExit?) ==> p'.ctx.reg.eax == status)
            && (q != [] ==> k'.current != k.current)
  {
    hide Isolated, ReadyList, Pids, Childless, Exit, EventOf, OthersKept, KernelKept, Run;
    ExitEnds(k, q, status);
    ExitStep(k, own, reserved, q, status);
    var k1, q1 := Exit(k, status).0, After(q, EventOf(k, DoExit(status)));
    RunOne(k, DoExit(status), ops);
    EndedForGood(k1, own, reserved, q1, ops, k.current);
    if q != [] {
      HeadIsAnother(k, q);
      ZombieKeepsItsBlock(k1, own, reserved, q1, ops, k.current);
    }
  }

  lemma RunOne(k: Kernel, op: Op, ops: seq<Op>)
    ensures Run(k, [op] + ops) == match Step(k, op) case Halts => k case Goes(k') => Run(k', ops)
  {
    hide Step;
    assert ([op] + ops)[1..] == ops;
  }

  lemma HeadIsAnother(k: Kernel, q: seq<nat>)
    requires ReadyList(k, q) && q != []
    ensures k.current != q[0]
  {
    assert q[0] in q;
  }

  // ---- How many processes there can be ----

  function Busy(t: Table, i: nat): nat
    requires i <= MAX_PROCESSES
    decreases MAX_PROCESSES - i
  {
    if i == MAX_PROCESSES then 0 else (if t[i].state.Free? then 0 else 1) + Busy(t, i + 1)
  }

  lemma {:induction false} BusyAtMost(t: Table, i: nat)
    requires i <= MAX_PROCESSES
    ensures Busy(t, i) <= MAX_PROCESSES - i
    ensures Busy(t, i) == MAX_PROCESSES - i <==> FirstFree(t, i) == MAX_PROCESSES
    decreases MAX_PROCESSES - i
  {
    if i < MAX_PROCESSES {
      BusyAtMost(t, i + 1);
    }
  }

  lemma {:induction false} SameBusy(t: Table, t': Table, i: nat)
    requires i <= MAX_PROCESSES
    requires forall s :: i <= s < MAX_PROCESSES ==> t'[s].state.Free? == t[s].state.Free?
    ensures Busy(t', i) == Busy(t, i)
    decreases MAX_PROCESSES - i
  {
    if i < MAX_PROCESSES {
      SameBusy(t, t', i + 1);
    }
  }

  lemma {:induction false} OneMoreBusy(t: Table, t': Table, slot: nat, i: nat)
    requires i <= slot < MAX_PROCESSES && t[slot].state.Free? && !t'[slot].state.Free?
    requires forall s :: 0 <= s < MAX_PROCESSES && s != slot ==> t'[s].state.Free? == t[s].state.Free?
    ensures Busy(t', i) == Busy(t, i) + 1
    decreases slot - i
  {
    if i < slot {
      OneMoreBusy(t, t', slot, i + 1);
    } else {
      SameBusy(t, t', i + 1);
    }
  }

  function Pushes(events: seq<Event>): nat {
    if events == [] then 0 else (if events[0].Push? then 1 else 0) + Pushes(events[1..])
  }

  lemma TookBusy(k: Kernel, k': Kernel)
    requires k' == k || (FirstFree(k.table, 0) < MAX_PROCESSES && TakesSlot(k, k', FirstFree(k.table, 0)))
    ensures Busy(k'.table, 0) == Busy(k.table, 0) + if BuildEvent(k, k').Push? then 1 else 0
  {
    var slot := FirstFree(k.table, 0);
    if k' != k && k'.table[slot].state.Ready? {
      OneMoreBusy(k.table, k'.table, slot, 0);
    } else {
      SameBusy(k.table, k'.table, 0);
    }
  }

  lemma ExitBusy(k: Kernel, own: map<nat, Use>, reserved: nat, q: seq<nat>, status: Word)
    requires Consistent(k, own, reserved, q)
    ensures Busy(Exit(k, status).0.table, 0) == Busy(k.table, 0)
  {
    hide Consistent, Exit, Busy, OthersKept, KernelKept;
    ExitStep(k, own, reserved, q, status);
    SameBusy(k.table, Exit(k, status).0.table, 0);
  }

  lemma ScheduleBusy(k: Kernel, own: map<nat, Use>, reserved: nat, q: seq<nat>)
    requires Consistent(k, own, reserved, q)
    ensures Busy(Schedule(k).table, 0) == Busy(k.table, 0)
  {
    hide Consistent, Schedule, Busy, OthersKept, KernelKept;
    ScheduleStep(k, own, reserved, q);
    SameBusy(k.table, Schedule(k).table, 0);
  }

  /** A step makes one more block busy exactly when it puts a process on the list, and never frees one. */
  lemma StepBusy(k: Kernel, own: map<nat, Use>, reserved: nat, q: seq<nat>, op: Op)
    requires Consistent(k, own, reserved, q) && Step(k, op).Goes?
    ensures Busy(Step(k, op).result.table, 0) == Busy(k.table, 0) + if EventOf(k, op).Push? then 1 else 0
  {
    hide Isolated, Pids, Childless, ReadyList, CreateProcess, CreateKernelProcess, Fork, Exit, Schedule, Wait, PutByte;
    hide TakesSlot, Present, Pte, Busy, BuildEvent;
    CurrentIsLive(k, q);
    match op
    case Create(src, size) => CreateTakes(k, src, size); TookBusy(k, CreateProcess(k, src, size).0);
    case CreateKernel(entry, idle) => CreateKernelTakes(k, entry, idle); TookBusy(k,
      CreateKernelProcess(k, entry, idle).0);
    case DoFork => ForkTakes(k); TookBusy(k, Fork(k).0);
    case DoExit(status) => ExitBusy(k, own, reserved, q, status);
    case DoSchedule => ScheduleBusy(k, own, reserved, q);
    case DoWait(status) => WaitFindsNobody(k, status);
    case _ =>
  }

  lemma {:induction false} RunBusy(k: Kernel, own: map<nat, Use>, reserved: nat, q: seq<nat>, ops: seq<Op>)
    requires Consistent(k, own, reserved, q) && PidsLast(k, ops)
    ensures Busy(Run(k, ops).table, 0) == Busy(k.table, 0) + Pushes(Events(k, ops))
    decreases |ops|
  {
    hide Consistent, Step, EventOf, OthersKept, KernelKept, Busy;
    if ops != [] && Step(k, ops[0]).Goes? {
      var k', e := Step(k, ops[0]).result, EventOf(k, ops[0]);
      var own1 := StepKeeps(k, own, reserved, q, ops[0]);
      StepBusy(k, own, reserved, q, ops[0]);
      RunBusy(k', own1, reserved, After(q, e), ops[1..]);
      assert ([e] + Events(k', ops[1..]))[1..] == Events(k', ops[1..]);
    }
  }

  lemma NobodyBusy(mem: Memory, reserved: nat, kdir: Frame)
    requires 0 < reserved <= TOTAL_FRAMES
    ensures Busy(Boot(mem, reserved, kdir).table, 0) == 0
  {
    NoneBusy(Boot(mem, reserved, kdir).table, 0);
  }

  lemma {:induction false} NoneBusy(t: Table, i: nat)
    requires i <= MAX_PROCESSES && forall s :: i <= s < MAX_PROCESSES ==> t[s].state.Free?
    ensures Busy(t, i) == 0
    decreases MAX_PROCESSES - i
  {
    if i < MAX_PROCESSES {
      NoneBusy(t, i + 1);
    }
  }

  /** Over any run from boot at most 64 processes come into being, by creation and fork together, however many end;
      after the sixty-fourth every creation and fork fails. */
  lemma SixtyFourProcessesEver(mem: Memory, reserved: nat, kdir: Frame, ops: seq<Op>)
    requires 0 < reserved <= TOTAL_FRAMES && |ops| < 0xFFFF_FFFF
    ensures var k, made := Run(Boot(mem, reserved, kdir), ops), Pushes(Events(Boot(mem, reserved, kdir), ops));
            && made <= 64
            && (made < 64 <==> FirstFree(k.table, 0) < MAX_PROCESSES)
            && (made == 64 ==>
                  && Fork(k) == (k, 0xFFFF_FFFF)
                  && (forall src, size :: CreateProcess(k, src, size) == (k, NONE))
                  && (forall entry, idle :: CreateKernelProcess(k, entry, idle) == (k, NONE)))
  {
    hide Run, Boot, Isolated, ReadyList, Pids, Childless, Events, Busy, CreateDirectory, PushFrame;
    BootConsistent(mem, reserved, kdir);
    BootPid(mem, reserved, kdir);
    NobodyBusy(mem, reserved, kdir);
    RunBusy(Boot(mem, reserved, kdir), map[], reserved, [], ops);
    BusyAtMost(Run(Boot(mem, reserved, kdir), ops).table, 0);
  }
}

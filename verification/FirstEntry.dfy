/** Where a process starts when it is dispatched: what switch_to_process (mem/switch_asm.s) loads from its block
    and its kernel stack. */
module FirstEntry {
  import opened Machine
  import opened PageTables
  import opened Ownership
  import opened ForkCopy
  import opened ImageLoading
  import opened Processes
  import opened Isolation
  import opened Lifecycle
  import opened Runs
  import opened Theorems

  /** The stack in use afterwards: the user's, or the process's kernel stack at an offset. */
  datatype StackAfter = UserStack(userEsp: Word, ss: Word) | KernelStack(offset: nat)

  datatype Cpu = Cpu(edi: Word, esi: Word, ebp: Word, edx: Word, ecx: Word, ebx: Word, eax: Word,
                     eip: Word, cs: Word, eflags: Word, cr3: Word, stack: StackAfter)

  function StackWord(kstack: Frame, at: nat): Word {
    if at / 4 < FRAME_WORDS then kstack[at / 4] else 0
  }

  /** Registers from the block, then iret on the kernel stack: instruction pointer, code segment and flags come
      off it, and for a less privileged segment the stack pointer and segment too (IRET in the Intel SDM,
      volume 2A). */
  function SwitchTo(p: Pcb): Cpu {
    var r, sp := p.ctx.reg, p.ctx.reg.esp;
    var cs := StackWord(p.kstack, sp + 4);
    Cpu(r.edi, r.esi, r.ebp, r.edx, r.ecx, r.ebx, r.eax, StackWord(p.kstack, sp), cs, StackWord(p.kstack, sp + 8),
      p.ctx.cr3,
        if cs % 4 != 0 then UserStack(StackWord(p.kstack, sp + 12), StackWord(p.kstack, sp + 16))
          else KernelStack(sp + 12))
  }

  /** The first instruction of the image, in user mode, interrupts on, the stack empty, all other registers zero. */
  ghost predicate EntersUser(c: Cpu) {
    c == Cpu(0, 0, 0, 0, 0, 0, 0, 0x0804_8000, 0x1B, 0x202, c.cr3, UserStack(0xBFFF_F000, 0x23))
  }

  /** One of the given kernel functions, interrupts on, registers zero. */
  ghost predicate EntersKernel(c: Cpu, entries: set<Word>) {
    && c.eip in entries && c.stack.KernelStack?
    && c == Cpu(0, 0, 0, 0, 0, 0, 0, c.eip, 0x08, 0x202, c.cr3, c.stack)
  }

  // ---- New processes ----

  lemma LaunchedUser(p: Pcb)
    requires p.ctx.reg == ZERO_CONTEXT.reg
    ensures EntersUser(SwitchTo(LaunchUser(p))) && LaunchUser(p).ctx.cr3 == p.ctx.cr3
  {
  }

  lemma LaunchedKernel(p: Pcb, entry: Word, idle: Word)
    requires p.ctx.reg == ZERO_CONTEXT.reg
    ensures var c := SwitchTo(LaunchKernel(p, entry, idle));
            EntersKernel(c, {entry}) && c.eip == entry
              && StackWord(LaunchKernel(p, entry, idle).kstack, c.stack.offset) == idle
  {
  }

  lemma LaunchedChild(p: Pcb)
    ensures var c, s, r := SwitchTo(LaunchChild(p)), p.ctx.stack, p.ctx.reg;
            c == Cpu(r.edi, r.esi, r.ebp, r.edx, r.ecx, r.ebx, 0, s.eip, s.cs, s.eflags, p.ctx.cr3,
                     if s.cs % 4 != 0 then UserStack(s.esp, s.ss) else KernelStack(FRAME_OFFSET + 12))
  {
  }

  /** create_process leaves its process ready to enter the image. */
  lemma CreatedEntersUser(k: Kernel, src: nat, size: Word)
    requires CreateProcess(k, src, size).1 != NONE
    ensures var (k', s) := CreateProcess(k, src, size);
            && EntersUser(SwitchTo(k'.table[s])) && k'.table[s].ctx.stack == UserFrame()
            && SwitchTo(k'.table[s]).cr3 == CreateDirectory(k.ram, k.kdir).0 * FRAME_SIZE
  {
    hide CreateDirectory, LoadPages, StackFill, PushFrame, LaunchUser, SwitchTo;
    var slot, made := FirstFree(k.table, 0), CreateDirectory(k.ram, k.kdir);
    var p := WithCr3(TakePcb(k, slot), slot, made.0).table[slot];
    LaunchedUser(p);
    LaunchedUserBlock(p);
    var (k', s) := CreateProcess(k, src, size);
    SameSwitch(LaunchUser(p), k'.table[s]);
  }

  /** Below the five words that iret takes, the new process's kernel stack is filled with 0xCD. */
  lemma CreatedStackFill(k: Kernel, src: nat, size: Word, n: nat)
    requires CreateProcess(k, src, size).1 != NONE && n < 1024 - 5
    ensures var (k', s) := CreateProcess(k, src, size); k'.table[s].kstack[n] == 0xCDCD_CDCD
  {
    hide CreateDirectory, LoadPages;
  }

  function UserFrame(): Stack { Stack(USER_CODE_START, 0x1B, 0x202, USER_STACK_TOP, 0x23) }

  function KernelFrame(entry: Word): Stack { Stack(entry, 0x08, 0x202, 0, 0) }

  lemma LaunchedUserBlock(p: Pcb)
    ensures LaunchUser(p).ctx.stack == UserFrame()
  {
  }

  lemma SameSwitch(p: Pcb, p': Pcb)
    requires p'.ctx == p.ctx && p'.kstack == p.kstack
    ensures SwitchTo(p') == SwitchTo(p) && SwitchTo(p').cr3 == p.ctx.cr3
  {
  }

  /** create_kernel_process leaves its process ready to enter the function, which returns into kernel_idle. */
  lemma CreatedEntersKernel(k: Kernel, entry: Word, idle: Word)
    requires CreateKernelProcess(k, entry, idle).1 != NONE
    ensures var (k', s) := CreateKernelProcess(k, entry, idle);
            var c := SwitchTo(k'.table[s]);
            && EntersKernel(c, {entry}) && StackWord(k'.table[s].kstack, c.stack.offset) == idle
            && k'.table[s].ctx.stack == KernelFrame(entry)
  {
    hide CreateDirectory, StackFill, SwitchTo;
    var slot, made := FirstFree(k.table, 0), CreateDirectory(k.ram, k.kdir);
    var p := WithCr3(TakePcb(k, slot), slot, made.0).table[slot];
    LaunchedKernel(p, entry, idle);
    var (k', s) := CreateKernelProcess(k, entry, idle);
    SameSwitch(LaunchKernel(p, entry, idle), k'.table[s]);
  }

  /** A forked child starts with the parent's saved context, eax 0 and its own directory. */
  lemma ForkedEntersSavedContext(k: Kernel)
    requires k.current != NONE && !k.table[k.current].state.Free? && Fork(k).1 != FAILED
    ensures var slot, p := FirstFree(k.table, 0), k.table[k.current].ctx;
            && slot < MAX_PROCESSES && Fork(k).0.table[slot].state.Ready?
            && var child := Fork(k).0.table[slot];
               && child.ctx.stack == p.stack
               && SwitchTo(child) == Cpu(p.reg.edi, p.reg.esi, p.reg.ebp, p.reg.edx, p.reg.ecx, p.reg.ebx, 0,
                                         p.stack.eip, p.stack.cs, p.stack.eflags,
                                           CreateDirectory(k.ram, k.kdir).0 * FRAME_SIZE,
                                         if p.stack.cs % 4 != 0 then UserStack(p.stack.esp, p.stack.ss)
                                         else KernelStack(FRAME_OFFSET + 12))
  {
    hide CreateDirectory, CopySpace, PushFrame, SwitchTo, LaunchChild, StackFill;
    var slot, made := FirstFree(k.table, 0), CreateDirectory(k.ram, k.kdir);
    var k2 := ForkTake(k, slot);
    var child := ForkPcb(k2.table[slot], k2.table[k2.current], made.0);
    LaunchedChild(child);
    LaunchedChildStack(child);
    SameSwitch(LaunchChild(child), Fork(k).0.table[slot]);
  }

  lemma LaunchedChildStack(p: Pcb)
    ensures LaunchChild(p).ctx.stack == p.ctx.stack
  {
  }

  // ---- Over whole runs ----

  /** The saved context has not changed since the block was launched. */
  ghost predicate SavedAtStart(p: Pcb, entries: set<Word>) {
    && (p.ctx.stack == UserFrame() || exists e :: e in entries && p.ctx.stack == KernelFrame(e))
    && p.ctx.reg == ZERO_CONTEXT.reg.(eax := p.ctx.reg.eax, esp := p.ctx.reg.esp)
  }

  ghost predicate EntersAtStart(p: Pcb, entries: set<Word>) {
    EntersUser(SwitchTo(p)) || EntersKernel(SwitchTo(p), entries)
  }

  ghost predicate AllAtStart(t: Table, entries: set<Word>) {
    && (forall s {:trigger t[s]} :: 0 <= s < MAX_PROCESSES && !t[s].state.Free? ==> SavedAtStart(t[s], entries))
    && (forall s {:trigger t[s]} :: 0 <= s < MAX_PROCESSES && t[s].state.Ready? ==> EntersAtStart(t[s], entries))
  }

  lemma NewBlockAtStart(t: Table, t': Table, slot: nat, entries: set<Word>)
    requires AllAtStart(t, entries) && slot < MAX_PROCESSES && t' == t[slot := t'[slot]]
    requires t'[slot].state.Free? || (SavedAtStart(t'[slot], entries) && EntersAtStart(t'[slot], entries))
    ensures AllAtStart(t', entries)
  {
    hide SavedAtStart, EntersAtStart;
  }

  lemma CreatedSaved(k: Kernel, src: nat, size: Word, entries: set<Word>)
    requires CreateProcess(k, src, size).1 != NONE
    ensures var (k', s) := CreateProcess(k, src, size);
            SavedAtStart(k'.table[s], entries) && EntersAtStart(k'.table[s], entries)
  {
    hide CreateProcess, SwitchTo;
    CreatedEntersUser(k, src, size);
    CreatedRegisters(k, src, size);
  }

  lemma CreatedRegisters(k: Kernel, src: nat, size: Word)
    requires CreateProcess(k, src, size).1 != NONE
    ensures var (k', s) := CreateProcess(k, src, size);
            k'.table[s].ctx.reg == ZERO_CONTEXT.reg.(esp := FRAME_OFFSET)
  {
    hide CreateDirectory, LoadPages, StackFill, PushFrame;
  }

  lemma CreatedKernelSaved(k: Kernel, entry: Word, idle: Word, entries: set<Word>)
    requires CreateKernelProcess(k, entry, idle).1 != NONE && entry in entries
    ensures var (k', s) := CreateKernelProcess(k, entry, idle);
            SavedAtStart(k'.table[s], entries) && EntersAtStart(k'.table[s], entries)
  {
    hide CreateKernelProcess, SwitchTo;
    CreatedEntersKernel(k, entry, idle);
    CreatedKernelRegisters(k, entry, idle);
    var (k', s) := CreateKernelProcess(k, entry, idle);
    assert EntersKernel(SwitchTo(k'.table[s]), entries);
  }

  lemma CreatedKernelRegisters(k: Kernel, entry: Word, idle: Word)
    requires CreateKernelProcess(k, entry, idle).1 != NONE
    ensures var (k', s) := CreateKernelProcess(k, entry, idle);
            k'.table[s].ctx.reg == ZERO_CONTEXT.reg.(esp := k'.table[s].ctx.reg.esp)
  {
    hide CreateDirectory, StackFill;
  }

  lemma ForkedSaved(k: Kernel, entries: set<Word>)
    requires k.current != NONE && !k.table[k.current].state.Free? && Fork(k).1 != FAILED
    requires SavedAtStart(k.table[k.current], entries)
    ensures var slot := FirstFree(k.table, 0);
            && slot < MAX_PROCESSES
            && SavedAtStart(Fork(k).0.table[slot], entries) && EntersAtStart(Fork(k).0.table[slot], entries)
  {
    hide Fork, SwitchTo;
    ForkedEntersSavedContext(k);
    ForkedRegisters(k);
  }

  lemma ForkedRegisters(k: Kernel)
    requires k.current != NONE && !k.table[k.current].state.Free? && Fork(k).1 != FAILED
    ensures FirstFree(k.table, 0) < MAX_PROCESSES
    ensures Fork(k).0.table[FirstFree(k.table, 0)].ctx.reg == k.table[k.current].ctx.reg.(eax := 0, esp := FRAME_OFFSET)
  {
    hide CreateDirectory, CopySpace, PushFrame, StackFill;
  }

  lemma BuildAtStart(k: Kernel, op: Op, entries: set<Word>)
    requires AllAtStart(k.table, entries) && CurrentLive(k) && k.nextPid < 0xFFFF_FFFF
    requires op.Create? || op.CreateKernel? || op.DoFork?
    requires op.CreateKernel? ==> op.entry in entries
    ensures AllAtStart(Step(k, op).result.table, entries)
  {
    hide CreateProcess, CreateKernelProcess, Fork, SavedAtStart, EntersAtStart, AllAtStart;
    var slot := FirstFree(k.table, 0);
    match op
    case Create(src, size) =>
      CreateTakes(k, src, size);
      if CreateProcess(k, src, size).1 != NONE {
        CreatedSaved(k, src, size, entries);
      }
      TookAtStart(k, CreateProcess(k, src, size).0, slot, entries);
    case CreateKernel(entry, idle) =>
      CreateKernelTakes(k, entry, idle);
      if CreateKernelProcess(k, entry, idle).1 != NONE {
        CreatedKernelSaved(k, entry, idle, entries);
      }
      TookAtStart(k, CreateKernelProcess(k, entry, idle).0, slot, entries);
    case DoFork =>
      ForkTakes(k);
      if Fork(k).1 != FAILED {
        CurrentAtStart(k, entries);
        ForkedSaved(k, entries);
      }
      TookAtStart(k, Fork(k).0, slot, entries);
  }

  lemma CurrentAtStart(k: Kernel, entries: set<Word>)
    requires AllAtStart(k.table, entries) && CurrentLive(k) && k.current != NONE
    ensures SavedAtStart(k.table[k.current], entries)
  {
    hide SavedAtStart, EntersAtStart;
  }

  lemma TookAtStart(k: Kernel, k': Kernel, slot: nat, entries: set<Word>)
    requires AllAtStart(k.table, entries) && (k' == k || TakesSlot(k, k', slot))
    requires k' == k || k'.table[slot].state.Free?
               || (SavedAtStart(k'.table[slot], entries) && EntersAtStart(k'.table[slot], entries))
    ensures AllAtStart(k'.table, entries)
  {
    hide AllAtStart, SavedAtStart, EntersAtStart;
    if k' != k {
      NewBlockAtStart(k.table, k'.table, slot, entries);
    }
  }

  /** Blocks change in nothing that dispatch uses, but for eax, and none becomes Ready. */
  ghost predicate KeepsStarts(t: Table, t': Table) {
    forall s {:trigger t'[s]} :: 0 <= s < MAX_PROCESSES && !t'[s].state.Free? ==>
      && !t[s].state.Free? && t'[s].ctx.stack == t[s].ctx.stack
      && t'[s].ctx.reg == t[s].ctx.reg.(eax := t'[s].ctx.reg.eax)
      && (t'[s].state.Ready? ==> t'[s] == t[s])
  }

  lemma KeptAtStart(t: Table, t': Table, entries: set<Word>)
    requires AllAtStart(t, entries) && KeepsStarts(t, t')
    ensures AllAtStart(t', entries)
  {
    hide EntersAtStart;
  }

  lemma DispatchKeepsStarts(k: Kernel, k': Kernel)
    requires DispatchesHead(k, k') && (k.head != NONE ==> k.table[k.head].state.Ready?)
    ensures KeepsStarts(k.table, k'.table)
  {
  }

  lemma ExitKeepsStarts(k: Kernel, status: Word)
    requires CurrentLive(k) && (k.head != NONE ==> k.table[k.head].state.Ready?)
    requires k.current != NONE && k.current != k.head
    ensures KeepsStarts(k.table, Exit(k, status).0.table)
  {
  }

  lemma WaitKeepsStarts(k: Kernel, status: Word)
    requires Wait(k, status).Goes?
    ensures KeepsStarts(k.table, Wait(k, status).result.0.table)
  {
    hide Wait;
    WaitReaps(k, status);
  }

  lemma HeadIsNotCurrent(k: Kernel, q: seq<nat>)
    requires ReadyList(k, q) && k.current != NONE
    ensures k.current != k.head
  {
    CurrentIsLive(k, q);
  }

  lemma StepAtStart(k: Kernel, own: map<nat, Use>, reserved: nat, q: seq<nat>, op: Op, entries: set<Word>)
    requires Consistent(k, own, reserved, q) && k.nextPid < 0xFFFF_FFFF && Step(k, op).Goes?
    requires AllAtStart(k.table, entries) && (op.CreateKernel? ==> op.entry in entries)
    ensures AllAtStart(Step(k, op).result.table, entries)
  {
    hide Isolated, Pids, Childless, ReadyList, AllAtStart, CreateProcess, CreateKernelProcess, Fork, Exit,
      Schedule, Wait;
    hide PutWord, KeepsStarts, DispatchesHead, Present, Pte;
    CurrentIsLive(k, q);
    match op
    case DoExit(status) =>
      if k.current != NONE {
        HeadIsNotCurrent(k, q);
        ExitKeepsStarts(k, status);
        KeptAtStart(k.table, Exit(k, status).0.table, entries);
      } else {
        ExitNobody(k, status);
      }
    case DoSchedule =>
      ScheduleDispatches(k);
      DispatchKeepsStarts(k, Schedule(k));
      KeptAtStart(k.table, Schedule(k).table, entries);
    case DoWait(status) =>
      WaitKeepsStarts(k, status);
      KeptAtStart(k.table, Wait(k, status).result.0.table, entries);
    case Fault(_, _, _) =>
    case Store(_, _) =>
    case _ => BuildAtStart(k, op, entries);
  }

  ghost predicate EntriesIn(ops: seq<Op>, entries: set<Word>) {
    forall op :: op in ops && op.CreateKernel? ==> op.entry in entries
  }

  lemma {:induction false} RunAtStart(k: Kernel, own: map<nat, Use>, reserved: nat, q: seq<nat>, ops: seq<Op>,
                                      entries: set<Word>)
    requires Consistent(k, own, reserved, q) && PidsLast(k, ops)
    requires AllAtStart(k.table, entries) && EntriesIn(ops, entries)
    ensures AllAtStart(Run(k, ops).table, entries)
    decreases |ops|
  {
    hide Consistent, Step, EventOf, OthersKept, KernelKept, AllAtStart;
    if ops != [] && Step(k, ops[0]).Goes? {
      var own1 := StepKeeps(k, own, reserved, q, ops[0]);
      StepAtStart(k, own, reserved, q, ops[0], entries);
      RunAtStart(Step(k, ops[0]).result, own1, reserved, After(q, EventOf(k, ops[0])), ops[1..], entries);
    }
  }

  /** After any run from boot, every process waiting to be dispatched will start at the beginning: at the first
      instruction of an image, or in a kernel function. So a child, whose saved context is a copy of its parent's,
      starts the program over instead of returning from fork. */
  lemma ProcessesStartAtTheBeginning(mem: Memory, reserved: nat, kdir: Frame, ops: seq<Op>, entries: set<Word>)
    requires 0 < reserved <= TOTAL_FRAMES && |ops| < 0xFFFF_FFFF && EntriesIn(ops, entries)
    ensures var k := Run(Boot(mem, reserved, kdir), ops);
            forall s :: 0 <= s < MAX_PROCESSES && k.table[s].state.Ready? ==>
              EntersUser(SwitchTo(k.table[s])) || EntersKernel(SwitchTo(k.table[s]), entries)
  {
    hide Run, Isolated, ReadyList, Pids, EntersUser, EntersKernel, SwitchTo, EntriesIn, SavedAtStart;
    var k := Boot(mem, reserved, kdir);
    BootConsistent(mem, reserved, kdir);
    BootPid(mem, reserved, kdir);
    BootAtStart(mem, reserved, kdir, entries);
    hide Boot;
    RunAtStart(k, map[], reserved, [], ops, entries);
    assert forall s :: 0 <= s < MAX_PROCESSES && Run(k, ops).table[s].state.Ready? ==>
             EntersAtStart(Run(k, ops).table[s], entries);
  }

  lemma BootAtStart(mem: Memory, reserved: nat, kdir: Frame, entries: set<Word>)
    requires reserved <= TOTAL_FRAMES
    ensures AllAtStart(Boot(mem, reserved, kdir).table, entries)
  {
    hide SavedAtStart, EntersAtStart;
    assert forall s :: 0 <= s < MAX_PROCESSES ==> Boot(mem, reserved, kdir).table[s] == EmptyPcb();
  }
}

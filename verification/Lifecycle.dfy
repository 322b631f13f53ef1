/** The ready list, pids and parentage, as every operation keeps them. */
module Lifecycle {
  import opened Machine
  import opened PageTables
  import opened ForkCopy
  import opened ImageLoading
  import opened Processes

  // ---- The intrusive ready list ----

  /** Following next from head visits exactly the slots q, in order, and ends at NULL. */
  ghost predicate Chain(t: Table, head: Slot, q: seq<nat>)
    decreases |q|
  {
    if q == [] then head == NONE
    else q[0] < MAX_PROCESSES && head == q[0] && Chain(t, t[q[0]].next, q[1..])
  }

  ghost predicate NoRepeats<T>(q: seq<T>) {
    forall a, b :: 0 <= a < b < |q| ==> q[a] != q[b]
  }

  ghost predicate ReadyList(k: Kernel, q: seq<nat>) {
    && Chain(k.table, k.head, q) && NoRepeats(q)
    && (forall s :: s in q ==> s < MAX_PROCESSES)
    && (forall s {:trigger s in q} {:trigger k.table[s]} :: 0 <= s < MAX_PROCESSES ==>
         (s in q <==> k.table[s].state.Ready?))
    && (forall s :: 0 <= s < MAX_PROCESSES ==> !k.table[s].state.Blocked?)
    && (k.current != NONE ==> k.table[k.current].state.Running? || k.table[k.current].state.Terminated?)
  }

  lemma {:induction false} ChainFrame(t: Table, t': Table, head: Slot, q: seq<nat>)
    requires Chain(t, head, q) && forall s :: s in q && s < MAX_PROCESSES ==> t'[s].next == t[s].next
    ensures Chain(t', head, q)
    decreases |q|
  {
    if q != [] {
      ChainFrame(t, t', t[q[0]].next, q[1..]);
    }
  }

  /** One list, one order. */
  lemma {:induction false} ChainUnique(t: Table, head: Slot, q: seq<nat>, q': seq<nat>)
    requires Chain(t, head, q) && Chain(t, head, q')
    ensures q == q'
    decreases |q|
  {
    if q != [] && q' != [] {
      ChainUnique(t, t[q[0]].next, q[1..], q'[1..]);
      assert q == [q[0]] + q[1..] && q' == [q'[0]] + q'[1..];
    }
  }

  // ---- What an operation may do to the table ----

  /** A free slot is given the next pid; it ends up Ready at the head of the list, or Free again. */
  ghost predicate TakesSlot(k: Kernel, k': Kernel, slot: nat) {
    && slot < MAX_PROCESSES && k.table[slot].state.Free?
    && var p, p' := k.table[slot], k'.table[slot];
       && k'.table == k.table[slot := p'] && k'.current == k.current
       && k'.nextPid == (k.nextPid + 1) % 0x1_0000_0000 && p'.pid == k.nextPid
       && (p'.parentPid == p.parentPid || (k.current != NONE && p'.parentPid == k.table[k.current].pid))
       && (if p'.state.Ready? then p'.next == k.head && k'.head == slot else p'.state.Free? && k'.head == k.head)
  }

  /** The process at the head of the list, if any, becomes current and Running. */
  ghost predicate DispatchesHead(k: Kernel, k': Kernel) {
    if k.head == NONE then k' == k
    else
      && k'.table == k.table[k.head := k.table[k.head].(state := Running)]
      && k'.current == k.head && k'.head == k.table[k.head].next && k'.nextPid == k.nextPid
  }

  ghost predicate ReapsChild(k: Kernel, k': Kernel, child: nat) {
    && k.current != NONE && child < MAX_PROCESSES && k.table[child].state.Terminated?
    && k.table[child].parentPid == k.table[k.current].pid
    && k'.table == k.table[child := k.table[child].(state := Free, pid := 0, parentPid := 0)]
    && k'.current == k.current && k'.head == k.head && k'.nextPid == k.nextPid
  }

  lemma CreateTakes(k: Kernel, src: nat, size: Word)
    ensures var (slot, r) := (FirstFree(k.table, 0), CreateProcess(k, src, size));
            if slot == MAX_PROCESSES then r == (k, NONE)
            else
              && TakesSlot(k, r.0, slot) && r.0.table[slot].parentPid == k.table[slot].parentPid
              && r.1 == if r.0.table[slot].state.Ready? then slot else NONE
  {
    hide CreateDirectory, LoadPages, StackFill, PushFrame;
  }

  lemma CreateKernelTakes(k: Kernel, entry: Word, idle: Word)
    ensures var (slot, r) := (FirstFree(k.table, 0), CreateKernelProcess(k, entry, idle));
            if slot == MAX_PROCESSES then r == (k, NONE)
            else
              && TakesSlot(k, r.0, slot) && r.0.table[slot].parentPid == k.table[slot].parentPid
              && r.1 == if r.0.table[slot].state.Ready? then slot else NONE
  {
    hide CreateDirectory, StackFill;
  }

  lemma ForkTakeEffect(k: Kernel, slot: nat)
    requires k.current != NONE && slot < MAX_PROCESSES && k.current != slot
    ensures var k2 := ForkTake(k, slot);
            && k2.table == k.table[slot := k2.table[slot]] && k2.current == k.current && k2.head == k.head
            && k2.nextPid == (k.nextPid + 1) % 0x1_0000_0000
            && k2.table[slot].pid == k.nextPid && k2.table[slot].state == k.table[slot].state
            && k2.table[slot].parentPid == k.table[k.current].pid
  {
    hide StackFill;
  }

  lemma ForkTakes(k: Kernel)
    requires k.current != NONE ==> !k.table[k.current].state.Free?
    ensures var (slot, r) := (FirstFree(k.table, 0), Fork(k));
            if k.current == NONE || slot == MAX_PROCESSES then r == (k, FAILED)
            else
              && TakesSlot(k, r.0, slot) && r.0.table[slot].parentPid == k.table[k.current].pid
              && r.1 == if r.0.table[slot].state.Ready? then k.nextPid else FAILED
  {
    hide CreateDirectory, CopySpace, PushFrame, ForkTake;
    var slot := FirstFree(k.table, 0);
    if k.current != NONE && slot < MAX_PROCESSES {
      ForkTakeEffect(k, slot);
    }
  }

  lemma ScheduleDispatches(k: Kernel)
    ensures DispatchesHead(k, Schedule(k)) && Schedule(k).ram == k.ram && Schedule(k).kdir == k.kdir
  {
  }

  /** The state sys_exit hands to schedule. */
  function Exited(k: Kernel, status: Word): Kernel
    requires k.current != NONE
  {
    var p := k.table[k.current];
    SetPcb(k, k.current, p.(state := Terminated, ctx := p.ctx.(reg := p.ctx.reg.(eax := status))))
  }

  lemma ExitDispatches(k: Kernel, status: Word)
    requires k.current != NONE
    ensures Exit(k, status) == (Schedule(Exited(k, status)), 0)
  {
  }

  lemma WaitReaps(k: Kernel, status: Word)
    requires Wait(k, status).Goes?
    ensures var (k', r) := Wait(k, status).result;
            if k.current == NONE || FirstZombie(k.table, k.table[k.current].pid, 0) == MAX_PROCESSES
            then k' == k && r == FAILED
            else ReapsChild(k, k', FirstZombie(k.table, k.table[k.current].pid, 0)) && r == 0 && k'.kdir == k.kdir
  {
    hide PutWord;
  }

  // ---- Pids ----

  ghost predicate Pids(k: Kernel) {
    && k.nextPid >= 1
    && (forall s {:trigger k.table[s]} :: 0 <= s < MAX_PROCESSES ==> k.table[s].parentPid < k.nextPid)
    && (forall s {:trigger k.table[s]} :: 0 <= s < MAX_PROCESSES && !k.table[s].state.Free? ==>
          k.table[s].parentPid < k.table[s].pid < k.nextPid)
    && (forall s, s' :: 0 <= s < s' < MAX_PROCESSES && !k.table[s].state.Free? && !k.table[s'].state.Free? ==>
          k.table[s].pid != k.table[s'].pid)
  }

  /** sys_wait never frees the block of the process that calls it. */
  lemma WaitSparesCaller(k: Kernel, k': Kernel, child: nat)
    requires Pids(k) && ReapsChild(k, k', child) && !k.table[k.current].state.Free?
    ensures child != k.current
  {
  }

  // ---- Every operation keeps both ----

  /** A creation or fork puts its process on the front of the list, or leaves the list alone. */
  lemma TakesSlotKeeps(k: Kernel, k': Kernel, slot: nat, q: seq<nat>)
    requires ReadyList(k, q) && TakesSlot(k, k', slot)
    ensures ReadyList(k', if k'.table[slot].state.Ready? then [slot] + q else q)
  {
    assert slot !in q;
    ChainFrame(k.table, k'.table, k.head, q);
    if k'.table[slot].state.Ready? {
      assert ([slot] + q)[1..] == q;
    }
  }

  /** The pid given out is new, and above its parent's. */
  lemma TakesSlotKeepsPids(k: Kernel, k': Kernel, slot: nat)
    requires Pids(k) && TakesSlot(k, k', slot) && k.nextPid < 0xFFFF_FFFF
    requires k.current != NONE ==> !k.table[k.current].state.Free?
    ensures Pids(k')
  {
  }

  lemma HeadOff(q: seq<nat>)
    requires q != [] && NoRepeats(q)
    ensures NoRepeats(q[1..]) && q[0] !in q[1..] && forall s :: s in q <==> s == q[0] || s in q[1..]
  {
    assert q == [q[0]] + q[1..];
    forall a, b | 0 <= a < b < |q[1..]|
      ensures q[1..][a] != q[1..][b]
    {
      assert q[1..][a] == q[a + 1] && q[1..][b] == q[b + 1];
    }
  }

  /** A dispatch takes the front off. */
  lemma DispatchKeeps(k: Kernel, k': Kernel, q: seq<nat>)
    requires ReadyList(k, q) && DispatchesHead(k, k')
    ensures ReadyList(k', if q == [] then [] else q[1..])
    ensures q != [] ==> k'.current == q[0]
  {
    if q != [] {
      HeadOff(q);
      ChainFrame(k.table, k'.table, k'.head, q[1..]);
    }
  }

  lemma DispatchKeepsPids(k: Kernel, k': Kernel)
    requires Pids(k) && DispatchesHead(k, k') && (k.head != NONE ==> k.table[k.head].state.Ready?)
    ensures Pids(k')
  {
  }

  lemma ExitedKeeps(k: Kernel, status: Word, q: seq<nat>)
    requires k.current != NONE && ReadyList(k, q) && Pids(k)
    ensures ReadyList(Exited(k, status), q) && Pids(Exited(k, status))
  {
    ChainFrame(k.table, Exited(k, status).table, k.head, q);
  }

  lemma ReapKeeps(k: Kernel, k': Kernel, child: nat, q: seq<nat>)
    requires ReadyList(k, q) && Pids(k) && ReapsChild(k, k', child)
    ensures ReadyList(k', q) && Pids(k')
  {
    WaitSparesCaller(k, k', child);
    ChainFrame(k.table, k'.table, k.head, q);
  }

  // ---- Who can be waited for ----

  /** No READY process is anyone's parent, and the current process has no terminated child. A child is dispatched
      after its parent, which is not dispatched again. */
  ghost predicate Childless(k: Kernel) {
    && (forall s, s' {:trigger k.table[s], k.table[s']} ::
          0 <= s < MAX_PROCESSES && 0 <= s' < MAX_PROCESSES && k.table[s].state.Ready? ==>
            k.table[s'].parentPid != k.table[s].pid)
    && (k.current != NONE ==>
          forall s {:trigger k.table[s]} :: 0 <= s < MAX_PROCESSES && k.table[s].state.Terminated? ==>
            k.table[s].parentPid != k.table[k.current].pid)
  }

  lemma TakesSlotKeepsChildless(k: Kernel, k': Kernel, slot: nat)
    requires Childless(k) && Pids(k) && TakesSlot(k, k', slot) && k.nextPid < 0xFFFF_FFFF
    requires k.current != NONE ==> k.table[k.current].state.Running? || k.table[k.current].state.Terminated?
    ensures Childless(k')
  {
    forall s, s' | 0 <= s < MAX_PROCESSES && 0 <= s' < MAX_PROCESSES && k'.table[s].state.Ready?
      ensures k'.table[s'].parentPid != k'.table[s].pid
    {
      assert k.table[s'].parentPid < k.nextPid;
    }
  }

  lemma DispatchKeepsChildless(k: Kernel, k': Kernel)
    requires Childless(k) && DispatchesHead(k, k') && (k.head != NONE ==> k.table[k.head].state.Ready?)
    ensures Childless(k')
  {
  }

  lemma ExitedKeepsChildless(k: Kernel, status: Word)
    requires k.current != NONE && Childless(k) && Pids(k) && !k.table[k.current].state.Free?
    requires !k.table[k.current].state.Ready?
    ensures Childless(Exited(k, status))
  {
  }

  /** So sys_wait finds nobody: it fails and changes nothing, whatever address it is given. */
  lemma WaitFindsNobody(k: Kernel, status: Word)
    requires Childless(k)
    ensures Wait(k, status) == Goes((k, FAILED))
  {
  }
}

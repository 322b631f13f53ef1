/** mem/process.c and the system calls of arch/x86/syscall.c, working in place on the process table,
    the list threaded through it, and physical memory. Every method is proved to compute the
    state function of the same name in module Processes. */
module ProcessManager {
  import opened Machine
  import opened FramePool
  import opened PageTables
  import opened Translation
  import opened DemandPaging
  import opened Bytes
  import opened ForkCopy
  import opened ImageLoading
  import opened Processes
  import opened PageFrameAllocator
  import opened MemoryManager

  class Manager {
    const mmu: Mmu
    const table: array<Pcb>
    var nextPid: Word
    var current: Slot
    var head: Slot

    ghost predicate Valid() { table.Length == MAX_PROCESSES && mmu.Valid() }

    ghost function State(): Kernel
      requires Valid()
      reads this, table, mmu.frames, mmu.allocator.bitmap
    {
      Kernel(mmu.State(), mmu.kernelDirectory, table[..], nextPid, current, head)
    }

    /** init_process_manager, on a process table that is all zeros at power-on. */
    constructor (mmu: Mmu)
      requires mmu.Valid()
      ensures Valid() && this.mmu == mmu && fresh(table)
      ensures State() == Kernel(mmu.State(), mmu.kernelDirectory, seq<Pcb>(MAX_PROCESSES, _ => EmptyPcb()), 1,
                NONE, NONE)
    {
      this.mmu := mmu;
      table := new Pcb[MAX_PROCESSES](_ => EmptyPcb());
      new;
      for i := 0 to MAX_PROCESSES
        invariant table[..] == seq<Pcb>(MAX_PROCESSES, _ => EmptyPcb())
      {
        table[i] := table[i].(state := Free, pid := 0, next := NONE);
      }
      current := NONE;
      head := NONE;
      nextPid := 1;
    }

    /** The slot taken, or NONE. */
    method AllocatePcbAndPid() returns (slot: Slot)
      requires Valid()
      modifies this, table
      ensures var free := FirstFree(old(State()).table, 0);
              if free == MAX_PROCESSES then slot == NONE && State() == old(State())
              else slot == free && State() == TakePcb(old(State()), free)
    {
      for i := 0 to MAX_PROCESSES
        invariant State() == old(State())
        invariant forall k :: 0 <= k < i ==> !table[k].state.Free?
      {
        if table[i].state.Free? {
          assert FirstFree(table[..], 0) == i;
          table[i] := table[i].(pid := nextPid, ctx := ZERO_CONTEXT, kstack := StackFill());
          nextPid := (nextPid + 1) % 0x1_0000_0000;
          return i;
        }
      }
      return NONE;
    }

    method GetZombieProcessForParent(parent: Word) returns (slot: Slot)
      requires Valid()
      ensures var zombie := FirstZombie(table[..], parent, 0);
              slot == if zombie == MAX_PROCESSES then NONE else zombie
    {
      for i := 0 to MAX_PROCESSES
        invariant forall k :: 0 <= k < i ==> !(table[k].state.Terminated? && table[k].parentPid == parent)
      {
        if table[i].state.Terminated? && table[i].parentPid == parent {
          assert FirstZombie(table[..], parent, 0) == i;
          return i;
        }
      }
      return NONE;
    }

    /** A module page into its frame, as the body of create_process's loop does it. */
    method LoadOnePage(directory: Word, moduleData: nat, size: Word, n: nat) returns (ok: bool)
      requires Valid() && directory % FRAME_SIZE == 0 && n < PagesNeeded(size)
      modifies mmu.frames, mmu.allocator.bitmap
      ensures match LoadPage(old(mmu.State()), directory / FRAME_SIZE, moduleData, size, n)
              case NoFrame(r) => !ok && mmu.State() == r
              case Loaded(r) => ok && mmu.State() == r
    {
      hide Alloc, MapPage, DirIndex, TabIndex, CopyBytes, SetBytes;
      CopyStaysInModule(size, n);
      var frame := mmu.allocator.AllocFrame();
      if frame == 0 {
        return false;
      }
      mmu.MapPageAt(directory, PageAddress(n), frame, PAGE_PRESENT + PAGE_USER + PAGE_RW);
      var copySize := CopySize(size, n);
      mmu.Memcpy(frame, moduleData + n * FRAME_SIZE, copySize);
      if copySize < FRAME_SIZE {
        mmu.Memset(frame + copySize, 0, FRAME_SIZE - copySize);
      }
      return true;
    }

    method CreateUserProcess(moduleData: nat, size: Word) returns (slot: Slot)
      requires Valid()
      modifies this, table, mmu.frames, mmu.allocator.bitmap
      ensures State() == CreateProcess(old(State()), moduleData, size).0
      ensures slot == CreateProcess(old(State()), moduleData, size).1
    {
      hide CreateDirectory, LoadPage, FirstFree, StackFill, PushFrame, UsedOf, PagesNeeded;
      slot := AllocatePcbAndPid();
      if slot == NONE {
        return;
      }
      ghost var k1 := State();
      var directory := mmu.CreatePageDirectory();
      if directory == 0 {
        table[slot] := table[slot].(state := Free);
        assert table[..] == k1.table;
        return NONE;
      }
      table[slot] := table[slot].(ctx := table[slot].ctx.(cr3 := directory));
      ghost var r0, d := mmu.State(), directory / FRAME_SIZE;
      ghost var k2 := WithCr3(k1, slot, d);
      for n := 0 to PagesNeeded(size)
        invariant LoadPages(mmu.State(), d, moduleData, size, n) == LoadPages(r0, d, moduleData, size, 0)
        invariant State() == k2.(ram := mmu.State())
      {
        var ok := LoadOnePage(table[slot].ctx.cr3, moduleData, size, n);
        if !ok {
          table[slot] := table[slot].(state := Free);
          assert table[..] == k2.table;
          return NONE;
        }
      }
      Launch(slot, LaunchUser(table[slot]));
    }

    /** The end of every creation: the block filled in, made Ready and put at the head of the list. */
    method Launch(slot: nat, p: Pcb)
      requires Valid() && slot < MAX_PROCESSES
      modifies this, table
      ensures State() == Enqueue(SetPcb(old(State()), slot, p), slot)
    {
      table[slot] := p;
      table[slot] := table[slot].(state := Ready);
      table[slot] := table[slot].(next := head);
      head := slot;
    }

    method CreateKernelThread(entry: Word, idle: Word) returns (slot: Slot)
      requires Valid()
      modifies this, table, mmu.frames, mmu.allocator.bitmap
      ensures State() == CreateKernelProcess(old(State()), entry, idle).0
      ensures slot == CreateKernelProcess(old(State()), entry, idle).1
    {
      hide CreateDirectory, FirstFree, StackFill, UsedOf;
      slot := AllocatePcbAndPid();
      if slot == NONE {
        return;
      }
      ghost var k1 := State();
      var directory := mmu.CreatePageDirectory();
      if directory == 0 {
        table[slot] := table[slot].(state := Free);
        assert table[..] == k1.table;
        return NONE;
      }
      table[slot] := table[slot].(ctx := table[slot].ctx.(cr3 := directory));
      Launch(slot, LaunchKernel(table[slot], entry, idle));
    }

    method ScheduleNext()
      requires Valid()
      modifies this, table
      ensures State() == Schedule(old(State()))
    {
      if head != NONE {
        current := head;
        head := table[head].next;
        table[current] := table[current].(state := Running);
      }
    }

    method SysExit(status: Word) returns (result: Word)
      requires Valid()
      modifies this, table
      ensures State() == Exit(old(State()), status).0 && result == Exit(old(State()), status).1
    {
      if current == NONE {
        return FAILED;
      }
      var p := table[current];
      table[current] := p.(ctx := p.ctx.(reg := p.ctx.reg.(eax := status)));
      table[current] := table[current].(state := Terminated);
      ScheduleNext();
      return 0;
    }

    /** A round of sys_fork's inner loop on a present entry. */
    method CopyOnePage(parentTable: nat, directory: Word, i: nat, j: nat) returns (ok: bool)
      requires Valid() && i < KERNEL_PDT_IDX && j < ENTRIES
      modifies mmu.frames, mmu.allocator.bitmap
      ensures match CopyPage(old(mmu.State()), parentTable, directory / FRAME_SIZE, i, j)
              case OutOfFrames(r) => !ok && mmu.State() == r
              case Copied(r) => ok && mmu.State() == r
    {
      hide Alloc, MapPage, DirIndex, TabIndex, CopyBytes, FrameOf, FlagsOf, UsedOf;
      var v := i * 0x40_0000 + j * 0x1000;
      PositionOf(i, j);
      var pte := mmu.Load(parentTable, j);
      var from := FrameOf(pte);
      var frame := mmu.allocator.AllocFrame();
      if frame == 0 {
        return false;
      }
      ghost var m := mmu.Mem();
      mmu.Memcpy(frame, from * FRAME_SIZE, FRAME_SIZE);
      CopyBytesIsFrame(m, frame / FRAME_SIZE, from);
      pte := mmu.Load(parentTable, j);
      EntryFlags(frame / FRAME_SIZE, pte);
      mmu.MapPageAt(directory, v, frame, FlagsOf(pte));
      return true;
    }

    /** The inner loop of sys_fork. */
    method CopyOneTable(parentTable: nat, directory: Word, i: nat) returns (ok: bool)
      requires Valid() && i < KERNEL_PDT_IDX
      modifies mmu.frames, mmu.allocator.bitmap
      ensures match CopyTable(old(mmu.State()), parentTable, directory / FRAME_SIZE, i, 0)
              case OutOfFrames(r) => !ok && mmu.State() == r
              case Copied(r) => ok && mmu.State() == r
    {
      hide CopyPage, Present, UsedOf;
      ghost var c := directory / FRAME_SIZE;
      for j := 0 to ENTRIES
        invariant CopyTable(mmu.State(), parentTable, c, i, j) == CopyTable(old(mmu.State()), parentTable, c, i, 0)
      {
        var pte := mmu.Load(parentTable, j);
        if Present(pte) {
          ok := CopyOnePage(parentTable, directory, i, j);
          if !ok {
            return;
          }
        }
      }
      return true;
    }

    /** The outer loop of sys_fork. */
    method CopyAddressSpace(parentDirectory: nat, directory: Word) returns (ok: bool)
      requires Valid()
      modifies mmu.frames, mmu.allocator.bitmap
      ensures match CopySpace(old(mmu.State()), parentDirectory, directory / FRAME_SIZE, 0)
              case OutOfFrames(r) => !ok && mmu.State() == r
              case Copied(r) => ok && mmu.State() == r
    {
      hide CopyTable, Present, FrameOf, UsedOf;
      ghost var c := directory / FRAME_SIZE;
      for i := 0 to KERNEL_PDT_IDX
        invariant CopySpace(mmu.State(), parentDirectory, c, i) == CopySpace(old(mmu.State()), parentDirectory, c, 0)
      {
        var pde := mmu.Load(parentDirectory, i);
        if Present(pde) {
          ok := CopyOneTable(FrameOf(pde), directory, i);
          if !ok {
            return;
          }
        }
      }
      return true;
    }

    method SysFork() returns (result: Word)
      requires Valid()
      modifies this, table, mmu.frames, mmu.allocator.bitmap
      ensures State() == Fork(old(State())).0 && result == Fork(old(State())).1
    {
      hide CreateDirectory, CopySpace, FirstFree, StackFill, PushFrame, UsedOf, LaunchChild, Enqueue;
      if current == NONE {
        return FAILED;
      }
      ghost var k := State();
      var slot := AllocatePcbAndPid();
      if slot == NONE {
        return FAILED;
      }
      table[slot] := table[slot].(parentPid := table[current].pid);
      ghost var k2 := ForkTake(k, slot);
      var directory := mmu.CreatePageDirectory();
      if directory == 0 {
        table[slot] := table[slot].(state := Free);
        assert table[..] == k2.table;
        return FAILED;
      }
      var parent := table[current];
      var child := ForkPcb(table[slot], parent, directory / FRAME_SIZE);
      table[slot] := child;
      var ok := CopyAddressSpace(DirOf(parent), directory);
      if !ok {
        table[slot] := table[slot].(state := Free);
        assert child.state.Free?;
        return FAILED;
      }
      ghost var k3 := State();
      ChildKeepsPid(k3, slot, child);
      SameUpdate(k2, slot, child);
      Launch(slot, LaunchChild(child));
      assert table[slot] == State().table[slot];
      return table[slot].pid;
    }

    /** Brings the page of a virtual address in if it is not there; false if the machine stops. */
    method TouchPage(v: Word) returns (ok: bool)
      requires Valid() && current != NONE
      modifies mmu.frames, mmu.allocator.bitmap
      ensures match Touch(old(mmu.State()), DirOf(table[current]), v)
              case Halts => !ok
              case Goes(r) => ok && mmu.State() == r
    {
      hide HandleFault, UsedOf, Present, FrameOf, DirIndex, TabIndex, Offset;
      ok := IsMapped(v);
      if !ok {
        ok := mmu.PageFaultHandler(table[current].ctx.cr3, v, ErrorCode(false, true, true));
        if ok {
          ok := IsMapped(v);
        }
      }
    }

    method IsMapped(v: Word) returns (b: bool)
      requires Valid() && current != NONE
      ensures b == Present(Pte(mmu.Mem(), DirOf(table[current]), DirIndex(v), TabIndex(v)))
    {
      hide Present, FrameOf, DirIndex, TabIndex;
      var pte := LoadPte(v);
      b := Present(pte);
    }

    /** The entry the processor finds for a virtual address, 0 without a table. */
    method LoadPte(v: Word) returns (pte: Word)
      requires Valid() && current != NONE
      ensures pte == Pte(mmu.Mem(), DirOf(table[current]), DirIndex(v), TabIndex(v))
    {
      hide Present, FrameOf, DirIndex, TabIndex;
      var pde := mmu.Load(DirOf(table[current]), DirIndex(v));
      pte := 0;
      if Present(pde) {
        pte := mmu.Load(FrameOf(pde), TabIndex(v));
      }
    }

    /** A byte stored by the current process or on its behalf; false if the machine stops. */
    method StoreByteInUserMemory(v: Word, b: Byte) returns (ok: bool)
      requires Valid() && current != NONE
      modifies mmu.frames, mmu.allocator.bitmap
      ensures match PutByte(old(mmu.State()), DirOf(table[current]), v, b)
              case Halts => !ok
              case Goes(r) => ok && mmu.State() == r
    {
      hide Touch, UsedOf, FrameOf, DirIndex, TabIndex, Offset, WithByte, Present;
      ok := TouchPage(v);
      if ok {
        TouchedIsPresent(old(mmu.State()), DirOf(table[current]), v);
        var pte := LoadPte(v);
        var w := mmu.Load(FrameOf(pte), Offset(v) / 4);
        mmu.Store(FrameOf(pte), Offset(v) / 4, WithByte(w, v % 4, b));
      }
    }

    /** The store of the status, byte by byte, at whatever address was given; false if the machine stops. */
    method StoreInUserMemory(v: Word, w: Word) returns (ok: bool)
      requires Valid() && current != NONE
      modifies mmu.frames, mmu.allocator.bitmap
      ensures match PutWord(old(mmu.State()), DirOf(table[current]), v, w, 0)
              case Halts => !ok
              case Goes(r) => ok && mmu.State() == r
    {
      hide PutByte, UsedOf, ByteOf;
      for k := 0 to 4
        invariant PutWord(mmu.State(), DirOf(table[current]), v, w, k) ==
                    PutWord(old(mmu.State()), DirOf(table[current]), v, w, 0)
      {
        ok := StoreByteInUserMemory((v + k) % 0x1_0000_0000, ByteOf(w, k));
        if !ok {
          return;
        }
      }
      return true;
    }

    /** page_fault_handler for the current process; false if it stops the machine. */
    method PageFault(v: Word, error: ErrorCode) returns (resumed: bool)
      requires Valid()
      modifies mmu.frames, mmu.allocator.bitmap
      ensures current == NONE ==> !resumed
      ensures current != NONE ==>
                match HandleFault(old(mmu.State()), DirOf(table[current]), v, error)
                case Halted => !resumed
                case Resumed(r) => resumed && State() == old(State()).(ram := r)
      ensures current != NONE && old(State()).ram.used[0] ==>
                (resumed <==> v < 0xC000_0000 && !error.present && FreeCount(old(State()).ram.used) > 0)
    {
      hide HandleFault, UsedOf, FreeCount;
      if current == NONE {
        return false;
      }
      if State().ram.used[0] {
        HandlesIff(State().ram, DirOf(table[current]), v, error);
      }
      resumed := mmu.PageFaultHandler(table[current].ctx.cr3, v, error);
    }

    /** ok is false if the store of the status stops the machine. */
    method SysWait(status: Word) returns (ok: bool, result: Word)
      requires Valid()
      modifies this, table, mmu.frames, mmu.allocator.bitmap
      ensures match Wait(old(State()), status)
              case Halts => !ok
              case Goes(r) => ok && State() == r.0 && result == r.1
    {
      hide PutWord, FirstZombie, UsedOf;
      if current == NONE {
        return true, FAILED;
      }
      var child := GetZombieProcessForParent(table[current].pid);
      if child == NONE {
        return true, FAILED;
      }
      var exitStatus := table[child].ctx.reg.eax;
      if status != 0 {
        ok := StoreInUserMemory(status, exitStatus);
        if !ok {
          return false, FAILED;
        }
      }
      table[child] := table[child].(state := Free);
      table[child] := table[child].(pid := 0);
      table[child] := table[child].(parentPid := 0);
      return true, table[child].pid;
    }
  }

  lemma TouchedIsPresent(ram: Ram, d: nat, v: Word)
    requires Touch(ram, d, v).Goes?
    ensures Present(Pte(Touch(ram, d, v).result.mem, d, DirIndex(v), TabIndex(v)))
  {
  }

  lemma SameUpdate(k: Kernel, slot: nat, p: Pcb)
    requires slot < MAX_PROCESSES
    ensures forall r, p' :: SetPcb(SetPcb(k, slot, p).(ram := r), slot, p') == SetPcb(k.(ram := r), slot, p')
  {
  }

  lemma ChildKeepsPid(k: Kernel, slot: nat, p: Pcb)
    requires slot < MAX_PROCESSES
    ensures Enqueue(SetPcb(k, slot, LaunchChild(p)), slot).table[slot].pid == p.pid
  {
  }

  lemma PositionOf(i: nat, j: nat)
    requires i < KERNEL_PDT_IDX && j < ENTRIES
    ensures DirIndex(i * 0x40_0000 + j * 0x1000) == i && TabIndex(i * 0x40_0000 + j * 0x1000) == j
  {
    var v := i * 0x40_0000 + j * 0x1000;
    assert v / 0x1000 == i * 0x400 + j;
  }
}

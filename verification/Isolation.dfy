/** No frame serves two purposes: the invariant that every kernel operation keeps. */
module Isolation {
  import opened Machine
  import opened FramePool
  import opened PageTables
  import opened Ownership
  import opened Directories
  import opened ForkCopy
  import opened ImageLoading
  import opened Processes

  /** The directories of all processes that are not Free. */
  function LiveDirs(t: Table): set<nat> {
    set s | 0 <= s < MAX_PROCESSES && !t[s].state.Free? :: DirOf(t[s])
  }

  ghost predicate DistinctDirs(t: Table) {
    forall s, s' :: 0 <= s < s' < MAX_PROCESSES && !t[s].state.Free? && !t[s'].state.Free? ==>
      DirOf(t[s]) != DirOf(t[s'])
  }

  /** The first reserved frames -- low memory, the kernel and its bitmap -- are nobody's. */
  ghost predicate Reserves(ram: Ram, own: map<nat, Use>, reserved: nat) {
    0 < reserved <= TOTAL_FRAMES && forall g {:trigger ram.used[g]} :: 0 <= g < reserved ==> ram.used[g] && g !in own
  }

  /** Every line of the ledger belongs to a directory that is in it too. */
  ghost predicate LedgerClosed(own: map<nat, Use>) {
    forall g {:trigger own[g].d} :: g in own ==> own[g].d in own
  }

  lemma LedgerStaysClosed(ram: Ram, own: map<nat, Use>, own': map<nat, Use>, c: nat)
    requires LedgerClosed(own) && Grown(ram, own, own', c) && c in own'
    ensures LedgerClosed(own')
  {
    forall g | g in own'
      ensures own'[g].d in own'
    {
      assert g in own ==> own[g].d in own;
    }
  }

  ghost predicate Isolated(k: Kernel, own: map<nat, Use>, reserved: nat) {
    && Separated(k.ram, own, LiveDirs(k.table)) && DistinctDirs(k.table)
    && SharesKernelHalf(k.ram.mem, LiveDirs(k.table), k.kdir) && Reserves(k.ram, own, reserved) && LedgerClosed(own)
  }

  /** Every process that was there still is, and sees the same pages. */
  ghost predicate SpacesKept(k: Kernel, k': Kernel) {
    forall s {:trigger k'.table[s]} :: 0 <= s < MAX_PROCESSES && !k.table[s].state.Free? ==>
      && !k'.table[s].state.Free? && DirOf(k'.table[s]) == DirOf(k.table[s])
      && SameSpace(k.ram.mem, k'.ram.mem, DirOf(k.table[s]))
  }

  /** The first reserved frames are as before, and so are frames that are still free. */
  ghost predicate KernelKept(k: Kernel, k': Kernel, reserved: nat) {
    && LeavesFree(k.ram, k'.ram)
    && forall g :: 0 <= g < reserved && g < TOTAL_FRAMES ==> k'.ram.mem[g] == k.ram.mem[g]
  }

  lemma LiveDirOwned(k: Kernel, own: map<nat, Use>, reserved: nat, s: nat)
    requires Isolated(k, own, reserved) && s < MAX_PROCESSES && !k.table[s].state.Free?
    ensures DirOf(k.table[s]) in LiveDirs(k.table) && DirOf(k.table[s]) in own
  {
    hide PagesApart;
  }

  /** Filling slot, or failing to, after work on a new directory c. */
  ghost predicate FillsSlot(k: Kernel, k': Kernel, slot: nat, c: nat) {
    && slot < MAX_PROCESSES && k.table[slot].state.Free? && k'.kdir == k.kdir
    && k'.table == k.table[slot := k'.table[slot]]
    && (k'.table[slot].state.Free? || DirOf(k'.table[slot]) == c)
  }

  lemma FilledDirs(k: Kernel, k': Kernel, slot: nat, c: nat)
    requires FillsSlot(k, k', slot, c) && DistinctDirs(k.table) && c !in LiveDirs(k.table)
    ensures LiveDirs(k'.table) == LiveDirs(k.table) + if k'.table[slot].state.Free? then {} else {c}
    ensures DistinctDirs(k'.table)
  {
    forall d
      ensures d in LiveDirs(k'.table) <==> d in LiveDirs(k.table) + if k'.table[slot].state.Free? then {} else {c}
    {
      if d in LiveDirs(k.table) {
        var s :| 0 <= s < MAX_PROCESSES && !k.table[s].state.Free? && DirOf(k.table[s]) == d;
        assert k'.table[s] == k.table[s];
      }
    }
    forall s | 0 <= s < MAX_PROCESSES && !k.table[s].state.Free?
      ensures DirOf(k.table[s]) != c
    {
      assert DirOf(k.table[s]) in LiveDirs(k.table);
    }
  }

  lemma FewerDirs(ram: Ram, own: map<nat, Use>, dirs: set<nat>, dirs': set<nat>)
    requires Separated(ram, own, dirs) && dirs' <= dirs
    ensures Separated(ram, own, dirs')
  {
    hide TableApart, PageApart;
  }

  lemma ReservesStays(ram: Ram, own: map<nat, Use>, ram': Ram, own': map<nat, Use>, c: nat, reserved: nat)
    requires Reserves(ram, own, reserved) && Confined(ram, own, ram', c) && Grown(ram, own, own', c)
    ensures Reserves(ram', own', reserved)
    ensures forall g :: 0 <= g < reserved ==> ram'.mem[g] == ram.mem[g]
  {
    forall g | 0 <= g < reserved
      ensures ram'.used[g] && g !in own' && ram'.mem[g] == ram.mem[g]
    {
      assert ram.used[g];
    }
  }

  lemma DirsInLedger(ram: Ram, own: map<nat, Use>, dirs: set<nat>, c: nat)
    requires Separated(ram, own, dirs) && c in dirs
    ensures c in own
  {
    hide PagesApart;
  }

  lemma BuiltSpace(k: Kernel, own: map<nat, Use>, reserved: nat, k': Kernel, own': map<nat, Use>, slot: nat, c: nat)
    requires Isolated(k, own, reserved) && FillsSlot(k, k', slot, c) && c !in own
    requires Separated(k'.ram, own', LiveDirs(k.table) + {c}) && Confined(k.ram, own, k'.ram, c)
    requires Grown(k.ram, own, own', c)
    requires forall i {:trigger Pde(k'.ram.mem, c, i)} :: KERNEL_PDT_IDX <= i < ENTRIES ==>
               Pde(k'.ram.mem, c, i) == k.kdir[i]
    ensures Isolated(k', own', reserved) && SpacesKept(k, k') && KernelKept(k, k', reserved)
  {
    hide LiveDirs, Pde, Pte, DistinctDirs, SameSpace, Separated, LedgerClosed;
    assert c in own' by { DirsInLedger(k'.ram, own', LiveDirs(k.table) + {c}, c); }
    LedgerStaysClosed(k.ram, own, own', c);
    forall s | 0 <= s < MAX_PROCESSES && !k.table[s].state.Free?
      ensures DirOf(k.table[s]) in LiveDirs(k.table) && DirOf(k.table[s]) != c
    {
      LiveDirOwned(k, own, reserved, s);
    }
    assert c !in LiveDirs(k.table) by { LiveDirsOwned(k, own, reserved); }
    FilledDirs(k, k', slot, c);
    FewerDirs(k'.ram, own', LiveDirs(k.table) + {c}, LiveDirs(k'.table));
    ReservesStays(k.ram, own, k'.ram, own', c, reserved);
    forall d | d in LiveDirs(k.table)
      ensures SameSpace(k.ram.mem, k'.ram.mem, d)
    {
      LiveDirsOwned(k, own, reserved);
      OthersUntouched(k.ram, own, k'.ram, LiveDirs(k.table), c, d);
    }
    KernelHalfStays(k, k', c);
  }

  lemma LiveDirsOwned(k: Kernel, own: map<nat, Use>, reserved: nat)
    requires Isolated(k, own, reserved)
    ensures forall d :: d in LiveDirs(k.table) ==> d in own
  {
    hide LiveDirs, PagesApart;
  }

  lemma KernelHalfStays(k: Kernel, k': Kernel, c: nat)
    requires SharesKernelHalf(k.ram.mem, LiveDirs(k.table), k.kdir) && k'.kdir == k.kdir
    requires LiveDirs(k'.table) <= LiveDirs(k.table) + {c}
    requires forall d :: d in LiveDirs(k.table) ==> SameSpace(k.ram.mem, k'.ram.mem, d)
    requires forall i {:trigger Pde(k'.ram.mem, c, i)} :: KERNEL_PDT_IDX <= i < ENTRIES ==>
               Pde(k'.ram.mem, c, i) == k.kdir[i]
    ensures SharesKernelHalf(k'.ram.mem, LiveDirs(k'.table), k'.kdir)
  {
    hide LiveDirs, Pde, Pte, SamePage;
    forall d, i {:trigger Pde(k'.ram.mem, d, i)} | d in LiveDirs(k'.table) && KERNEL_PDT_IDX <= i < ENTRIES
      ensures Pde(k'.ram.mem, d, i) == k'.kdir[i]
    {
      assert d != c ==> d in LiveDirs(k.table) && SameSpace(k.ram.mem, k'.ram.mem, d);
      assert d != c ==> Pde(k.ram.mem, d, i) == k.kdir[i];
    }
  }

  // ---- Operations that build an address space ----

  lemma NothingBuilt(k: Kernel, own: map<nat, Use>, reserved: nat, k': Kernel, slot: nat, c: nat)
    requires Isolated(k, own, reserved) && k'.ram == k.ram && c !in own
    requires k' == k || (FillsSlot(k, k', slot, c) && k'.table[slot].state.Free?)
    ensures Isolated(k', own, reserved) && SpacesKept(k, k') && KernelKept(k, k', reserved)
  {
    hide LiveDirs, Pde, Pte, DistinctDirs, SameSpace, Separated;
    forall s | 0 <= s < MAX_PROCESSES && !k.table[s].state.Free?
      ensures SameSpace(k.ram.mem, k'.ram.mem, DirOf(k.table[s]))
    {
      SameSpaceReflexive(k.ram.mem, DirOf(k.table[s]));
    }
    LiveDirsOwned(k, own, reserved);
    if k' != k {
      FilledDirs(k, k', slot, c);
      assert LiveDirs(k'.table) == LiveDirs(k.table);
    }
  }

  lemma CreateFills(k: Kernel, src: nat, size: Word)
    requires FirstFree(k.table, 0) < MAX_PROCESSES
    ensures var slot, k', made := FirstFree(k.table, 0), CreateProcess(k, src, size).0, CreateDirectory(k.ram, k.kdir);
            && FillsSlot(k, k', slot, made.0)
            && (made.0 == 0 ==> k'.ram == made.1 && k'.table[slot].state.Free?)
            && (made.0 != 0 ==> k'.ram == LoadPages(made.1, made.0, src, size, 0).ram)
  {
    hide CreateDirectory, LoadPages, StackFill, PushFrame;
    var made := CreateDirectory(k.ram, k.kdir);
    DirOfFresh(made.0);
  }

  /** create_process, whether it succeeds or fails at any point, keeps all processes apart and changes none of them. */
  lemma CreateIsolated(k: Kernel, own: map<nat, Use>, reserved: nat, src: nat, size: Word)
    returns (own': map<nat, Use>)
    requires Isolated(k, own, reserved)
    ensures var k' := CreateProcess(k, src, size).0;
            Isolated(k', own', reserved) && SpacesKept(k, k') && KernelKept(k, k', reserved)
  {
    hide LiveDirs, Pde, Pte, DistinctDirs, SameSpace, Separated, CreateDirectory, LoadPages, Isolated, SpacesKept;
    hide KernelKept;
    hide Advances, FreshDirectory, Present, FreeCount, FillsSlot, CreateProcess, Confined, Grown, SameOutside;
    if FirstFree(k.table, 0) == MAX_PROCESSES {
      own' := own;
      NoSlotNoProcess(k, src, size);
      IsolatedSeparated(k, own, reserved);
      NothingBuilt(k, own, reserved, k, 0, 0);
      return;
    }
    CreateFills(k, src, size);
    var slot, dirs := FirstFree(k.table, 0), LiveDirs(k.table);
    var k', made := CreateProcess(k, src, size).0, CreateDirectory(k.ram, k.kdir);
    own' := own;
    IsolatedSeparated(k, own, reserved);
    CreateDirectoryFresh(k.ram, own, dirs, k.kdir);
    if made.0 == 0 {
      NothingBuilt(k, own, reserved, k', slot, 0);
    } else {
      var c, own1 := made.0, own[made.0 := Directory(made.0)];
      CreateDirectoryKeeps(k.ram, own, dirs, k.kdir);
      FreeAtMost(made.1.used, 0);
      assert FreeCount(made.1.used) <= TOTAL_FRAMES by { FreeCountIs(made.1.used); }
      own' := LoadPagesKeeps(made.1, own1, dirs + {c}, c, src, size, 0);
      var r := LoadPages(made.1, c, src, size, 0).ram;
      AdvancesTransitive(k.ram, own, made.1, own1, r, own', c);
      AdvancesConfines(k.ram, own, r, own', c);
      LoadedHalf(made.1.mem, r.mem, c, k.kdir, PagesNeeded(size));
      BuiltSpace(k, own, reserved, k', own', slot, c);
    }
  }

  lemma NoSlotNoProcess(k: Kernel, src: nat, size: Word)
    requires FirstFree(k.table, 0) == MAX_PROCESSES
    ensures CreateProcess(k, src, size) == (k, NONE)
  {
  }

  lemma IsolatedSeparated(k: Kernel, own: map<nat, Use>, reserved: nat)
    requires Isolated(k, own, reserved)
    ensures Separated(k.ram, own, LiveDirs(k.table)) && 0 !in own
  {
  }

  lemma FreeCountIs(used: Used)
    ensures FreeCount(used) == FreeFrom(used, 0)
  {
  }

  lemma AdvancesConfines(ram: Ram, own: map<nat, Use>, ram': Ram, own': map<nat, Use>, c: nat)
    requires Advances(ram, own, ram', own', c)
    ensures Confined(ram, own, ram', c) && Grown(ram, own, own', c)
  {
  }

  lemma LoadedHalf(m: Memory, m': Memory, c: nat, kdir: Frame, end: nat)
    requires FreshDirectory(m, c, kdir) && SameOutside(m, m', c, 0, end)
    ensures forall i {:trigger Pde(m', c, i)} :: KERNEL_PDT_IDX <= i < ENTRIES ==> Pde(m', c, i) == kdir[i]
  {
    hide Pde, Pte;
  }

  lemma DirOfFresh(c: nat)
    requires c < TOTAL_FRAMES
    ensures c * FRAME_SIZE / FRAME_SIZE == c
  {
  }

  lemma CreateKernelFills(k: Kernel, entry: Word, idle: Word)
    requires FirstFree(k.table, 0) < MAX_PROCESSES
    ensures var slot, k', made := FirstFree(k.table, 0), CreateKernelProcess(k, entry, idle).0,
              CreateDirectory(k.ram, k.kdir);
            && FillsSlot(k, k', slot, made.0) && k'.ram == made.1
            && (made.0 == 0 ==> k'.table[slot].state.Free?)
  {
    hide CreateDirectory, StackFill;
    DirOfFresh(CreateDirectory(k.ram, k.kdir).0);
  }

  lemma NoSlotNoKernelProcess(k: Kernel, entry: Word, idle: Word)
    requires FirstFree(k.table, 0) == MAX_PROCESSES
    ensures CreateKernelProcess(k, entry, idle) == (k, NONE)
  {
  }

  /** So does create_kernel_process. */
  lemma CreateKernelIsolated(k: Kernel, own: map<nat, Use>, reserved: nat, entry: Word, idle: Word)
    returns (own': map<nat, Use>)
    requires Isolated(k, own, reserved)
    ensures var k' := CreateKernelProcess(k, entry, idle).0;
            Isolated(k', own', reserved) && SpacesKept(k, k') && KernelKept(k, k', reserved)
  {
    hide LiveDirs, Pde, Pte, DistinctDirs, SameSpace, Separated, CreateDirectory, Isolated, SpacesKept, KernelKept;
    hide Advances, Present, FreeCount, FillsSlot, CreateKernelProcess, Confined, Grown;
    own' := own;
    IsolatedSeparated(k, own, reserved);
    if FirstFree(k.table, 0) == MAX_PROCESSES {
      NoSlotNoKernelProcess(k, entry, idle);
      NothingBuilt(k, own, reserved, k, 0, 0);
      return;
    }
    CreateKernelFills(k, entry, idle);
    var slot, dirs := FirstFree(k.table, 0), LiveDirs(k.table);
    var k', made := CreateKernelProcess(k, entry, idle).0, CreateDirectory(k.ram, k.kdir);
    CreateDirectoryFresh(k.ram, own, dirs, k.kdir);
    if made.0 == 0 {
      NothingBuilt(k, own, reserved, k', slot, 0);
    } else {
      own' := own[made.0 := Directory(made.0)];
      CreateDirectoryKeeps(k.ram, own, dirs, k.kdir);
      AdvancesConfines(k.ram, own, made.1, own', made.0);
      BuiltSpace(k, own, reserved, k', own', slot, made.0);
    }
  }

  // ---- Fork ----

  ghost predicate CurrentLive(k: Kernel) {
    k.current != NONE ==> !k.table[k.current].state.Free?
  }

  lemma ForkFills(k: Kernel)
    requires k.current != NONE && CurrentLive(k) && FirstFree(k.table, 0) < MAX_PROCESSES
    ensures var slot, k', made := FirstFree(k.table, 0), Fork(k).0, CreateDirectory(k.ram, k.kdir);
            && FillsSlot(k, k', slot, made.0)
            && (made.0 == 0 ==> k'.ram == made.1 && k'.table[slot].state.Free? && Fork(k).1 == FAILED)
            && (made.0 != 0 ==> var copying := CopySpace(made.1, DirOf(k.table[k.current]), made.0, 0);
                                && k'.ram == copying.ram && (k'.table[slot].state.Free? <==> copying.OutOfFrames?)
                                && Fork(k).1 == if copying.Copied? then k.nextPid else FAILED)
  {
    hide CreateDirectory, CopySpace, StackFill, PushFrame;
    DirOfFresh(CreateDirectory(k.ram, k.kdir).0);
  }

  lemma NoSlotNoFork(k: Kernel)
    requires k.current == NONE || FirstFree(k.table, 0) == MAX_PROCESSES
    ensures Fork(k) == (k, FAILED)
  {
  }

  /** And so does sys_fork, of the parent's address space too. */
  lemma ForkIsolated(k: Kernel, own: map<nat, Use>, reserved: nat)
    returns (own': map<nat, Use>)
    requires Isolated(k, own, reserved) && CurrentLive(k)
    ensures var k' := Fork(k).0;
            Isolated(k', own', reserved) && SpacesKept(k, k') && KernelKept(k, k', reserved)
  {
    hide LiveDirs, Pde, Pte, DistinctDirs, SameSpace, Separated, CreateDirectory, CopySpace, Isolated, SpacesKept;
    hide KernelKept;
    hide Advances, FreshDirectory, Present, FreeCount, FillsSlot, Fork, Confined, Grown, SameBefore;
    own' := own;
    IsolatedSeparated(k, own, reserved);
    if k.current == NONE || FirstFree(k.table, 0) == MAX_PROCESSES {
      NoSlotNoFork(k);
      NothingBuilt(k, own, reserved, k, 0, 0);
      return;
    }
    ForkFills(k);
    var slot, dirs, p := FirstFree(k.table, 0), LiveDirs(k.table), DirOf(k.table[k.current]);
    var k', made := Fork(k).0, CreateDirectory(k.ram, k.kdir);
    CreateDirectoryFresh(k.ram, own, dirs, k.kdir);
    if made.0 == 0 {
      NothingBuilt(k, own, reserved, k', slot, 0);
    } else {
      var c, own1 := made.0, own[made.0 := Directory(made.0)];
      LiveDirOwned(k, own, reserved, k.current);
      CreateDirectoryKeeps(k.ram, own, dirs, k.kdir);
      own' := CopySpaceKeeps(made.1, own1, dirs + {c}, p, c, 0);
      var r := CopySpace(made.1, p, c, 0).ram;
      AdvancesTransitive(k.ram, own, made.1, own1, r, own', c);
      AdvancesConfines(k.ram, own, r, own', c);
      CopiedHalf(made.1.mem, r.mem, c, k.kdir);
      BuiltSpace(k, own, reserved, k', own', slot, c);
    }
  }

  lemma CopiedHalf(m: Memory, m': Memory, c: nat, kdir: Frame)
    requires FreshDirectory(m, c, kdir) && SameBefore(m, m', c, 0)
    ensures forall i {:trigger Pde(m', c, i)} :: KERNEL_PDT_IDX <= i < ENTRIES ==> Pde(m', c, i) == kdir[i]
  {
    hide Pde, Pte;
  }

  // ---- Operations that build nothing ----

  /** Process blocks change, but no process appears and none that stays moves. */
  ghost predicate NoNewDirs(t: Table, t': Table) {
    forall s {:trigger t'[s]} :: 0 <= s < MAX_PROCESSES && !t'[s].state.Free? ==>
      !t[s].state.Free? && DirOf(t'[s]) == DirOf(t[s])
  }

  /** Ending processes keeps the rest apart; their frames just stay taken. */
  lemma FewerProcesses(k: Kernel, own: map<nat, Use>, reserved: nat, k': Kernel)
    requires Isolated(k, own, reserved) && NoNewDirs(k.table, k'.table) && k'.ram == k.ram && k'.kdir == k.kdir
    ensures Isolated(k', own, reserved)
  {
    hide Separated, Pde;
    assert LiveDirs(k'.table) <= LiveDirs(k.table) by {
      forall d | d in LiveDirs(k'.table)
        ensures d in LiveDirs(k.table)
      {
        var s :| 0 <= s < MAX_PROCESSES && !k'.table[s].state.Free? && DirOf(k'.table[s]) == d;
        assert !k.table[s].state.Free?;
      }
    }
    FewerDirs(k.ram, own, LiveDirs(k.table), LiveDirs(k'.table));
  }

  /** The current process's memory changed within its own frames. */
  lemma OwnMemoryChanged(k: Kernel, own: map<nat, Use>, reserved: nat, k': Kernel, own': map<nat, Use>)
    requires Isolated(k, own, reserved) && CurrentLive(k) && k.current != NONE && k' == k.(ram := k'.ram)
    requires var d := DirOf(k.table[k.current]);
             && Separated(k'.ram, own', LiveDirs(k.table)) && Confined(k.ram, own, k'.ram, d)
             && Grown(k.ram, own, own', d)
             && forall i {:trigger Pde(k'.ram.mem, d, i)} :: KERNEL_PDT_IDX <= i < ENTRIES ==>
                  Pde(k'.ram.mem, d, i) == Pde(k.ram.mem, d, i)
    ensures Isolated(k', own', reserved) && KernelKept(k, k', reserved)
    ensures forall s :: 0 <= s < MAX_PROCESSES && s != k.current && !k.table[s].state.Free? ==>
              SameSpace(k.ram.mem, k'.ram.mem, DirOf(k.table[s]))
  {
    hide Pde, Pte, SameSpace, Separated, LiveDirs, LedgerClosed;
    var d := DirOf(k.table[k.current]);
    LiveDirOwned(k, own, reserved, k.current);
    DirsInLedger(k'.ram, own', LiveDirs(k.table), d);
    LedgerStaysClosed(k.ram, own, own', d);
    ReservesStays(k.ram, own, k'.ram, own', d, reserved);
    forall d' | d' in LiveDirs(k.table) && d' != d
      ensures SameSpace(k.ram.mem, k'.ram.mem, d')
    {
      OthersUntouched(k.ram, own, k'.ram, LiveDirs(k.table), d, d');
    }
    forall s | 0 <= s < MAX_PROCESSES && s != k.current && !k.table[s].state.Free?
      ensures SameSpace(k.ram.mem, k'.ram.mem, DirOf(k.table[s]))
    {
      LiveDirOwned(k, own, reserved, s);
    }
    forall d', i {:trigger Pde(k'.ram.mem, d', i)} | d' in LiveDirs(k.table) && KERNEL_PDT_IDX <= i < ENTRIES
      ensures Pde(k'.ram.mem, d', i) == k.kdir[i]
    {
      SamePdes(k.ram.mem, k'.ram.mem, d', d, i);
      assert Pde(k.ram.mem, d', i) == k.kdir[i];
    }
  }

  lemma SamePdes(m: Memory, m': Memory, d': nat, d: nat, i: nat)
    requires d' != d ==> SameSpace(m, m', d')
    requires i < ENTRIES
    ensures d' != d ==> Pde(m', d', i) == Pde(m, d', i)
  {
  }
}

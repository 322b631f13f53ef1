/** What sys_fork (arch/x86/syscall.c) gives the child, exactly when it succeeds, and what a failure leaves behind. */
module Spawning {
  import opened Machine
  import opened FramePool
  import opened PageTables
  import opened Ownership
  import opened Directories
  import opened ForkCopy
  import opened Processes
  import opened Isolation
  import opened Lifecycle
  import opened Runs

  /** The directory, the parent's pages, and a table for each of its tables that holds any. */
  function ForkNeed(k: Kernel): nat
    requires k.current != NONE
  {
    1 + SpaceNeed(k.ram.mem, DirOf(k.table[k.current]), 0)
  }

  lemma ForkStart(k: Kernel, own: map<nat, Use>, reserved: nat, q: seq<nat>)
    requires Consistent(k, own, reserved, q) && k.current != NONE && CreateDirectory(k.ram, k.kdir).0 != 0
    ensures var (made, p) := (CreateDirectory(k.ram, k.kdir), DirOf(k.table[k.current]));
            var own1 := own[made.0 := Directory(made.0)];
            && CopyingSpace(made.1, own1, LiveDirs(k.table) + {made.0}, p, made.0, 0)
            && SameSpace(k.ram.mem, made.1.mem, p) && FreeCount(made.1.used) == FreeCount(k.ram.used) - 1
  {
    hide LiveDirs, Pde, Pte, Present, Separated, CreateDirectory, SameSpace, FreeCount, ReadyList, Pids;
    hide SharesKernelHalf, DistinctDirs, Reserves, Preserved;
    var (made, p) := (CreateDirectory(k.ram, k.kdir), DirOf(k.table[k.current]));
    CurrentIsLive(k, q);
    LiveDirOwned(k, own, reserved, k.current);
    CreateDirectoryFresh(k.ram, own, LiveDirs(k.table), k.kdir);
    CreateDirectoryKeeps(k.ram, own, LiveDirs(k.table), k.kdir);
    var own1 := own[made.0 := Directory(made.0)];
    AdvancesConfines(k.ram, own, made.1, own1, made.0);
    OthersUntouched(k.ram, own, made.1, LiveDirs(k.table), made.0, p);
  }

  lemma MirrorsFromStart(m: Memory, m1: Memory, m': Memory, p: nat, c: nat)
    requires SameSpace(m, m1, p)
    ensures MirrorsFrom(m1, m', p, c, 0) ==> MirrorsFrom(m, m', p, c, 0)
    ensures LosesFrom(m1, m', p, c, 0) ==> LosesFrom(m, m', p, c, 0)
  {
    hide Mirrors, Present, FrameOf, Pte, Pde, SamePage;
    if MirrorsFrom(m1, m', p, c, 0) {
      forall i, j | 0 <= i < KERNEL_PDT_IDX && 0 <= j < ENTRIES
        ensures Mirrors(m, m', p, c, i, j)
      {
        assert SamePage(m, m1, p, i, j) && Mirrors(m1, m', p, c, i, j);
        MirrorFrom(m, m1, m', p, c, i, j);
      }
    }
    if LosesFrom(m1, m', p, c, 0) {
      LosesFirst(m, m1, m', p, c);
    }
  }

  lemma LosesFirst(m: Memory, m1: Memory, m': Memory, p: nat, c: nat)
    requires SameSpace(m, m1, p) && LosesFrom(m1, m', p, c, 0)
    ensures LosesFrom(m, m', p, c, 0)
  {
    hide Present, FrameOf, Pde, Pte;
    var i', j' :| 0 <= i' < KERNEL_PDT_IDX && 0 <= j' < ENTRIES && Lost(m1, m', p, c, i', j');
    assert SamePage(m, m1, p, i', j');
    assert Lost(m, m', p, c, i', j');
  }

  /** With a free slot and frames for the directory, every page and every table, fork succeeds at exactly
      that cost: the child maps the parent's pages with the same flags and equal contents. */
  lemma ForkCopiesExactly(k: Kernel, own: map<nat, Use>, reserved: nat, q: seq<nat>)
    requires Consistent(k, own, reserved, q) && k.current != NONE && FirstFree(k.table, 0) < MAX_PROCESSES
    requires FreeCount(k.ram.used) >= ForkNeed(k)
    ensures var (slot, p, (k', r)) := (FirstFree(k.table, 0), DirOf(k.table[k.current]), Fork(k));
            && k'.table[slot].state.Ready? && r == k.nextPid
            && FreeCount(k'.ram.used) == FreeCount(k.ram.used) - ForkNeed(k)
            && MirrorsFrom(k.ram.mem, k'.ram.mem, p, DirOf(k'.table[slot]), 0)
            && SpacesKept(k, k')
  {
    hide Consistent, FreeCount, Fork, CreateDirectory, CopySpace, SameSpace, SpaceNeed, SpacesKept, MirrorsFrom;
    hide CopyingSpace, LosesFrom;
    hide ReadyList, Isolated, Pids, TakesSlot;
    var (slot, p, made) := (FirstFree(k.table, 0), DirOf(k.table[k.current]), CreateDirectory(k.ram, k.kdir));
    UnpackConsistent(k, own, reserved, q);
    ForkSucceedsShape(k, own, reserved, q);
    var own1 := own[made.0 := Directory(made.0)];
    ForkStart(k, own, reserved, q);
    SpaceNeedSame(k.ram.mem, made.1.mem, p);
    CopySpaceMirrors(made.1, own1, LiveDirs(k.table) + {made.0}, p, made.0, 0);
    MirrorsFromStart(k.ram.mem, made.1.mem, Fork(k).0.ram.mem, p, made.0);
    var own' := ForkIsolated(k, own, reserved);
  }

  lemma UnpackConsistent(k: Kernel, own: map<nat, Use>, reserved: nat, q: seq<nat>)
    requires Consistent(k, own, reserved, q)
    ensures Isolated(k, own, reserved) && ReadyList(k, q) && Pids(k) && CurrentLive(k)
    ensures Separated(k.ram, own, LiveDirs(k.table)) && LedgerClosed(own)
  {
    hide Separated, LedgerClosed, ReadyList, Pids;
    CurrentIsLive(k, q);
  }

  lemma SpaceNeedSame(m: Memory, m': Memory, p: nat)
    requires SameSpace(m, m', p)
    ensures SpaceNeed(m', p, 0) == SpaceNeed(m, p, 0) && LoneLastPage(m', p, 0) == LoneLastPage(m, p, 0)
  {
    hide SameSpace, LoneLastPage, PageCount, TableCount;
    CountsSame(m, m', p, 0);
    LoneSame(m, m', p, 0);
  }

  lemma ForkSucceedsShape(k: Kernel, own: map<nat, Use>, reserved: nat, q: seq<nat>)
    requires Consistent(k, own, reserved, q) && k.current != NONE && FirstFree(k.table, 0) < MAX_PROCESSES
    ensures CreateDirectory(k.ram, k.kdir).0 == 0 <==> FreeCount(k.ram.used) == 0
    ensures CreateDirectory(k.ram, k.kdir).0 == 0 ==> Fork(k).0.table[FirstFree(k.table, 0)].state.Free?
    ensures CreateDirectory(k.ram, k.kdir).0 != 0 ==>
              var (slot, p, made) := (FirstFree(k.table, 0), DirOf(k.table[k.current]), CreateDirectory(k.ram, k.kdir));
              var copying := CopySpace(made.1, p, made.0, 0);
              && Fork(k).0.ram == copying.ram && (copying.Copied? <==> Fork(k).0.table[slot].state.Ready?)
              && Fork(k).1 == (if copying.Copied? then k.nextPid else FAILED)
              && (copying.Copied? ==> DirOf(Fork(k).0.table[slot]) == made.0)
  {
    hide CreateDirectory, CopySpace, Fork, Separated, ReadyList, Pids, FreeCount, LiveDirs;
    CurrentIsLive(k, q);
    ForkFills(k);
    ForkTakes(k);
    CreateDirectoryFresh(k.ram, own, LiveDirs(k.table), k.kdir);
  }

  /** With fewer frames fork fails, with one exception: one frame short, when the parent's last table holds a
      single page, it returns a pid although the child lacks that page. */
  lemma ForkWithTooFewFrames(k: Kernel, own: map<nat, Use>, reserved: nat, q: seq<nat>)
    requires Consistent(k, own, reserved, q) && k.current != NONE && FirstFree(k.table, 0) < MAX_PROCESSES
    requires FreeCount(k.ram.used) < ForkNeed(k)
    ensures var (slot, p, k') := (FirstFree(k.table, 0), DirOf(k.table[k.current]), Fork(k).0);
            && (k'.table[slot].state.Ready? <==>
                  FreeCount(k.ram.used) == ForkNeed(k) - 1 && LoneLastPage(k.ram.mem, p, 0))
            && (k'.table[slot].state.Ready? ==> LosesFrom(k.ram.mem, k'.ram.mem, p, DirOf(k'.table[slot]), 0))
  {
    hide Consistent, FreeCount, Fork, CreateDirectory, CopySpace, SameSpace, SpaceNeed, MirrorsFrom, CopyingSpace;
    hide LosesFrom, LoneLastPage;
    hide ReadyList, Isolated, Pids;
    var (p, made) := (DirOf(k.table[k.current]), CreateDirectory(k.ram, k.kdir));
    UnpackConsistent(k, own, reserved, q);
    ForkSucceedsShape(k, own, reserved, q);
    if made.0 == 0 {
      LoneNeedsTwo(k.ram.mem, p, 0);
    } else {
      var own1 := own[made.0 := Directory(made.0)];
      ForkStart(k, own, reserved, q);
      SpaceNeedSame(k.ram.mem, made.1.mem, p);
      CopySpaceShort(made.1, own1, LiveDirs(k.table) + {made.0}, p, made.0, 0);
      MirrorsFromStart(k.ram.mem, made.1.mem, Fork(k).0.ram.mem, p, made.0);
    }
  }

  lemma {:induction false} LoneNeedsTwo(m: Memory, p: nat, i: nat)
    requires i <= KERNEL_PDT_IDX
    ensures LoneLastPage(m, p, i) ==> SpaceNeed(m, p, i) >= 2
    decreases KERNEL_PDT_IDX - i
  {
    hide PagesOf;
    if i < KERNEL_PDT_IDX {
      LoneNeedsTwo(m, p, i + 1);
    }
  }

  lemma LostIsNotMirrored(m: Memory, m': Memory, p: nat, c: nat)
    requires LosesFrom(m, m', p, c, 0)
    ensures !MirrorsFrom(m, m', p, c, 0)
  {
    hide Present, FlagsOf, FrameOf, Pte, ReadFrame;
    var i', j' :| 0 <= i' < KERNEL_PDT_IDX && 0 <= j' < ENTRIES && Lost(m, m', p, c, i', j');
    assert !Mirrors(m, m', p, c, i', j');
  }

  /** Fork hands out a faithful copy if and only if that many frames are free. */
  lemma ForkIsFaithfulIff(k: Kernel, own: map<nat, Use>, reserved: nat, q: seq<nat>)
    requires Consistent(k, own, reserved, q) && k.current != NONE && FirstFree(k.table, 0) < MAX_PROCESSES
    ensures var (slot, p, k') := (FirstFree(k.table, 0), DirOf(k.table[k.current]), Fork(k).0);
            (k'.table[slot].state.Ready? && MirrorsFrom(k.ram.mem, k'.ram.mem, p, DirOf(k'.table[slot]), 0))
            <==> FreeCount(k.ram.used) >= ForkNeed(k)
  {
    hide Consistent, FreeCount, Fork, ForkNeed, MirrorsFrom, LosesFrom, LoneLastPage;
    if FreeCount(k.ram.used) >= ForkNeed(k) {
      ForkCopiesExactly(k, own, reserved, q);
    } else {
      ForkWithTooFewFrames(k, own, reserved, q);
      var (slot, p, k') := (FirstFree(k.table, 0), DirOf(k.table[k.current]), Fork(k).0);
      if k'.table[slot].state.Ready? {
        LostIsNotMirrored(k.ram.mem, k'.ram.mem, p, DirOf(k'.table[slot]));
      }
    }
  }

  /** A failed fork is harmless wherever it fails: nobody's memory, no list entry and no other block changes. */
  lemma FailedForkIsHarmless(k: Kernel, own: map<nat, Use>, reserved: nat, q: seq<nat>)
    requires Consistent(k, own, reserved, q) && k.current != NONE && k.nextPid < 0xFFFF_FFFF && Fork(k).1 == 0xFFFF_FFFF
    ensures var (slot, k') := (FirstFree(k.table, 0), Fork(k).0);
            && SpacesKept(k, k') && KernelKept(k, k', reserved)
            && ReadyList(k', q) && k'.head == k.head && k'.current == k.current
            && (forall s :: 0 <= s < MAX_PROCESSES && s != slot ==> k'.table[s] == k.table[s])
            && (slot < MAX_PROCESSES ==> k'.table[slot].state.Free?)
            && (forall g :: 0 <= g < TOTAL_FRAMES && k.ram.used[g] ==> k'.ram.used[g] && k'.ram.mem[g] == k.ram.mem[g])
  {
    hide Fork, SameSpace, ReadyList, Isolated, Pids, LiveDirs;
    UnpackConsistent(k, own, reserved, q);
    ForkTakes(k);
    var own' := ForkIsolated(k, own, reserved);
    ForkWritesNewFrames(k, own, reserved, q);
    if FirstFree(k.table, 0) < MAX_PROCESSES {
      TakesSlotKeeps(k, Fork(k).0, FirstFree(k.table, 0), q);
    }
  }

  /** All that fork ever writes is frames it has just taken. */
  lemma ForkWritesNewFrames(k: Kernel, own: map<nat, Use>, reserved: nat, q: seq<nat>)
    requires Consistent(k, own, reserved, q)
    ensures forall g :: 0 <= g < TOTAL_FRAMES && k.ram.used[g] ==>
              Fork(k).0.ram.used[g] && Fork(k).0.ram.mem[g] == k.ram.mem[g]
  {
    hide Consistent, Fork, CreateDirectory, CopySpace, SameSpace, ReadyList, Isolated, Pids, LiveDirs, FreeCount;
    hide Separated, FreshDirectory;
    hide Preserved, Grown, LedgerClosed, SameBefore, FillsSlot, DiffersOnlyAt;
    UnpackConsistent(k, own, reserved, q);
    if k.current == NONE || FirstFree(k.table, 0) == MAX_PROCESSES {
      NoSlotNoFork(k);
    } else {
      var made, dirs, p := CreateDirectory(k.ram, k.kdir), LiveDirs(k.table), DirOf(k.table[k.current]);
      ForkFills(k);
      CreateDirectoryFresh(k.ram, own, dirs, k.kdir);
      if made.0 != 0 {
        var c, own1 := made.0, own[made.0 := Directory(made.0)];
        CreateDirectoryKeeps(k.ram, own, dirs, k.kdir);
        LiveDirOwned(k, own, reserved, k.current);
        var own' := CopySpaceKeeps(made.1, own1, dirs + {c}, p, c, 0);
        FreshWrites(k.ram, own, made.1, own1, CopySpace(made.1, p, c, 0).ram, c);
      }
    }
  }

  /** Where c's only earlier line in the ledger is its directory, everything taken before is preserved. */
  lemma FreshWrites(ram: Ram, own: map<nat, Use>, r1: Ram, own1: map<nat, Use>, r: Ram, c: nat)
    requires c !in own && own1 == own[c := Directory(c)] && c < TOTAL_FRAMES && !ram.used[c]
    requires Preserved(ram, own, r1, c) && Preserved(r1, own1, r, c)
    requires r1.used == ram.used[c := true] && DiffersOnlyAt(ram.mem, r1.mem, c)
    requires LedgerClosed(own)
    ensures forall g :: 0 <= g < TOTAL_FRAMES && ram.used[g] ==> r.used[g] && r.mem[g] == ram.mem[g]
  {
    forall g | 0 <= g < TOTAL_FRAMES && ram.used[g]
      ensures r.used[g] && r.mem[g] == ram.mem[g]
    {
      assert r1.used[g];
    }
  }
}

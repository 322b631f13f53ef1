/** Inputs at which fork and process creation report success and something is missing. All start from boot. */
module Shortages {
  import opened Machine
  import opened FramePool
  import opened PageTables
  import opened Ownership
  import opened AddingPages
  import opened Bytes
  import opened ForkCopy
  import opened ImageLoading
  import opened ImageContents
  import opened Creation
  import opened Processes
  import opened Isolation
  import opened Lifecycle
  import opened Runs
  import opened Theorems
  import opened Spawning
  import opened BitmapInMemory
  import opened KernelInMemory
  import opened ShadowRuns
  import opened ImageInMemory

  // ---- At boot ----

  lemma {:induction false} FreeAtBoot(used: Used, reserved: nat, i: nat)
    requires reserved <= i <= TOTAL_FRAMES && forall f :: reserved <= f < TOTAL_FRAMES ==> !used[f]
    ensures FreeFrom(used, i) == TOTAL_FRAMES - i
    decreases TOTAL_FRAMES - i
  {
    if i < TOTAL_FRAMES {
      FreeAtBoot(used, reserved, i + 1);
    }
  }

  lemma {:induction false} TakenAtBoot(used: Used, reserved: nat, i: nat)
    requires i <= reserved <= TOTAL_FRAMES && forall f :: 0 <= f < reserved ==> used[f]
    ensures FreeFrom(used, i) == FreeFrom(used, reserved)
    ensures reserved < TOTAL_FRAMES && !used[reserved] ==> LowestFree(used, i) == reserved
    decreases reserved - i
  {
    if i < reserved {
      TakenAtBoot(used, reserved, i + 1);
    }
  }

  /** The pool of frames at boot, and a process table without processes. */
  lemma AtBoot(mem: Memory, reserved: nat, kdir: Frame)
    requires 0 < reserved <= TOTAL_FRAMES
    ensures var k := Boot(mem, reserved, kdir);
            && Isolated(k, map[], reserved) && FreeCount(k.ram.used) == TOTAL_FRAMES - reserved
            && (reserved < TOTAL_FRAMES ==> Alloc(k.ram.used).0 == reserved)
            && FirstFree(k.table, 0) == 0 && k.ram.mem == mem && k.current == NONE && k.head == NONE
  {
    hide Isolated;
    BootConsistent(mem, reserved, kdir);
    var used := InitialPool(reserved);
    FreeAtBoot(used, reserved, reserved);
    TakenAtBoot(used, reserved, 0);
  }

  /** An image of at most one page takes three frames. */
  lemma OnePage(size: Word)
    requires 0 < size <= FRAME_SIZE
    ensures PagesNeeded(size) == 1 && CreateNeed(size) == 3 && StartsTable(0)
    ensures Di(0) == 32 && Ti(0) == 72
  {
    NeedOne(0);
  }

  // ---- A module behind the kernel ----

  lemma DirectoryStartsEmpty(ram: Ram, kdir: Frame)
    requires CreateDirectory(ram, kdir).0 != 0
    ensures Pde(CreateDirectory(ram, kdir).1.mem, CreateDirectory(ram, kdir).0, 0) == 0
  {
    hide Alloc;
  }

  /** The first page copied from the frame of the directory starts with the directory's first entry. */
  lemma CopyOfDirectory(ram: Ram, own: map<nat, Use>, dirs: set<nat>, d: nat, size: Word)
    requires LoadingAt(ram, own, dirs, d, 0) && TablesUpTo(ram.mem, d, 0) && Pde(ram.mem, d, 0) == 0
    requires 0 < size <= FRAME_SIZE && FreeCount(ram.used) >= 2
    ensures var r := LoadPage(ram, d, d * FRAME_SIZE, size, 0);
            && r.Loaded? && FrameByte(ReadFrame(r.ram.mem, FrameOf(Pte(r.ram.mem, d, Di(0), Ti(0)))), 0) == 0
  {
    hide Present, Alloc, Entry, Pde, Pte, FrameOf, FreeCount, Separated, FillPage, LoadPage, MapPage, FrameByte, ByteOf;
    hide TablesUpTo, PagesNeeded, Di, Ti, CopySize;
    OnePage(size);
    CopyStaysInModule(size, 0);
    SeparatedFrames(ram, own, dirs, d);
    AllocTakesLowest(ram.used);
    TableThere(ram, own, dirs, d, 0);
    SeparatedTables(Allocated(ram, ram.mem), own, dirs);
    LoadPageAdds(ram, d, d * FRAME_SIZE, size, 0);
    LoadPageEffect(ram, own, dirs, d, d * FRAME_SIZE, size, 0);
    var f, r := Alloc(ram.used).0, LoadPage(ram, d, d * FRAME_SIZE, size, 0).ram;
    EntryMaps(r.mem, d, 0, f);
    var m1 := MapPage(Allocated(ram, ram.mem), d, Di(0), Ti(0), Entry(f, 7)).mem;
    DirectoryFrame(ram, own, dirs, d, f);
    MapPageAt(Allocated(ram, ram.mem), own, dirs, d, Di(0), Ti(0), Entry(f, 7), d, 0, 0);
    FilledByte(m1, f, d * FRAME_SIZE, CopySize(size, 0), 0);
    FirstByte(m1, d);
  }

  lemma DirectoryFrame(ram: Ram, own: map<nat, Use>, dirs: set<nat>, d: nat, f: nat)
    requires Separated(ram, own, dirs) && d in dirs && f !in own
    ensures d < TOTAL_FRAMES && d != f
    ensures d + 1 <= f || f + 1 <= d
  {
  }

  lemma FirstByte(m: Memory, d: nat)
    requires d < TOTAL_FRAMES && Pde(m, d, 0) == 0
    ensures LoadByte(m, d * FRAME_SIZE + 0) == 0
  {
    FrameAddress(d, 0);
  }

  lemma HasFirstPage(m: Memory, m': Memory, d: nat, src: nat, size: Word)
    requires HoldsImage(m, m', d, src, size) && 0 < size <= FRAME_SIZE
    ensures FrameByte(ReadFrame(m', FrameOf(Pte(m', d, Di(0), Ti(0)))), 0) == LoadByte(m, src)
  {
    hide MapsImage, HasImagePage, FrameByte, Pte, Di, Ti, FrameOf, LoadByte, ReadFrame, PagesNeeded;
    OnePage(size);
    FirstByteOfPage(m, m', d, src, size, 0);
  }

  /** A module whose first page is in the first free frame: create_process puts the directory there, and the process
      starts with a zero where the module does not. There are frames enough, and the call reports success. */
  lemma ModuleBehindTheKernelIsLost(mem: Memory, reserved: nat, kdir: Frame, size: Word)
    requires 0 < reserved < TOTAL_FRAMES - 3 && 0 < size <= FRAME_SIZE && LoadByte(mem, reserved * FRAME_SIZE) != 0
    ensures var k := Boot(mem, reserved, kdir);
            var (k', s) := CreateProcess(k, reserved * FRAME_SIZE, size);
            && s == 0 && k'.table[0].state.Ready? && FreeCount(k.ram.used) > CreateNeed(size)
            && !HoldsImage(mem, k'.ram.mem, DirOf(k'.table[0]), reserved * FRAME_SIZE, size)
  {
    hide Isolated, FreeCount, Alloc, CreateProcess, CreateDirectory, LoadPage, MapsImage, Pte, Di, Ti, FrameByte;
    hide LoadByte, FrameOf, LoadingAt, TablesUpTo, PagesNeeded;
    var k := Boot(mem, reserved, kdir);
    AtBoot(mem, reserved, kdir);
    hide Boot;
    OnePage(size);
    CreateMapsImage(k, map[], reserved, reserved * FRAME_SIZE, size);
    CreateSucceedsShape(k, map[], reserved, reserved * FRAME_SIZE, size);
    CreateStart(k, map[], reserved);
    DirectoryStartsEmpty(k.ram, k.kdir);
    var made := CreateDirectory(k.ram, k.kdir);
    assert made.0 == reserved;
    CopyOfDirectory(made.1, map[made.0 := Directory(made.0)], LiveDirs(k.table) + {made.0}, made.0, size);
    var k' := CreateProcess(k, reserved * FRAME_SIZE, size).0;
    if HoldsImage(mem, k'.ram.mem, DirOf(k'.table[0]), reserved * FRAME_SIZE, size) {
      HasFirstPage(mem, k'.ram.mem, DirOf(k'.table[0]), reserved * FRAME_SIZE, size);
      assert false;
    }
  }

  // ---- A module over the bitmap ----

  lemma {:induction false} RoomAtBoot(used: Used, reserved: nat, n: nat)
    requires reserved <= n <= TOTAL_FRAMES && forall f :: reserved <= f < TOTAL_FRAMES ==> !used[f]
    ensures FreeBelow(used, n) >= n - reserved
    decreases n
  {
    if n > reserved {
      RoomAtBoot(used, reserved, n - 1);
    }
  }

  /** A module in the frame behind the kernel, which becomes the bitmap's: the process does not even have what is
      there when create_process is called, as the call sets the bits of the frames it takes. What the loader had put
      there is gone by then, too. */
  lemma ModuleOverTheBitmapIsLost(mem: Memory, reserved: nat, kdir: Frame, size: Word)
    requires 0 < reserved < COVERED - 3 && 4 * (reserved / 8) < size <= FRAME_SIZE
    ensures var k, src := BootIn(mem, reserved, kdir), (reserved - 1) * FRAME_SIZE;
            var (k', s) := CreateProcessIn(k, reserved - 1, src, size);
            && s == 0 && k'.table[0].state.Ready? && !HoldsImage(k.ram.mem, k'.ram.mem, DirOf(k'.table[0]), src, size)
    ensures forall w :: reserved <= 8 * w && w < FRAME_WORDS ==>
              BootIn(mem, reserved, kdir).ram.mem[reserved - 1][w] == 0
  {
    hide Isolated, FreeCount, Alloc, CreateProcessIn, HoldsImage, PagesNeeded, Agrees, MarkedBitmap, CreateNeed;
    hide CopySize, FreeBelow;
    var k, src := BootIn(mem, reserved, kdir), (reserved - 1) * FRAME_SIZE;
    AtBoot(MarkedBitmap(mem, reserved - 1, reserved), reserved, kdir);
    BitmapAtBoot(mem, reserved, kdir);
    OnePage(size);
    CopyStaysInModule(size, 0);
    FrameAddress(reserved - 1, 0);
    BitmapPageIsLost(k, map[], reserved, src, size, 0);
    forall w | reserved <= 8 * w && w < FRAME_WORDS
      ensures k.ram.mem[reserved - 1][w] == 0
    {
      InitClearsTheFrame(mem, reserved - 1, reserved, w);
    }
  }

  lemma BitmapAtBoot(mem: Memory, reserved: nat, kdir: Frame)
    requires 0 < reserved < COVERED
    ensures var k := BootIn(mem, reserved, kdir);
            Agrees(k.ram.mem, reserved - 1, k.ram.used) && FreeBelow(k.ram.used, COVERED) >= COVERED - reserved
  {
    hide Agrees, FreeBelow, MarkedBitmap;
    BootShadow(mem, reserved, kdir);
    ShadowedParts(BootIn(mem, reserved, kdir), reserved - 1, FullWords(reserved), BootIn(mem, reserved, kdir));
    RoomAtBoot(InitialPool(reserved), reserved, COVERED);
  }

  // ---- One frame short ----

  /** With two frames free, create_process makes a process without its only page. */
  lemma CreateLosesThePage(mem: Memory, kdir: Frame, src: nat, size: Word)
    requires 0 < size <= FRAME_SIZE
    ensures var (k', s) := CreateProcess(Boot(mem, TOTAL_FRAMES - 2, kdir), src, size);
            && s == 0 && k'.table[0].state.Ready? && !Present(Pte(k'.ram.mem, DirOf(k'.table[0]), Di(0), Ti(0)))
  {
    hide Isolated, FreeCount, CreateProcess, Pte, Di, Ti, Alloc, PagesNeeded, CreateDirectory, LoadPages;
    var k := Boot(mem, TOTAL_FRAMES - 2, kdir);
    AtBoot(mem, TOTAL_FRAMES - 2, kdir);
    hide Boot;
    OnePage(size);
    CreateWithTooFewFrames(k, map[], TOTAL_FRAMES - 2, src, size);
    CreateSucceedsShape(k, map[], TOTAL_FRAMES - 2, src, size);
  }

  lemma {:induction false} OnePageInTable(m: Memory, t: nat, j0: nat, j: nat)
    requires j0 < ENTRIES && j <= ENTRIES && forall x :: 0 <= x < ENTRIES ==> (Present(ReadWord(m, t, x)) <==> x == j0)
    ensures PagesIn(m, t, j) == if j <= j0 then 1 else 0
    decreases ENTRIES - j
  {
    hide Present;
    if j < ENTRIES {
      OnePageInTable(m, t, j0, j + 1);
    }
  }

  lemma {:induction false} OnePageInSpace(m: Memory, d: nat, i0: nat, i: nat)
    requires i0 < KERNEL_PDT_IDX && i <= KERNEL_PDT_IDX
    requires forall x :: 0 <= x < KERNEL_PDT_IDX ==> PagesOf(m, d, x) == if x == i0 then 1 else 0
    ensures PageCount(m, d, i) == TableCount(m, d, i) == if i <= i0 then 1 else 0
    ensures i <= i0 ==> LoneLastPage(m, d, i)
    decreases KERNEL_PDT_IDX - i
  {
    hide PagesOf;
    if i < KERNEL_PDT_IDX {
      OnePageInSpace(m, d, i0, i + 1);
    }
  }

  lemma OnlyPageOf(m: Memory, d: nat, size: Word, i: nat)
    requires MapsImage(m, d, size) && 0 < size <= FRAME_SIZE && i < KERNEL_PDT_IDX
    ensures PagesOf(m, d, i) == if i == 32 then 1 else 0
  {
    hide Present, FrameOf, PagesIn, MapsPage, PagesNeeded, Di, Ti;
    OnePage(size);
    forall j | 0 <= j < ENTRIES
      ensures Present(Pte(m, d, i, j)) <==> i == 32 && j == 72
    {
    }
    if Present(Pde(m, d, i)) {
      forall j | 0 <= j < ENTRIES
        ensures Present(ReadWord(m, FrameOf(Pde(m, d, i)), j)) == Present(Pte(m, d, i, j))
      {
      }
      if i == 32 {
        OnePageInTable(m, FrameOf(Pde(m, d, i)), 72, 0);
      } else {
        NoPageInTable(m, FrameOf(Pde(m, d, i)), 0);
      }
    } else {
      NoTableNoEntry(m, d, i, 72);
    }
  }

  lemma {:induction false} NoPageInTable(m: Memory, t: nat, j: nat)
    requires j <= ENTRIES && forall x :: 0 <= x < ENTRIES ==> !Present(ReadWord(m, t, x))
    ensures PagesIn(m, t, j) == 0
    decreases ENTRIES - j
  {
    hide Present;
    if j < ENTRIES {
      NoPageInTable(m, t, j + 1);
    }
  }

  /** The space of a one-page process needs a page and a table, and its last table holds just that page. */
  lemma OnePageSpace(m: Memory, d: nat, size: Word)
    requires MapsImage(m, d, size) && 0 < size <= FRAME_SIZE
    ensures SpaceNeed(m, d, 0) == 2 && LoneLastPage(m, d, 0)
  {
    hide MapsImage, PagesOf;
    forall i | 0 <= i < KERNEL_PDT_IDX
      ensures PagesOf(m, d, i) == if i == 32 then 1 else 0
    {
      OnlyPageOf(m, d, size, i);
    }
    OnePageInSpace(m, d, 32, 0);
  }

  lemma CreateThenSchedule(k: Kernel, src: nat, size: Word)
    ensures Run(k, [Create(src, size), DoSchedule]) == Schedule(CreateProcess(k, src, size).0)
  {
    hide CreateProcess, Schedule;
    var ops := [Create(src, size), DoSchedule];
    assert ops[1..] == [DoSchedule] && [DoSchedule][1..] == [];
  }

  lemma OneProcess(k: Kernel, src: nat, size: Word)
    requires FirstFree(k.table, 0) == 0 && CreateProcess(k, src, size).1 == 0
    requires forall s :: 0 <= s < MAX_PROCESSES ==> k.table[s].state.Free?
    ensures var (k1, k2) := (CreateProcess(k, src, size).0, Schedule(CreateProcess(k, src, size).0));
            && k2.current == 0 && k2.ram == k1.ram && DirOf(k2.table[0]) == DirOf(k1.table[0])
            && FirstFree(k2.table, 0) == 1
  {
    hide CreateProcess;
    CreateTakes(k, src, size);
  }

  /** With five frames free at boot, a one-page process that is created and dispatched and then forks gets the new
      pid, and a child that lacks the page. */
  lemma ForkLosesThePage(mem: Memory, kdir: Frame, src: nat, size: Word)
    requires 0 < size <= FRAME_SIZE
    ensures var k := Run(Boot(mem, TOTAL_FRAMES - 5, kdir), [Create(src, size), DoSchedule]);
            && k.current == 0 && Fork(k).1 == k.nextPid && Fork(k).0.table[1].state.Ready?
            && LosesFrom(k.ram.mem, Fork(k).0.ram.mem, DirOf(k.table[0]), DirOf(Fork(k).0.table[1]), 0)
  {
    hide Isolated, ReadyList, Pids, Childless, FreeCount, CreateProcess, Schedule, Fork, Run, MapsImage, PagesNeeded,
      LosesFrom;
    hide SpaceNeed, LoneLastPage, Alloc;
    var k0 := Boot(mem, TOTAL_FRAMES - 5, kdir);
    var ops := [Create(src, size), DoSchedule];
    AtBoot(mem, TOTAL_FRAMES - 5, kdir);
    BootConsistent(mem, TOTAL_FRAMES - 5, kdir);
    BootPid(mem, TOTAL_FRAMES - 5, kdir);
    BootTableFree(mem, TOTAL_FRAMES - 5, kdir);
    hide Boot;
    OnePage(size);
    CreateMapsImage(k0, map[], TOTAL_FRAMES - 5, src, size);
    CreateThenSchedule(k0, src, size);
    OneProcess(k0, src, size);
    var own, q := RunConsistent(k0, map[], TOTAL_FRAMES - 5, [], ops);
    var k := Run(k0, ops);
    OnePageSpace(k.ram.mem, DirOf(k.table[0]), size);
    ForkWithTooFewFrames(k, own, TOTAL_FRAMES - 5, q);
    CurrentIsLive(k, q);
    ForkTakes(k);
  }

  lemma BootTableFree(mem: Memory, reserved: nat, kdir: Frame)
    requires reserved <= TOTAL_FRAMES
    ensures forall s :: 0 <= s < MAX_PROCESSES ==> Boot(mem, reserved, kdir).table[s].state.Free?
  {
  }
}

/** What create_process (mem/process.c) gives the new process, and exactly when. */
module Creation {
  import opened Machine
  import opened FramePool
  import opened PageTables
  import opened Ownership
  import opened AddingPages
  import opened Directories
  import opened Translation
  import opened Bytes
  import opened ImageLoading
  import opened ImageContents
  import opened ImageOverlap
  import opened Processes
  import opened Isolation
  import opened Lifecycle

  /** The directory, the image's pages, and the tables those span. */
  function CreateNeed(size: Word): nat {
    1 + LoadNeed(0, PagesNeeded(size))
  }

  /** In numbers: the image starts at entry 72 of its first table. */
  lemma CreateNeedCounts(size: Word)
    requires 0 < size <= 0x1_0000_0000 - FRAME_SIZE
    ensures var pages := PagesNeeded(size);
            && pages == (size + FRAME_SIZE - 1) / FRAME_SIZE
            && CreateNeed(size) == 1 + pages + ((CODE_PAGE % ENTRIES + pages - 1) / ENTRIES + 1)
  {
    var pages := PagesNeeded(size);
    assert size + FRAME_SIZE - 1 < 0x1_0000_0000;
    assert pages > 0;
    LoadNeedCounts(0, pages);
    assert CODE_PAGE == ENTRIES * 32 + CODE_PAGE % ENTRIES;
  }

  lemma CreateStart(k: Kernel, own: map<nat, Use>, reserved: nat)
    requires Isolated(k, own, reserved) && CreateDirectory(k.ram, k.kdir).0 != 0
    ensures var made := CreateDirectory(k.ram, k.kdir);
            var own1 := own[made.0 := Directory(made.0)];
            && LoadingAt(made.1, own1, LiveDirs(k.table) + {made.0}, made.0, 0) && TablesUpTo(made.1.mem, made.0, 0)
            && FreeCount(made.1.used) == FreeCount(k.ram.used) - 1
            && made.0 == NthTaken(k.ram.used, 0) && made.1.used == Taking(k.ram.used, 1)
  {
    hide LiveDirs, Pde, Pte, Present, Separated, SharesKernelHalf, DistinctDirs, Reserves, Alloc;
    var made := CreateDirectory(k.ram, k.kdir);
    assert made.0 == NthTaken(k.ram.used, 0) && made.1.used == Taking(k.ram.used, 1);
    hide CreateDirectory;
    CreateDirectoryFresh(k.ram, own, LiveDirs(k.table), k.kdir);
    CreateDirectoryKeeps(k.ram, own, LiveDirs(k.table), k.kdir);
    FreeAtMost(made.1.used, 0);
  }

  lemma CreateSucceedsShape(k: Kernel, own: map<nat, Use>, reserved: nat, src: nat, size: Word)
    requires Isolated(k, own, reserved) && FirstFree(k.table, 0) < MAX_PROCESSES
    ensures CreateDirectory(k.ram, k.kdir).0 == 0 <==> FreeCount(k.ram.used) == 0
    ensures CreateDirectory(k.ram, k.kdir).0 == 0 ==> CreateProcess(k, src, size).1 == NONE
    ensures CreateDirectory(k.ram, k.kdir).0 != 0 ==>
              var (slot, (k', s), made) := (FirstFree(k.table, 0), CreateProcess(k, src, size),
                CreateDirectory(k.ram, k.kdir));
              var loading := LoadPages(made.1, made.0, src, size, 0);
              && k'.ram == loading.ram && s == (if loading.Loaded? then slot else NONE)
              && (loading.Loaded? ==> k'.table[slot].state.Ready? && DirOf(k'.table[slot]) == made.0)
  {
    hide CreateDirectory, LoadPages, CreateProcess, Separated, FreeCount, LiveDirs;
    CreateFills(k, src, size);
    CreateTakes(k, src, size);
    CreateDirectoryFresh(k.ram, own, LiveDirs(k.table), k.kdir);
    if CreateDirectory(k.ram, k.kdir).0 != 0 {
      CreateShape(k, src, size);
    }
  }

  lemma CreateShape(k: Kernel, src: nat, size: Word)
    requires FirstFree(k.table, 0) < MAX_PROCESSES && CreateDirectory(k.ram, k.kdir).0 != 0
    ensures var made := CreateDirectory(k.ram, k.kdir);
            CreateProcess(k, src, size).1 == if LoadPages(made.1, made.0, src, size, 0).Loaded? then
              FirstFree(k.table, 0) else NONE
  {
    hide CreateDirectory, LoadPages, StackFill, PushFrame;
  }

  // ---- The pages mapped ----

  /** Exactly the first pages of the code area are mapped, for the user to read and write. */
  ghost predicate MapsImage(m: Memory, d: nat, size: Word) {
    && (forall n :: 0 <= n < PagesNeeded(size) ==> MapsPage(m, d, n))
    && (forall i, j {:trigger Pte(m, d, i, j)} | 0 <= i < KERNEL_PDT_IDX && 0 <= j < ENTRIES ::
          Present(Pte(m, d, i, j)) <==> CODE_PAGE <= i * ENTRIES + j < CODE_PAGE + PagesNeeded(size))
  }

  /** With a free slot and frames for everything, the process is made at exactly that cost, with exactly the
      image's pages mapped, wherever the module lies. */
  lemma CreateMapsImage(k: Kernel, own: map<nat, Use>, reserved: nat, src: nat, size: Word)
    requires Isolated(k, own, reserved) && FirstFree(k.table, 0) < MAX_PROCESSES
    requires FreeCount(k.ram.used) >= CreateNeed(size)
    ensures var (slot, (k', s)) := (FirstFree(k.table, 0), CreateProcess(k, src, size));
            && s == slot && k'.table[slot].state.Ready?
            && FreeCount(k'.ram.used) == FreeCount(k.ram.used) - CreateNeed(size)
            && MapsImage(k'.ram.mem, DirOf(k'.table[slot]), size)
  {
    hide LiveDirs, Pde, Separated, Isolated, CreateDirectory, LoadPages, CreateProcess, FreeCount, MapsImage, MapsPage;
    hide LoadNeed, TablesUpTo;
    CreateSucceedsShape(k, own, reserved, src, size);
    var made := CreateDirectory(k.ram, k.kdir);
    var own1, dirs := own[made.0 := Directory(made.0)], LiveDirs(k.table) + {made.0};
    CreateStart(k, own, reserved);
    LoadPagesMaps(made.1, own1, dirs, made.0, src, size, 0);
    var own' := LoadPagesKeeps(made.1, own1, dirs, made.0, src, size, 0);
    IsolatedSeparated(k, own, reserved);
    CreateDirectoryFresh(k.ram, own, LiveDirs(k.table), k.kdir);
    ImageAndNothingElse(made.1.mem, LoadPages(made.1, made.0, src, size, 0).ram.mem, made.0, k.kdir, size);
  }

  lemma ImageAndNothingElse(m1: Memory, m': Memory, d: nat, kdir: Frame, size: Word)
    requires FreshDirectory(m1, d, kdir) && SameOutside(m1, m', d, 0, PagesNeeded(size))
    requires forall n :: 0 <= n < PagesNeeded(size) ==> MapsPage(m', d, n)
    ensures MapsImage(m', d, size)
  {
    hide Pde, Pte, Present, PagesNeeded, Di, Ti, FrameOf, FlagsOf;
    forall i, j {:trigger Pte(m', d, i, j)} | 0 <= i < KERNEL_PDT_IDX && 0 <= j < ENTRIES
      ensures Present(Pte(m', d, i, j)) <==> CODE_PAGE <= i * ENTRIES + j < CODE_PAGE + PagesNeeded(size)
    {
      if CODE_PAGE <= i * ENTRIES + j < CODE_PAGE + PagesNeeded(size) {
        var n := i * ENTRIES + j - CODE_PAGE;
        SamePosition(n, i, j);
        assert MapsPage(m', d, n);
      } else {
        NoTableNoEntry(m1, d, i, j);
        assert Pte(m', d, i, j) == Pte(m1, d, i, j);
      }
    }
  }

  // ---- What they hold ----

  /** Allocation j of the call -- the directory is number 0 -- comes before page m is copied. */
  predicate TakenBefore(src: nat, m: nat, j: nat) {
    j == 0 || Precedes(src, 0, m, j - 1)
  }

  /** No page of the module is in a frame that the call takes before it copies that page, except the frame it
      copies it to when the module is page-aligned. */
  ghost predicate ModuleSafe(used: Used, src: nat, size: Word) {
    forall m, g, j {:trigger SourceIn(src, size, m, g), NthTaken(used, j)} ::
      0 <= m < PagesNeeded(size) && 0 <= g && 0 <= j && SourceIn(src, size, m, g) && TakenBefore(src, m, j) ==>
        NthTaken(used, j) != g
  }

  /** Every frame of the module is taken already, or has as many free frames below it as the call takes. */
  ghost predicate OutOfReach(used: Used, src: nat, size: Word) {
    forall m, g {:trigger SourceIn(src, size, m, g)} ::
      0 <= m < PagesNeeded(size) && 0 <= g < TOTAL_FRAMES && SourceIn(src, size, m, g) ==>
        used[g] || FreeBelow(used, g) >= CreateNeed(size)
  }

  lemma TakenInTime(src: nat, size: Word, m: nat, j: nat)
    requires m < PagesNeeded(size) && TakenBefore(src, m, j)
    ensures j < CreateNeed(size)
  {
    hide PagesNeeded;
    NeedSplits(0, m + 1, PagesNeeded(size));
  }

  /** A module out of reach is safe, the frame of the bitmap left aside. */
  lemma OutOfReachIsSafe(used: Used, src: nat, size: Word)
    requires used[0] && FreeCount(used) >= CreateNeed(size) && OutOfReach(used, src, size)
    ensures ModuleSafe(used, src, size)
  {
    hide PagesNeeded, SourceIn, TakenBefore, FreeCount, CreateNeed, FreeBelow, NthTaken;
    forall m, g, j {:trigger SourceIn(src, size, m, g), NthTaken(used, j)} |
      0 <= m < PagesNeeded(size) && 0 <= g && 0 <= j && SourceIn(src, size, m, g) && TakenBefore(src, m, j)
      ensures NthTaken(used, j) != g
    {
      TakenInTime(src, size, m, j);
      NthTakenIs(used, j);
    }
  }

  /** Exactly the image's pages are mapped, to the module's bytes followed by zeros. */
  ghost predicate HoldsImage(m: Memory, m': Memory, d: nat, src: nat, size: Word) {
    && MapsImage(m', d, size)
    && (forall n :: 0 <= n < PagesNeeded(size) ==> HasImagePage(m, m', d, src, size, n))
  }

  lemma SafeAfterDirectory(used: Used, src: nat, size: Word)
    requires ModuleSafe(used, src, size)
    ensures SourcesSafe(Taking(used, 1), src, size, 0)
    ensures forall m, g {:trigger SourceIn(src, size, m, g)} ::
              0 <= m < PagesNeeded(size) && 0 <= g && SourceIn(src, size, m, g) ==> g != NthTaken(used, 0)
  {
    hide PagesNeeded, SourceIn, NthTaken, Precedes;
    forall m, g, j {:trigger SourceIn(src, size, m, g), NthTaken(Taking(used, 1), j)} |
      0 <= m < PagesNeeded(size) && 0 <= g && 0 <= j && SourceIn(src, size, m, g) && Precedes(src, 0, m, j)
      ensures NthTaken(Taking(used, 1), j) != g
    {
      NthAfter(used, 1, j);
      assert TakenBefore(src, m, j + 1);
    }
    assert forall m :: 0 <= m ==> TakenBefore(src, m, 0);
  }

  lemma CreateSafely(k: Kernel, own: map<nat, Use>, reserved: nat, src: nat, size: Word)
    requires Isolated(k, own, reserved) && ModuleSafe(k.ram.used, src, size) && src + size <= MEMORY_SIZE
    requires FreeCount(k.ram.used) >= CreateNeed(size)
    ensures CreateDirectory(k.ram, k.kdir).0 != 0
    ensures var made := CreateDirectory(k.ram, k.kdir);
            && LoadingSafely(made.1, own[made.0 := Directory(made.0)], LiveDirs(k.table) + {made.0}, made.0,
                 src, size, 0)
            && forall n, a {:trigger CopySize(size, n), LoadByte(made.1.mem, a)} ::
                 0 <= n < PagesNeeded(size) && src + n * FRAME_SIZE <= a < src + n * FRAME_SIZE + CopySize(size, n) ==>
                   LoadByte(made.1.mem, a) == LoadByte(k.ram.mem, a)
  {
    hide LiveDirs, Pde, Pte, Present, Separated, SharesKernelHalf, DistinctDirs, Reserves, Alloc, CreateDirectory,
      FreeCount;
    hide PagesNeeded, SourceIn, NthTaken, ModuleSafe, SourcesSafe, LoadByte, CopySize, TablesUpTo, LoadNeed;
    IsolatedSeparated(k, own, reserved);
    CreateDirectoryFresh(k.ram, own, LiveDirs(k.table), k.kdir);
    CreateStart(k, own, reserved);
    SafeAfterDirectory(k.ram.used, src, size);
    var made := CreateDirectory(k.ram, k.kdir);
    NewForeign(k, own, reserved, src, size);
    forall n, a | 0 <= n < PagesNeeded(size) && src + n * FRAME_SIZE <= a < src + n * FRAME_SIZE + CopySize(size, n)
      ensures LoadByte(made.1.mem, a) == LoadByte(k.ram.mem, a)
    {
      ByteSource(src, size, n, a);
      SourceInModule(src, size, n);
      SameByteOfFrame(k.ram.mem, made.1.mem, a);
    }
  }

  lemma NewForeign(k: Kernel, own: map<nat, Use>, reserved: nat, src: nat, size: Word)
    requires Isolated(k, own, reserved) && ModuleSafe(k.ram.used, src, size) && CreateDirectory(k.ram, k.kdir).0 != 0
    ensures var d := CreateDirectory(k.ram, k.kdir).0; SourcesForeign(own[d := Directory(d)], d, src, size, 0)
  {
    hide LiveDirs, Pde, Pte, Present, Separated, SharesKernelHalf, DistinctDirs, Reserves, Alloc, CreateDirectory,
      FreeCount;
    hide PagesNeeded, SourceIn, NthTaken, ModuleSafe;
    IsolatedSeparated(k, own, reserved);
    CreateDirectoryFresh(k.ram, own, LiveDirs(k.table), k.kdir);
    CreateStart(k, own, reserved);
    SafeAfterDirectory(k.ram.used, src, size);
  }

  /** With a free slot, frames for everything and a safe module, the new process has the module's bytes, as they
      were before the call, from USER_CODE_START on, and zeros up to the end of the last page. Here, as in all of this
      module, the bitmap is apart from memory; ImageInMemory says what changes when it is not. */
  lemma CreateLoadsImage(k: Kernel, own: map<nat, Use>, reserved: nat, src: nat, size: Word)
    requires Isolated(k, own, reserved) && FirstFree(k.table, 0) < MAX_PROCESSES
    requires FreeCount(k.ram.used) >= CreateNeed(size)
    requires src + size <= MEMORY_SIZE && ModuleSafe(k.ram.used, src, size)
    ensures var (slot, (k', s)) := (FirstFree(k.table, 0), CreateProcess(k, src, size));
            && s == slot && k'.table[slot].state.Ready?
            && FreeCount(k'.ram.used) == FreeCount(k.ram.used) - CreateNeed(size)
            && HoldsImage(k.ram.mem, k'.ram.mem, DirOf(k'.table[slot]), src, size)
  {
    hide LiveDirs, Pde, Separated, Isolated, CreateDirectory, LoadPages, CreateProcess, FreeCount, MapsImage;
    hide LoadNeed, ModuleSafe, TablesUpTo, LoadByte, HasImagePage, CopySize, SourcesSafe, SourcesForeign, PagesNeeded;
    CreateMapsImage(k, own, reserved, src, size);
    CreateSucceedsShape(k, own, reserved, src, size);
    CreateSafely(k, own, reserved, src, size);
    var made := CreateDirectory(k.ram, k.kdir);
    var own1, dirs := own[made.0 := Directory(made.0)], LiveDirs(k.table) + {made.0};
    LoadPagesImage(made.1, own1, dirs, made.0, src, size, 0);
    var r := LoadPages(made.1, made.0, src, size, 0).ram;
    forall n | 0 <= n < PagesNeeded(size)
      ensures HasImagePage(k.ram.mem, r.mem, made.0, src, size, n)
    {
      ImagePageFrom(k.ram.mem, made.1.mem, r.mem, made.0, src, size, n);
    }
  }

  /** Seen through its own page tables, the new process finds its image at USER_CODE_START. */
  lemma ImageReadsBack(m: Memory, m': Memory, d: nat, src: nat, size: Word, x: nat)
    requires HoldsImage(m, m', d, src, size) && x < PagesNeeded(size) * FRAME_SIZE && x < MEMORY_SIZE
    ensures LoadByte(m', GetPhysicalAddress(m', d, 0x0804_8000 + x)) == if x < size then LoadByte(m, src + x) else 0
  {
    hide Present, LoadByte, FrameByte, Pte, Pde, PagesNeeded, Di, Ti, FrameOf, DirIndex, TabIndex, Offset;
    var n, k := x / FRAME_SIZE, x % FRAME_SIZE;
    assert HasImagePage(m, m', d, src, size, n);
    PagePosition(n);
    ImageAddress(x);
    TranslatesPresent(m', d, USER_CODE_START + x);
    var f := FrameOf(Pte(m', d, Di(n), Ti(n)));
    ByteInFrame(m', f, k);
    assert ReadFrame(m', f) == m'[f];
    assert FrameByte(ReadFrame(m', f), k) == if n * FRAME_SIZE + k < size then
             LoadByte(m, src + (n * FRAME_SIZE + k)) else 0;
    assert x == n * FRAME_SIZE + k;
  }

  lemma ImageAddress(x: nat)
    requires x < MEMORY_SIZE
    ensures var v, n := USER_CODE_START + x, x / FRAME_SIZE;
            DirIndex(v) == DirIndex(PageAddress(n)) && TabIndex(v) == TabIndex(PageAddress(n))
              && Offset(v) == x % FRAME_SIZE
  {
    var v, n, k := USER_CODE_START + x, x / FRAME_SIZE, x % FRAME_SIZE;
    assert PageAddress(n) == (CODE_PAGE + n) * FRAME_SIZE && v == (CODE_PAGE + n) * FRAME_SIZE + k;
    assert v / 0x1000 == CODE_PAGE + n && PageAddress(n) / 0x1000 == CODE_PAGE + n;
    DirFromPage(v);
    DirFromPage(PageAddress(n));
  }

  lemma TranslatesPresent(m: Memory, d: nat, v: Word)
    requires Present(Pte(m, d, DirIndex(v), TabIndex(v))) && FrameOf(Pte(m, d, DirIndex(v), TabIndex(v))) < TOTAL_FRAMES
    ensures GetPhysicalAddress(m, d, v) == FrameOf(Pte(m, d, DirIndex(v), TabIndex(v))) * FRAME_SIZE + Offset(v)
  {
    NoTableNoEntry(m, d, DirIndex(v), TabIndex(v));
  }

  /** With fewer frames creation fails, except one frame short when the last page starts a table: then the
      process is made without that page. */
  lemma CreateWithTooFewFrames(k: Kernel, own: map<nat, Use>, reserved: nat, src: nat, size: Word)
    requires Isolated(k, own, reserved) && FirstFree(k.table, 0) < MAX_PROCESSES
    requires FreeCount(k.ram.used) < CreateNeed(size)
    ensures var (slot, (k', s), last) := (FirstFree(k.table, 0), CreateProcess(k, src, size), PagesNeeded(size) - 1);
            && (s == slot <==> last >= 0 && FreeCount(k.ram.used) == CreateNeed(size) - 1 && StartsTable(last))
            && (s != slot ==> s == NONE)
            && (s == slot ==> !Present(Pte(k'.ram.mem, DirOf(k'.table[slot]), Di(last), Ti(last))))
  {
    hide LiveDirs, Pde, Pte, Present, Separated, Isolated, CreateDirectory, LoadPages, CreateProcess, FreeCount;
    hide PagesNeeded, TablesUpTo, StartsTable, Di, Ti;
    CreateSucceedsShape(k, own, reserved, src, size);
    var made := CreateDirectory(k.ram, k.kdir);
    if made.0 != 0 {
      CreateStart(k, own, reserved);
      LoadPagesShort(made.1, own[made.0 := Directory(made.0)], LiveDirs(k.table) + {made.0}, made.0, src, size, 0);
    }
  }

  /** create_kernel_process succeeds exactly when a slot and a frame are free; it takes that one frame, and its
      process has no user page. */
  lemma KernelProcessIff(k: Kernel, own: map<nat, Use>, reserved: nat, entry: Word, idle: Word)
    requires Isolated(k, own, reserved)
    ensures var (slot, (k', s)) := (FirstFree(k.table, 0), CreateKernelProcess(k, entry, idle));
            && (s != NONE <==> slot < MAX_PROCESSES && FreeCount(k.ram.used) > 0)
            && (s != NONE ==>
                  && s == slot && k'.table[slot].state.Ready? && FreeCount(k'.ram.used) == FreeCount(k.ram.used) - 1
                  && forall i, j :: 0 <= i < 768 && 0 <= j < 1024 ==>
                       !Present(Pte(k'.ram.mem, DirOf(k'.table[slot]), i, j)))
  {
    hide LiveDirs, Pde, Pte, Present, Separated, Isolated, CreateDirectory, CreateKernelProcess, FreeCount;
    IsolatedSeparated(k, own, reserved);
    CreateKernelTakes(k, entry, idle);
    if FirstFree(k.table, 0) < MAX_PROCESSES {
      CreateKernelFills(k, entry, idle);
      KernelProcessReady(k, entry, idle);
      CreateDirectoryFresh(k.ram, own, LiveDirs(k.table), k.kdir);
      var made := CreateDirectory(k.ram, k.kdir);
      if made.0 != 0 {
        forall i, j | 0 <= i < 768 && 0 <= j < 1024
          ensures !Present(Pte(made.1.mem, made.0, i, j))
        {
          NoTableNoEntry(made.1.mem, made.0, i, j);
        }
      }
    }
  }

  lemma KernelProcessReady(k: Kernel, entry: Word, idle: Word)
    requires FirstFree(k.table, 0) < MAX_PROCESSES
    ensures CreateKernelProcess(k, entry, idle).0.table[FirstFree(k.table, 0)].state.Ready? <==>
              CreateDirectory(k.ram, k.kdir).0 != 0
  {
    hide CreateDirectory, StackFill;
  }

  // ---- Exactly when ----

  ghost predicate AgreesOnTaken(ram: Ram, m: Memory) {
    forall g {:trigger ram.used[g]} :: 0 <= g < TOTAL_FRAMES && ram.used[g] ==> m[g] == ram.mem[g]
  }

  lemma IsolatedWithMemory(k: Kernel, own: map<nat, Use>, reserved: nat, m: Memory)
    requires Isolated(k, own, reserved) && AgreesOnTaken(k.ram, m)
    ensures Isolated(WithMemory(k, m), own, reserved)
  {
    hide LiveDirs, PagesApart, TableApart, Pde;
    IsolatedSeparated(k, own, reserved);
    forall g | g in own && g < TOTAL_FRAMES && !own[g].Page?
      ensures m[g] == k.ram.mem[g]
    {
      SeparatedFrames(k.ram, own, LiveDirs(k.table), g);
    }
    SameTablesKeep(k.ram, own, LiveDirs(k.table), Ram(m, k.ram.used));
    forall d, i {:trigger Pde(m, d, i)} | d in LiveDirs(k.table) && KERNEL_PDT_IDX <= i < ENTRIES
      ensures Pde(m, d, i) == k.kdir[i]
    {
      SameTables(k.ram, own, LiveDirs(k.table), m, d, i, 0);
    }
  }

  /** Whether the image is right when memory holds m before the call. */
  ghost predicate LoadsWith(k: Kernel, m: Memory, src: nat, size: Word)
    requires FirstFree(k.table, 0) < MAX_PROCESSES
  {
    var k' := CreateProcess(WithMemory(k, m), src, size).0;
    HoldsImage(m, k'.ram.mem, DirOf(k'.table[FirstFree(k.table, 0)]), src, size)
  }

  /** What the call leaves in memory does not depend on a frame it takes before it copies the page that lies there. */
  lemma CreateInStep(k: Kernel, own: map<nat, Use>, reserved: nat, src: nat, size: Word, m: nat, j: nat, m1: Memory,
    m2: Memory)
    requires Isolated(k, own, reserved) && FirstFree(k.table, 0) < MAX_PROCESSES && src % FRAME_SIZE == 0
    requires FreeCount(k.ram.used) >= CreateNeed(size) && m < PagesNeeded(size)
    requires TakenBefore(src, m, j) && NthTaken(k.ram.used, j) == src / FRAME_SIZE + m
    requires AgreesOnTaken(k.ram, m1) && AgreesOnTaken(k.ram, m2) && DiffersOnlyAt(m1, m2, src / FRAME_SIZE + m)
    ensures var (k1, k2) := (CreateProcess(WithMemory(k, m1), src, size).0,
              CreateProcess(WithMemory(k, m2), src, size).0);
            && k1.ram == k2.ram
            && DirOf(k1.table[FirstFree(k.table, 0)]) == DirOf(k2.table[FirstFree(k.table, 0)])
  {
    hide LiveDirs, Pde, Separated, Isolated, CreateDirectory, LoadPages, CreateProcess, FreeCount, CreateNeed,
      AgreesOnTaken;
    hide LoadNeed, TablesUpTo, PagesNeeded, Precedes, DiffersOnlyAt, NthTaken, MapsImage;
    IsolatedWithMemory(k, own, reserved, m1);
    IsolatedWithMemory(k, own, reserved, m2);
    var (k1, k2) := (WithMemory(k, m1), WithMemory(k, m2));
    CreateSucceedsShape(k1, own, reserved, src, size);
    CreateSucceedsShape(k2, own, reserved, src, size);
    CreateMapsImage(k1, own, reserved, src, size);
    CreateMapsImage(k2, own, reserved, src, size);
    LoadsInStep(k1, k2, own, reserved, src, size, m, j);
  }

  lemma LoadsInStep(k1: Kernel, k2: Kernel, own: map<nat, Use>, reserved: nat, src: nat, size: Word, m: nat, j: nat)
    requires Isolated(k1, own, reserved) && CreateDirectory(k1.ram, k1.kdir).0 != 0 && src % FRAME_SIZE == 0
    requires k2.kdir == k1.kdir && k2.ram.used == k1.ram.used
    requires FreeCount(k1.ram.used) >= CreateNeed(size) && m < PagesNeeded(size)
    requires TakenBefore(src, m, j) && NthTaken(k1.ram.used, j) == src / FRAME_SIZE + m
    requires DiffersOnlyAt(k1.ram.mem, k2.ram.mem, src / FRAME_SIZE + m)
    ensures var (made1, made2) := (CreateDirectory(k1.ram, k1.kdir), CreateDirectory(k2.ram, k2.kdir));
            && made1.0 == made2.0
            && LoadPages(made1.1, made1.0, src, size, 0) == LoadPages(made2.1, made2.0, src, size, 0)
  {
    hide LiveDirs, Separated, Isolated, CreateDirectory, LoadPages, FreeCount, CreateNeed, InStep;
    hide LoadNeed, TablesUpTo, PagesNeeded, Precedes, DiffersOnlyAt, NthTaken;
    CreateNeedPositive(size);
    CreateStart(k1, own, reserved);
    DirectoriesInStep(k1.ram, k2.ram, k1.kdir, src / FRAME_SIZE + m);
    var (made1, made2) := (CreateDirectory(k1.ram, k1.kdir), CreateDirectory(k2.ram, k2.kdir));
    if j > 0 {
      NthAfter(k1.ram.used, 1, j - 1);
      LoadPagesInStep(made1.1, made2.1, own[made1.0 := Directory(made1.0)], LiveDirs(k1.table) + {made1.0}, made1.0,
                      src, size, 0, m, j - 1);
    }
  }

  lemma CreateNeedPositive(size: Word)
    ensures CreateNeed(size) == 1 + LoadNeed(0, PagesNeeded(size))
  {
  }

  lemma DirectoriesInStep(r1: Ram, r2: Ram, kdir: Frame, g: nat)
    requires r1.used == r2.used && DiffersOnlyAt(r1.mem, r2.mem, g)
    ensures var (made1, made2) := (CreateDirectory(r1, kdir), CreateDirectory(r2, kdir));
            && made1.0 == made2.0 && InStep(made1.1, made2.1, g) && (made1.0 == g != 0 ==> made1.1 == made2.1)
  {
    hide Alloc;
  }

  lemma AlignedSourceIs(src: nat, size: Word, m: nat, g: nat)
    requires src % FRAME_SIZE == 0 && m < PagesNeeded(size) && SourceIn(src, size, m, g)
    ensures g == src / FRAME_SIZE + m
  {
    hide PagesNeeded;
    CopyStaysInModule(size, m);
    AlignedSource(src, m, g, CopySize(size, m));
    assert src == FRAME_SIZE * (src / FRAME_SIZE);
  }

  lemma FirstByteOfPage(m: Memory, m': Memory, d: nat, src: nat, size: Word, n: nat)
    requires HasImagePage(m, m', d, src, size, n) && n * FRAME_SIZE < size
    ensures FrameByte(ReadFrame(m', FrameOf(Pte(m', d, Di(n), Ti(n)))), 0) == LoadByte(m, src + n * FRAME_SIZE)
  {
    hide MapsPage, FrameByte, Pte, Di, Ti, FrameOf, LoadByte, ReadFrame;
    var at := n * FRAME_SIZE;
    assert at + 0 == at;
  }

  lemma FirstByteOfFrame(m: Memory, f: nat)
    requires f < TOTAL_FRAMES
    ensures LoadByte(m, f * FRAME_SIZE) == ByteOf(m[f][0], 0)
  {
    hide LoadByte, ByteOf;
    ByteInFrame(m, f, 0);
  }

  lemma PageFrame(src: nat, n: nat)
    requires src % FRAME_SIZE == 0
    ensures src + n * FRAME_SIZE == (src / FRAME_SIZE + n) * FRAME_SIZE
  {
    assert src == FRAME_SIZE * (src / FRAME_SIZE);
  }

  lemma FirstImageByte(m: Memory, m': Memory, d: nat, src: nat, size: Word, n: nat)
    requires n < PagesNeeded(size) && HoldsImage(m, m', d, src, size) && src % FRAME_SIZE == 0
    requires src / FRAME_SIZE + n < TOTAL_FRAMES
    ensures FrameByte(ReadFrame(m', FrameOf(Pte(m', d, Di(n), Ti(n)))), 0) == ByteOf(m[src / FRAME_SIZE + n][0], 0)
  {
    hide MapsImage, HasImagePage, FrameByte, Pte, Di, Ti, FrameOf, PagesNeeded, ByteOf, LoadByte, CopySize, ReadFrame;
    CopyStaysInModule(size, n);
    FirstByteOfPage(m, m', d, src, size, n);
    PageFrame(src, n);
    FirstByteOfFrame(m, src / FRAME_SIZE + n);
  }

  /** One of two contents of the frame is lost. */
  lemma UnsafeModuleIsLost(k: Kernel, own: map<nat, Use>, reserved: nat, src: nat, size: Word, m: nat, j: nat)
    requires Isolated(k, own, reserved) && FirstFree(k.table, 0) < MAX_PROCESSES && src % FRAME_SIZE == 0
    requires FreeCount(k.ram.used) >= CreateNeed(size) && m < PagesNeeded(size)
    requires TakenBefore(src, m, j) && NthTaken(k.ram.used, j) == src / FRAME_SIZE + m
    ensures exists x :: AgreesOnTaken(k.ram, x) && !LoadsWith(k, x, src, size)
  {
    hide LiveDirs, Pde, Separated, Isolated, CreateDirectory, LoadPages, CreateProcess, FreeCount, CreateNeed,
      HoldsImage;
    hide LoadNeed, TablesUpTo, PagesNeeded, Precedes, NthTaken, MapsImage, TakenBefore, FrameByte, Pte, FrameOf,
      ByteOf, Di, Ti;
    IsolatedSeparated(k, own, reserved);
    SeparatedFrames(k.ram, own, LiveDirs(k.table), 0);
    TakenInTime(src, size, m, j);
    NthTakenIs(k.ram.used, j);
    var g := src / FRAME_SIZE + m;
    var m1: Memory, m2: Memory := k.ram.mem[g := ZeroFrame()], k.ram.mem[g := ZeroFrame()[0 := 1]];
    assert AgreesOnTaken(k.ram, m1) && AgreesOnTaken(k.ram, m2);
    hide AgreesOnTaken;
    CreateInStep(k, own, reserved, src, size, m, j, m1, m2);
    var (k1, k2) := (CreateProcess(WithMemory(k, m1), src, size).0, CreateProcess(WithMemory(k, m2), src, size).0);
    var d := DirOf(k1.table[FirstFree(k.table, 0)]);
    if LoadsWith(k, m1, src, size) && LoadsWith(k, m2, src, size) {
      FirstImageByte(m1, k1.ram.mem, d, src, size, m);
      FirstImageByte(m2, k2.ram.mem, d, src, size, m);
      LowByteOfOne();
      assert false;
    }
  }

  lemma LowByteOfOne()
    ensures ByteOf(0, 0) == 0 && ByteOf(1, 0) == 1
  {
  }

  /** With the bitmap apart from memory, a page-aligned module is loaded right, whatever the free frames hold, if and
      only if none of its pages lies in the frame taken for the directory, for a page before it, or for a table made
      up to it. */
  lemma LoadsForAllContentsIff(k: Kernel, own: map<nat, Use>, reserved: nat, src: nat, size: Word)
    requires Isolated(k, own, reserved) && FirstFree(k.table, 0) < MAX_PROCESSES
    requires FreeCount(k.ram.used) >= CreateNeed(size) && src % FRAME_SIZE == 0 && src + size <= MEMORY_SIZE
    ensures (forall m :: AgreesOnTaken(k.ram, m) ==> LoadsWith(k, m, src, size)) <==> ModuleSafe(k.ram.used, src, size)
  {
    hide Isolated, CreateProcess, FreeCount, CreateNeed, HoldsImage, PagesNeeded, NthTaken, TakenBefore, SourceIn;
    if ModuleSafe(k.ram.used, src, size) {
      forall m | AgreesOnTaken(k.ram, m)
        ensures LoadsWith(k, m, src, size)
      {
        IsolatedWithMemory(k, own, reserved, m);
        CreateLoadsImage(WithMemory(k, m), own, reserved, src, size);
      }
    } else {
      var m, g, j :| 0 <= m < PagesNeeded(size) && 0 <= g && 0 <= j && SourceIn(src, size, m, g)
        && TakenBefore(src, m, j)
                     && NthTaken(k.ram.used, j) == g;
      AlignedSourceIs(src, size, m, g);
      UnsafeModuleIsLost(k, own, reserved, src, size, m, j);
    }
  }
}

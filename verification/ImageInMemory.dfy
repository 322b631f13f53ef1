/** What create_process gives the new process when the bitmap is in memory, and exactly when. Besides the frames it
    takes, the call writes the bitmap itself: in the reserved frame, the words from that of the first free frame on. */
module ImageInMemory {
  import opened Machine
  import opened Bytes
  import opened FramePool
  import opened PageTables
  import opened Ownership
  import opened AddingPages
  import opened ImageLoading
  import opened ImageContents
  import opened ImageOverlap
  import opened Processes
  import opened Isolation
  import opened Creation
  import opened BitmapInMemory
  import opened KernelInMemory
  import opened BitmapShadow
  import opened ShadowSpaces
  import opened ShadowRuns

  /** No byte of the module lies in frame base from the word with the bit of the first free frame on. */
  ghost predicate BitmapApart(used: Used, src: nat, size: Word, base: nat) {
    PagesAvoid(src, size, 0, base, Alloc(used).0 / 8)
  }

  // ---- Where the bitmap is no obstacle ----

  /** The state before the call, its bitmap in frame reserved - 1 and room for the call among the frames whose bits
      are there. */
  ghost predicate ReadyToCreate(k: Kernel, own: map<nat, Use>, reserved: nat, src: nat, size: Word) {
    && Isolated(k, own, reserved) && Agrees(k.ram.mem, reserved - 1, k.ram.used)
    && FirstFree(k.table, 0) < MAX_PROCESSES && FreeBelow(k.ram.used, COVERED) >= CreateNeed(size)
    && src + size <= MEMORY_SIZE
  }

  lemma ReadyCounts(k: Kernel, own: map<nat, Use>, reserved: nat, src: nat, size: Word)
    requires ReadyToCreate(k, own, reserved, src, size)
    ensures FreeCount(k.ram.used) >= CreateNeed(size) && 0 < reserved <= TOTAL_FRAMES
    ensures reserved - 1 !in own && k.ram.used[reserved - 1] && k.ram.used[0]
  {
    hide Separated, LiveDirs, Agrees, FreeCount, CreateNeed, FreeBelow;
    BelowAtMost(k.ram.used, COVERED);
    assert k.ram.used[reserved - 1] && k.ram.used[0];
  }

  lemma CreateCovered(k: Kernel, own: map<nat, Use>, reserved: nat, src: nat, size: Word)
    requires ReadyToCreate(k, own, reserved, src, size)
    ensures CreationCovered(k, src, size) && CoveredFree(k.ram.used)
  {
    hide LiveDirs, Separated, Isolated, CreateDirectory, FreeCount, Agrees, LoadNeed, LoadingCovered;
    hide TablesUpTo, CoveredFree, FreeBelow, PagesNeeded, Alloc;
    ReadyCounts(k, own, reserved, src, size);
    SomeCovered(k.ram.used);
    CoveredMakes(k.ram, k.kdir);
    CreateStart(k, own, reserved);
    var made := CreateDirectory(k.ram, k.kdir);
    MadePool(k.ram, k.kdir, size);
    EnoughCovers(made.1, own[made.0 := Directory(made.0)], LiveDirs(k.table) + {made.0}, made.0, src, size, 0);
  }

  lemma AlikeItself(k: Kernel, own: map<nat, Use>, reserved: nat, kept: nat)
    requires Isolated(k, own, reserved) && Agrees(k.ram.mem, reserved - 1, k.ram.used)
    requires kept <= Alloc(k.ram.used).0 / 8
    ensures Shadowed(k, reserved - 1, kept, k)
  {
    hide Separated, LiveDirs, Agrees;
    assert k.ram.used[reserved - 1] && k.ram.used[0];
  }

  lemma SameSpaceBack(m: Memory, m': Memory, d: nat)
    requires SameSpace(m, m', d)
    ensures SameSpace(m', m, d)
  {
    hide Present, FrameOf, Pde, Pte;
    forall i | 0 <= i < ENTRIES
      ensures Pde(m, d, i) == Pde(m', d, i)
    {
      assert Pde(m', d, i) == Pde(m, d, i);
    }
    forall i, j | 0 <= i < KERNEL_PDT_IDX && 0 <= j < ENTRIES
      ensures SamePage(m', m, d, i, j)
    {
      assert SamePage(m, m', d, i, j);
    }
  }

  lemma SameImagePage(m: Memory, m1: Memory, m2: Memory, d: nat, src: nat, size: Word, n: nat)
    requires SameSpace(m1, m2, d) && HasImagePage(m, m1, d, src, size, n) && n < TOTAL_FRAMES
    ensures HasImagePage(m, m2, d, src, size, n)
  {
    hide Present, FrameOf, FlagsOf, Pde, Pte, FrameByte, LoadByte, Di, Ti;
    PagePosition(n);
    TiBound(n);
    assert SamePage(m1, m2, d, Di(n), Ti(n));
  }

  lemma SameImage(m: Memory, m1: Memory, m2: Memory, d: nat, src: nat, size: Word)
    requires SameSpace(m1, m2, d) && HoldsImage(m, m1, d, src, size) && src + size <= MEMORY_SIZE
    ensures HoldsImage(m, m2, d, src, size)
  {
    hide Present, FrameOf, FlagsOf, Pde, Pte, Di, Ti, HasImagePage, PagesNeeded, MapsPage;
    forall n | 0 <= n < PagesNeeded(size)
      ensures MapsPage(m2, d, n) && HasImagePage(m, m2, d, src, size, n)
    {
      PageInMemory(src, size, n);
      SameImagePage(m, m1, m2, d, src, size, n);
      ImagePageMaps(m, m2, d, src, size, n);
    }
    forall i, j {:trigger Pte(m2, d, i, j)} | 0 <= i < KERNEL_PDT_IDX && 0 <= j < ENTRIES
      ensures Pte(m2, d, i, j) == Pte(m1, d, i, j)
    {
      assert SamePage(m1, m2, d, i, j);
    }
  }

  lemma PageInMemory(src: nat, size: Word, n: nat)
    requires n < PagesNeeded(size) && src + size <= MEMORY_SIZE
    ensures n < TOTAL_FRAMES
  {
    CopyStaysInModule(size, n);
  }

  lemma ImagePageMaps(m: Memory, m': Memory, d: nat, src: nat, size: Word, n: nat)
    requires HasImagePage(m, m', d, src, size, n)
    ensures MapsPage(m', d, n)
  {
    hide MapsPage;
  }

  /** The call gives the process the same space with the bitmap in memory as with the bitmap apart. */
  lemma CreateSameSpace(k: Kernel, own: map<nat, Use>, reserved: nat, src: nat, size: Word)
    requires ReadyToCreate(k, own, reserved, src, size) && BitmapApart(k.ram.used, src, size, reserved - 1)
    ensures var ((k1, s1), (k2, s2)) := (CreateProcessIn(k, reserved - 1, src, size), CreateProcess(k, src, size));
            && s1 == s2 == FirstFree(k.table, 0) && k1 == k2.(ram := k1.ram)
            && Agrees(k1.ram.mem, reserved - 1, k2.ram.used)
            && SameSpace(k2.ram.mem, k1.ram.mem, DirOf(k2.table[s2])) && k2.table[s2].state.Ready?
  {
    hide LiveDirs, Separated, Isolated, CreateProcess, CreateProcessIn, FreeCount, Agrees, CoveredFree, PagesAvoid;
    hide FreeBelow, Alloc, Shadowed, SameSpace, MapsImage, CreateNeed;
    var base := reserved - 1;
    ReadyCounts(k, own, reserved, src, size);
    CreateCovered(k, own, reserved, src, size);
    AlikeItself(k, own, reserved, Alloc(k.ram.used).0 / 8);
    CreateShadow(k, base, Alloc(k.ram.used).0 / 8, k, own, reserved, src, size);
    CreateMapsImage(k, own, reserved, src, size);
    var own' := CreateIsolated(k, own, reserved, src, size);
    var k1, k2 := CreateProcessIn(k, base, src, size).0, CreateProcess(k, src, size).0;
    ShadowedParts(k1, base, Alloc(k.ram.used).0 / 8, k2);
    ShadowedSpaces(k1, base, Alloc(k.ram.used).0 / 8, k2, own', reserved);
  }

  /** With a free slot, room for the call, and a module that is safe and apart from the bits that change, the new
      process has the module's bytes, as they were before the call, and then zeros. */
  lemma LoadsImageInMemory(k: Kernel, own: map<nat, Use>, reserved: nat, src: nat, size: Word)
    requires ReadyToCreate(k, own, reserved, src, size)
    requires ModuleSafe(k.ram.used, src, size) && BitmapApart(k.ram.used, src, size, reserved - 1)
    ensures var (slot, (k', s)) := (FirstFree(k.table, 0), CreateProcessIn(k, reserved - 1, src, size));
            && s == slot && k'.table[slot].state.Ready?
            && HoldsImage(k.ram.mem, k'.ram.mem, DirOf(k'.table[slot]), src, size)
  {
    hide Isolated, CreateProcess, CreateProcessIn, FreeCount, Agrees, BitmapApart, ModuleSafe, HoldsImage, SameSpace;
    hide FreeBelow, CreateNeed;
    ReadyCounts(k, own, reserved, src, size);
    CreateLoadsImage(k, own, reserved, src, size);
    CreateSameSpace(k, own, reserved, src, size);
    var (k1, k2) := (CreateProcessIn(k, reserved - 1, src, size).0, CreateProcess(k, src, size).0);
    SameImage(k.ram.mem, k2.ram.mem, k1.ram.mem, DirOf(k2.table[FirstFree(k.table, 0)]), src, size);
  }

  // ---- A page that lies in a frame nobody owns ----

  lemma NobodysPage(ram: Ram, own: map<nat, Use>, dirs: set<nat>, d: nat, src: nat, size: Word, n: nat)
    requires LoadingAt(ram, own, dirs, d, n) && n < PagesNeeded(size) && TablesUpTo(ram.mem, d, n)
    requires FreeCount(ram.used) > Starts(n) && src % FRAME_SIZE == 0
    requires var g := src / FRAME_SIZE + n; g < TOTAL_FRAMES && ram.used[g] && g !in own
    ensures HasImagePage(ram.mem, LoadPage(ram, d, src, size, n).ram.mem, d, src, size, n)
  {
    hide Present, Alloc, Pde, Pte, Di, Ti, StartsTable, FreeCount, PagesNeeded, Separated, LoadPage, FillPage, LoadByte;
    hide MapPage, Entry, CopySize, TablesUpTo, FrameOf, AddsPage, FrameByte;
    var g, at := src / FRAME_SIZE + n, src + n * FRAME_SIZE;
    SeparatedFrames(ram, own, dirs, 0);
    AllocTakesLowest(ram.used);
    LoadPageAdds(ram, d, src, size, n);
    LoadPageEffect(ram, own, dirs, d, src, size, n);
    CopyStaysInModule(size, n);
    PageFrame(src, n);
    var f, r := Alloc(ram.used).0, LoadPage(ram, d, src, size, n).ram;
    EntryMaps(r.mem, d, n, f);
    var m1 := MapPage(Allocated(ram, ram.mem), d, Di(n), Ti(n), Entry(f, 7)).mem;
    NobodysFrameStays(ram, own, dirs, d, n, g);
    forall k | 0 <= k < FRAME_SIZE
      ensures FrameByte(r.mem[f], k) == if n * FRAME_SIZE + k < size then
                LoadByte(ram.mem, src + (n * FRAME_SIZE + k)) else 0
    {
      FilledByte(m1, f, at, CopySize(size, n), k);
      ByteInFrame(m1, g, k);
      ByteInFrame(ram.mem, g, k);
      assert at + k == src + (n * FRAME_SIZE + k);
    }
  }

  lemma NobodysFrameStays(ram: Ram, own: map<nat, Use>, dirs: set<nat>, d: nat, n: nat, g: nat)
    requires LoadingAt(ram, own, dirs, d, n) && n < TOTAL_FRAMES && TablesUpTo(ram.mem, d, n)
    requires FreeCount(ram.used) > Starts(n) && g < TOTAL_FRAMES && ram.used[g] && g !in own
    ensures Alloc(ram.used).0 != 0
    ensures MapPage(Allocated(ram, ram.mem), d, Di(n), Ti(n), Entry(Alloc(ram.used).0, 7)).mem[g] == ram.mem[g]
  {
    hide Present, Alloc, Pde, Pte, Di, Ti, FreeCount, PagesApart, MapPage, Entry, StartsTable, TablesUpTo;
    AllocTakesLowest(ram.used);
    TableThere(ram, own, dirs, d, n);
    PagePosition(n);
    TiBound(n);
    AllocTakesLowest(Alloc(ram.used).1);
    MapPageLeaves(Allocated(ram, ram.mem), own, dirs, d, Di(n), Ti(n), Entry(Alloc(ram.used).0, 7), g);
  }

  /** A page of the module in a frame that is taken and nobody's arrives, whatever becomes of the others. */
  lemma {:induction false} NobodysPageArrives(ram: Ram, own: map<nat, Use>, dirs: set<nat>, d: nat, src: nat,
                                              size: Word, n: nat, m: nat)
    requires LoadingAt(ram, own, dirs, d, n) && n <= m < PagesNeeded(size) && TablesUpTo(ram.mem, d, n)
    requires FreeCount(ram.used) >= LoadNeed(n, PagesNeeded(size)) && src % FRAME_SIZE == 0
    requires var g := src / FRAME_SIZE + m; g < TOTAL_FRAMES && ram.used[g] && g !in own
    ensures HasImagePage(ram.mem, LoadPages(ram, d, src, size, n).ram.mem, d, src, size, m)
    decreases m - n
  {
    hide Present, Pde, Pte, LoadPage, Separated, FreeCount, PagesNeeded, Di, Ti, Alloc, StartsTable, TablesUpTo;
    hide LoadNeed, HasImagePage, LoadByte, AddOwn, Entry, CopySize;
    EnoughForOne(n, PagesNeeded(size));
    var g := src / FRAME_SIZE + m;
    var own1 := LoadPageKeeps(ram, own, dirs, d, src, size, n);
    LoadPageEffect(ram, own, dirs, d, src, size, n);
    var r1 := LoadPage(ram, d, src, size, n).ram;
    if n == m {
      NobodysPage(ram, own, dirs, d, src, size, n);
      var own' := LoadPagesKeeps(r1, own1, dirs, d, src, size, n + 1);
      var r := LoadPages(r1, d, src, size, n + 1).ram;
      PagePosition(n);
      MappedStays(r1.mem, r.mem, d, n, PagesNeeded(size));
      ImagePageStays(ram.mem, r1, own1, r, dirs, d, src, size, n);
    } else {
      StillNobodys(ram, own, r1, own1, d, g);
      NobodysPageArrives(r1, own1, dirs, d, src, size, n + 1, m);
      PageBytesSame(ram.mem, r1.mem, src, size, m);
      ImagePageFrom(ram.mem, r1.mem, LoadPages(ram, d, src, size, n).ram.mem, d, src, size, m);
    }
  }

  lemma PageBytesSame(m: Memory, m': Memory, src: nat, size: Word, n: nat)
    requires n < PagesNeeded(size) && src % FRAME_SIZE == 0
    requires var g := src / FRAME_SIZE + n; g < TOTAL_FRAMES && m'[g] == m[g]
    ensures forall a {:trigger LoadByte(m, a)} ::
              src + n * FRAME_SIZE <= a < src + n * FRAME_SIZE + CopySize(size, n) ==> LoadByte(m, a) == LoadByte(m', a)
  {
    hide LoadByte, PagesNeeded, CopySize;
    CopyStaysInModule(size, n);
    PageFrame(src, n);
    forall a {:trigger LoadByte(m, a)} | src + n * FRAME_SIZE <= a < src + n * FRAME_SIZE + CopySize(size, n)
      ensures LoadByte(m, a) == LoadByte(m', a)
    {
      InThatFrame(src / FRAME_SIZE + n, a);
      SameByteOfFrame(m, m', a);
    }
  }

  // ---- A page that lies in the frame of the bitmap ----

  function WithFrame(ram: Ram, f: nat, contents: Frame): Ram {
    ram.(mem := WriteFrame(ram.mem, f, contents))
  }

  /** The bits of all frames taken are set. */
  ghost predicate Marks(b: Frame, used: Used) {
    forall f :: 0 <= f < COVERED && used[f] ==> BitSet(b[BitWord(f)], f % 8)
  }

  lemma ShadowMarks(m: Memory, base: nat, kept: nat, ram: Ram, used: Used)
    requires Shadows(m, base, kept, ram) && StaysTaken(used, ram.used)
    ensures Marks(m[base], used)
  {
    hide BitSet;
    forall f | 0 <= f < COVERED && used[f]
      ensures BitSet(m[base][BitWord(f)], f % 8)
    {
      assert ram.used[f] && Taken(m, base, f) && BitFrame(base, f) == base;
    }
  }

  lemma OtherContents(m: Memory, base: nat, ram: Ram, own: map<nat, Use>, dirs: set<nat>, d: nat, n: nat, b: Frame)
    requires Shadowing(m, base, 0, ram, own, dirs) && LoadingAt(ram, own, dirs, d, n) && TablesUpTo(ram.mem, d, n)
    ensures Shadowing(m, base, 0, WithFrame(ram, base, b), own, dirs)
    ensures LoadingAt(WithFrame(ram, base, b), own, dirs, d, n) && TablesUpTo(WithFrame(ram, base, b).mem, d, n)
    ensures WithFrame(ram, base, b).used == ram.used && WithFrame(ram, base, b).mem[base] == b
    ensures InStep(ram, WithFrame(ram, base, b), base)
  {
    hide Present, Pde, Pte, TableApart, PageApart, Agrees, FreeCount, Di, Ti, StartsTable;
    SameTablesKeep(ram, own, dirs, WithFrame(ram, base, b));
    DirsInLedgerToo(ram, own, dirs, d);
    forall i
      ensures Pde(WithFrame(ram, base, b).mem, d, i) == Pde(ram.mem, d, i)
    {
      SamePde(ram.mem, WithFrame(ram, base, b).mem, base, d, i);
    }
  }

  /** The page in the frame of the bitmap is copied as the bitmap is by then, as if memory had held that from
      the start. */
  lemma SeesTheBitmap(m: Memory, base: nat, ram: Ram, own: map<nat, Use>, dirs: set<nat>, d: nat, src: nat, size: Word,
                      n: nat, b: Frame)
    requires Shadowing(m, base, 0, ram, own, dirs) && LoadingAt(ram, own, dirs, d, n) && TablesUpTo(ram.mem, d, n)
    requires n < PagesNeeded(size) && FreeCount(ram.used) > Starts(n)
    requires PageCovered(ram, d, n) && b == MappedForIn(m, base, d, n)[base]
    ensures var ramb := WithFrame(ram, base, b);
            && LoadPage(ramb, d, src, size, n).Loaded? && LoadPageIn(m, base, d, src, size, n).Done?
            && Shadows(LoadPageIn(m, base, d, src, size, n).mem, base, 0, LoadPage(ramb, d, src, size, n).ram)
            && Marks(b, ram.used)
  {
    hide Present, Pde, Pte, Alloc, Agrees, CoveredFree, FreeCount, PagesNeeded, Separated, Di, Ti, StartsTable;
    hide LoadPage, LoadPageIn, MappedForIn, TablesUpTo, Shadows, CopySize, Alike, Entry, MapPage, Marks;
    OtherContents(m, base, ram, own, dirs, d, n, b);
    var ramb := WithFrame(ram, base, b);
    ShadowsTaken(m, base, 0, ram);
    DirsInLedgerToo(ram, own, dirs, d);
    StillPageCovered(ram, base, b, d, n);
    PageFits(ramb, own, dirs, d, n);
    MappedShadow(m, base, 0, ramb, own, dirs, d, n);
    NobodysFrameStays(ramb, own, dirs, d, n, base);
    SameAllAlike(MappedFor(ramb, d, n), MappedForIn(m, base, d, n), base);
    AvoidsNothing(src + n * FRAME_SIZE, CopySize(size, n), base);
    LoadPageShadow(m, base, 0, ramb, own, dirs, d, src, size, n, FRAME_WORDS);
    MappedTakes(ramb, d, n);
    ShadowMarks(MappedForIn(m, base, d, n), base, 0, MappedFor(ramb, d, n), ram.used);
  }

  lemma StillPageCovered(ram: Ram, base: nat, b: Frame, d: nat, n: nat)
    requires PageCovered(ram, d, n) && base < TOTAL_FRAMES
    ensures CoveredFree(ram.used) && (d != base ==> PageCovered(WithFrame(ram, base, b), d, n))
  {
    hide Present, CoveredFree, Alloc, Di;
  }

  lemma MappedTakes(ram: Ram, d: nat, n: nat)
    requires Alloc(ram.used).0 != 0
    ensures StaysTaken(ram.used, MappedFor(ram, d, n).used)
  {
    hide MapPage, Entry, Di, Ti;
    MapPageTakes(Allocated(ram, ram.mem), d, Di(n), Ti(n), Entry(Alloc(ram.used).0, 7));
  }

  lemma SameAllAlike(r: Ram, m: Memory, base: nat)
    requires Shadows(m, base, 0, r) && r.mem[base] == m[base]
    ensures Alike(r.mem, m, base, FRAME_WORDS)
  {
    hide Agrees;
  }

  lemma AvoidsNothing(src: nat, count: int, base: nat)
    ensures count >= 0 ==> Avoids(src, count, base, FRAME_WORDS)
  {
    if count >= 0 {
      forall a {:trigger a / FRAME_SIZE} | src <= a < src + count && a / FRAME_SIZE == base
        ensures a % FRAME_SIZE < 4 * FRAME_WORDS
      {
        InFrame(a);
      }
    }
  }

  /** Aligned pages are in frames of their own. */
  lemma OtherPageAvoids(src: nat, size: Word, n: nat, base: nat)
    requires n < PagesNeeded(size) && src % FRAME_SIZE == 0 && src / FRAME_SIZE + n != base
    ensures CopySize(size, n) >= 0 ==> Avoids(src + n * FRAME_SIZE, CopySize(size, n), base, 0)
  {
    hide PagesNeeded, CopySize;
    CopyStaysInModule(size, n);
    PageFrame(src, n);
    var at := src + n * FRAME_SIZE;
    forall a {:trigger a / FRAME_SIZE} | at <= a < at + CopySize(size, n)
      ensures a / FRAME_SIZE != base
    {
      InThatFrame(src / FRAME_SIZE + n, a);
    }
  }

  lemma LaterPagesAvoid(src: nat, size: Word, m0: nat, base: nat)
    requires src % FRAME_SIZE == 0 && src / FRAME_SIZE + m0 == base
    ensures PagesAvoid(src, size, m0 + 1, base, 0)
  {
    hide PagesNeeded, CopySize, Avoids;
    forall n {:trigger CopySize(size, n)} | m0 + 1 <= n < PagesNeeded(size) && CopySize(size, n) >= 0
      ensures Avoids(src + n * FRAME_SIZE, CopySize(size, n), base, 0)
    {
      OtherPageAvoids(src, size, n, base);
    }
  }

  /** Page m0 of the module lies in the frame of the bitmap. Loading goes as it would with the bitmap apart and other
      contents b in that frame: what the bitmap is when the page is copied. */
  lemma {:induction false} LoadPagesSee(m: Memory, base: nat, ram: Ram, own: map<nat, Use>, dirs: set<nat>, d: nat,
                                        src: nat, size: Word, n: nat, m0: nat)
    returns (b: Frame)
    requires Shadowing(m, base, 0, ram, own, dirs) && LoadingAt(ram, own, dirs, d, n) && TablesUpTo(ram.mem, d, n)
    requires n <= m0 < PagesNeeded(size) && src % FRAME_SIZE == 0 && src / FRAME_SIZE + m0 == base
    requires FreeBelow(ram.used, COVERED) >= LoadNeed(n, PagesNeeded(size))
    ensures var r := LoadPages(WithFrame(ram, base, b), d, src, size, n);
            && r.Loaded? && LoadPagesIn(m, base, d, src, size, n).Done?
            && Shadows(LoadPagesIn(m, base, d, src, size, n).mem, base, 0, r.ram) && Marks(b, ram.used)
    decreases m0 - n
  {
    hide Present, Pde, Pte, Alloc, Agrees, CoveredFree, FreeCount, PagesNeeded, Separated, Di, Ti, StartsTable;
    hide LoadPage, LoadPageIn, MappedForIn, TablesUpTo, Shadows, CopySize, Marks, FreeBelow, LoadNeed, Taking;
    hide WithFrame, AddOwn, SameOutside;
    SeparatedFrames(ram, own, dirs, 0);
    ShadowsTaken(m, base, 0, ram);
    RoomForPage(ram, own, dirs, d, n, PagesNeeded(size));
    LoadPagePool(ram, own, dirs, d, src, size, n);
    if n == m0 {
      b := MappedForIn(m, base, d, n)[base];
      SeesTheBitmap(m, base, ram, own, dirs, d, src, size, n, b);
      OtherContents(m, base, ram, own, dirs, d, n, b);
      LoadRest(m, base, WithFrame(ram, base, b), own, dirs, d, src, size, n);
    } else {
      PageFits(ram, own, dirs, d, n);
      MappedShadow(m, base, 0, ram, own, dirs, d, n);
      OtherPageAvoids(src, size, n, base);
      ShadowsAlike(MappedForIn(m, base, d, n), base, 0, MappedFor(ram, d, n));
      LoadPageShadow(m, base, 0, ram, own, dirs, d, src, size, n, 0);
      var own1 := LoadPageKeeps(ram, own, dirs, d, src, size, n);
      LoadPageEffect(ram, own, dirs, d, src, size, n);
      var (r1, m1) := (LoadPage(ram, d, src, size, n).ram, LoadPageIn(m, base, d, src, size, n).mem);
      StillNobodys(ram, own, r1, own1, d, base);
      b := LoadPagesSee(m1, base, r1, own1, dirs, d, src, size, n + 1, m0);
      OtherContents(m, base, ram, own, dirs, d, n, b);
      SameButOneFrame(ram, own, dirs, d, src, size, n, base, b);
      LoadPageTakes(ram, d, src, size, n);
      MarksFewer(b, ram.used, r1.used);
    }
  }

  lemma ShadowsAlike(m: Memory, base: nat, kept: nat, ram: Ram)
    requires Shadows(m, base, kept, ram)
    ensures Alike(ram.mem, m, base, kept)
  {
    hide Agrees;
  }

  lemma MarksFewer(b: Frame, used: Used, used': Used)
    requires Marks(b, used') && forall g :: 0 <= g < TOTAL_FRAMES && used[g] ==> used'[g]
    ensures Marks(b, used)
  {
    hide BitSet;
  }

  /** Page n has just been copied; no later page is in frame base. */
  lemma LoadRest(m: Memory, base: nat, ram: Ram, own: map<nat, Use>, dirs: set<nat>, d: nat, src: nat, size: Word,
                 n: nat)
    requires Shadowing(m, base, 0, ram, own, dirs) && LoadingAt(ram, own, dirs, d, n) && TablesUpTo(ram.mem, d, n)
    requires n < PagesNeeded(size) && src % FRAME_SIZE == 0 && src / FRAME_SIZE + n == base
    requires FreeBelow(ram.used, COVERED) >= LoadNeed(n, PagesNeeded(size))
    requires LoadPage(ram, d, src, size, n).Loaded? && LoadPageIn(m, base, d, src, size, n).Done?
    requires Shadows(LoadPageIn(m, base, d, src, size, n).mem, base, 0, LoadPage(ram, d, src, size, n).ram)
    ensures LoadPages(ram, d, src, size, n).Loaded? && LoadPagesIn(m, base, d, src, size, n).Done?
    ensures Shadows(LoadPagesIn(m, base, d, src, size, n).mem, base, 0, LoadPages(ram, d, src, size, n).ram)
  {
    hide Present, Pde, Pte, Alloc, Agrees, CoveredFree, FreeCount, PagesNeeded, Separated, Di, Ti, StartsTable;
    hide LoadPage, LoadPageIn, TablesUpTo, Shadows, CopySize, FreeBelow, LoadNeed, Taking, AddOwn, SameOutside;
    hide PagesAvoid;
    SeparatedFrames(ram, own, dirs, 0);
    ShadowsTaken(m, base, 0, ram);
    RoomForPage(ram, own, dirs, d, n, PagesNeeded(size));
    LoadPagePool(ram, own, dirs, d, src, size, n);
    LoadPageEffect(ram, own, dirs, d, src, size, n);
    var own1 := LoadPageKeeps(ram, own, dirs, d, src, size, n);
    StillNobodys(ram, own, LoadPage(ram, d, src, size, n).ram, own1, d, base);
    LaterPagesAvoid(src, size, n, base);
    EnoughCovers(LoadPage(ram, d, src, size, n).ram, own1, dirs, d, src, size, n + 1);
    LoadPagesShadow(LoadPageIn(m, base, d, src, size, n).mem, base, 0, LoadPage(ram, d, src, size, n).ram, own1, dirs,
                    d, src, size, n + 1);
  }

  /** Loading a page that is not in frame base takes no notice of what is there. */
  lemma SameButOneFrame(ram: Ram, own: map<nat, Use>, dirs: set<nat>, d: nat, src: nat, size: Word, n: nat, base: nat,
                        b: Frame)
    requires LoadingAt(ram, own, dirs, d, n) && n < PagesNeeded(size) && TablesUpTo(ram.mem, d, n)
    requires FreeCount(ram.used) > Starts(n) && src % FRAME_SIZE == 0 && src / FRAME_SIZE + n != base
    requires base < TOTAL_FRAMES && ram.used[base] && base !in own
    requires LoadingAt(WithFrame(ram, base, b), own, dirs, d, n)
    ensures LoadPage(ram, d, src, size, n).Loaded?
    ensures LoadPage(WithFrame(ram, base, b), d, src, size, n) ==
              Loaded(WithFrame(LoadPage(ram, d, src, size, n).ram, base, b))
  {
    hide Present, Pde, Pte, Alloc, FreeCount, PagesNeeded, Separated, Di, Ti, StartsTable, LoadPage, TablesUpTo, AddOwn;
    hide SameOutside, CopySize;
    var ramb := WithFrame(ram, base, b);
    LoadPageInStep(ram, ramb, own, dirs, d, src, size, n, base);
    var own1 := LoadPageKeeps(ramb, own, dirs, d, src, size, n);
    var (r1, r2) := (LoadPage(ram, d, src, size, n).ram, LoadPage(ramb, d, src, size, n).ram);
    StillNobodys(ramb, own, r2, own1, d, base);
    assert r2.mem == r1.mem[base := b];
  }

  // ---- Exactly when ----

  lemma FirstFreeBit(k: Kernel, own: map<nat, Use>, reserved: nat, src: nat, size: Word)
    requires ReadyToCreate(k, own, reserved, src, size)
    ensures var f := Alloc(k.ram.used).0;
            && f < COVERED && BitWord(f) == f / 8 < FRAME_WORDS && !BitSet(k.ram.mem[reserved - 1][f / 8], f % 8)
            && !k.ram.used[f] && Alloc(k.ram.used).1 == k.ram.used[f := true]
  {
    hide BitSet, Isolated, CreateNeed, FreeBelow, Agrees, Alloc, CoveredFree;
    ReadyCounts(k, own, reserved, src, size);
    CreateNeedPositive(size);
    SomeCovered(k.ram.used);
    FirstFreeIsCovered(k.ram.used);
    ClearBit(k.ram.mem, reserved - 1, k.ram.used, Alloc(k.ram.used).0);
  }

  lemma FirstFreeIsCovered(used: Used)
    requires CoveredFree(used)
    ensures var f := Alloc(used).0; f < COVERED && !used[f] && Alloc(used).1 == used[f := true]
  {
    var f :| 0 <= f < COVERED && !used[f];
    assert LowestFree(used, 0) <= f;
  }

  lemma ClearBit(m: Memory, base: nat, used: Used, f: nat)
    requires base < TOTAL_FRAMES && Agrees(m, base, used) && f < COVERED && !used[f]
    ensures BitWord(f) == f / 8 < FRAME_WORDS && !BitSet(m[base][f / 8], f % 8)
  {
    hide BitSet;
    SamePlace(f, f);
    assert !Taken(m, base, f) && BitFrame(base, f) == base;
  }

  lemma LowBitsDiffer(w: Word, w': Word, b: nat)
    requires b < 8 && BitSet(w, b) && !BitSet(w', b)
    ensures ByteOf(w, 0) != ByteOf(w', 0)
  {
  }

  lemma PageByte(m: Memory, m': Memory, d: nat, src: nat, size: Word, n: nat, w: nat)
    requires n < PagesNeeded(size) && HasImagePage(m, m', d, src, size, n) && src % FRAME_SIZE == 0
    requires src / FRAME_SIZE + n < TOTAL_FRAMES && 4 * w < CopySize(size, n) && w < FRAME_WORDS
    ensures FrameByte(ReadFrame(m', FrameOf(Pte(m', d, Di(n), Ti(n)))), 4 * w) ==
            ByteOf(m[src / FRAME_SIZE + n][w], 0)
  {
    hide MapsPage, FrameByte, Pte, Di, Ti, FrameOf, LoadByte, ReadFrame, ByteOf, PagesNeeded, CopySize;
    CopyStaysInModule(size, n);
    PageFrame(src, n);
    assert src + (n * FRAME_SIZE + 4 * w) == (src / FRAME_SIZE + n) * FRAME_SIZE + 4 * w;
    ByteInFrame(m, src / FRAME_SIZE + n, 4 * w);
    FirstOfWord(m[src / FRAME_SIZE + n], w);
  }

  lemma FirstOfWord(fr: Frame, w: nat)
    requires w < FRAME_WORDS
    ensures FrameByte(fr, 4 * w) == ByteOf(fr[w], 0)
  {
  }

  /** Page m0 of the new process holds what the bitmap is when it is copied. */
  lemma LoadedWithBitmap(k: Kernel, own: map<nat, Use>, reserved: nat, src: nat, size: Word, m0: nat)
    returns (b: Frame)
    requires ReadyToCreate(k, own, reserved, src, size) && src % FRAME_SIZE == 0
    requires m0 < PagesNeeded(size) && src / FRAME_SIZE + m0 == reserved - 1
    ensures var (slot, (k', s)) := (FirstFree(k.table, 0), CreateProcessIn(k, reserved - 1, src, size));
            && s == slot && k'.table[slot].state.Ready? && Marks(b, Alloc(k.ram.used).1) && reserved <= TOTAL_FRAMES
            && HasImagePage(k.ram.mem[reserved - 1 := b], k'.ram.mem, DirOf(k'.table[slot]), src, size, m0)
  {
    hide LiveDirs, Separated, Isolated, CreateDirectory, CreateDirectoryIn, LoadPages, LoadPagesIn, CreateProcess;
    hide CreateProcessIn, FreeCount, Agrees, CoveredFree, FreeBelow, Alloc, Shadows, SameSpace, MapsImage;
    hide TablesUpTo, PagesNeeded, Marks, WithFrame, HasImagePage, Taking, LoadNeed;
    var base := reserved - 1;
    ReadyCounts(k, own, reserved, src, size);
    CreateCovered(k, own, reserved, src, size);
    AlikeItself(k, own, reserved, 0);
    MadeShadow(k, base, 0, k, own, reserved);
    CreateStart(k, own, reserved);
    var (made', made) := (CreateDirectoryIn(k.ram.mem, base, k.kdir), CreateDirectory(k.ram, k.kdir));
    var own1, dirs := own[made.0 := Directory(made.0)], LiveDirs(k.table) + {made.0};
    MadePool(k.ram, k.kdir, size);
    b := LoadPagesSee(made'.1, base, made.1, own1, dirs, made.0, src, size, 0, m0);
    PageWithBitmap(made'.1, base, made.1, own1, dirs, made.0, src, size, m0, b, k.ram.mem);
    CreateMapsImage(k, own, reserved, src, size);
    CreateSucceedsShape(k, own, reserved, src, size);
    SameCreation(k, k, base, src, size);
  }

  lemma MadePool(ram: Ram, kdir: Frame, size: Word)
    requires CoveredFree(ram.used) && FreeBelow(ram.used, COVERED) >= CreateNeed(size)
    requires CreateDirectory(ram, kdir).0 != 0
    ensures CreateDirectory(ram, kdir).1.used == Alloc(ram.used).1
    ensures FreeBelow(Alloc(ram.used).1, COVERED) >= LoadNeed(0, PagesNeeded(size))
  {
    hide Alloc, FreeBelow, LoadNeed, PagesNeeded, CoveredFree;
    AllocBelow(ram.used);
  }

  lemma PageWithBitmap(m: Memory, base: nat, ram: Ram, own: map<nat, Use>, dirs: set<nat>, d: nat, src: nat, size: Word,
                       m0: nat, b: Frame, before: Memory)
    requires Shadowing(m, base, 0, ram, own, dirs) && LoadingAt(ram, own, dirs, d, 0) && TablesUpTo(ram.mem, d, 0)
    requires m0 < PagesNeeded(size) && src % FRAME_SIZE == 0 && src / FRAME_SIZE + m0 == base
    requires src + size <= MEMORY_SIZE
    requires FreeBelow(ram.used, COVERED) >= LoadNeed(0, PagesNeeded(size))
    requires var r := LoadPages(WithFrame(ram, base, b), d, src, size, 0);
             && r.Loaded? && LoadPagesIn(m, base, d, src, size, 0).Done?
             && Shadows(LoadPagesIn(m, base, d, src, size, 0).mem, base, 0, r.ram)
    ensures base < TOTAL_FRAMES
    ensures HasImagePage(before[base := b], LoadPagesIn(m, base, d, src, size, 0).mem, d, src, size, m0)
  {
    hide Present, Pde, Pte, Separated, LoadPages, LoadPagesIn, FreeCount, FreeBelow, Shadows, SameSpace, TablesUpTo;
    hide PagesNeeded, WithFrame, HasImagePage, LoadNeed, CopySize, LoadByte, SameOutside;
    SeparatedFrames(ram, own, dirs, 0);
    ShadowsTaken(m, base, 0, ram);
    RoomForPage(ram, own, dirs, d, 0, PagesNeeded(size));
    OtherContents(m, base, ram, own, dirs, d, 0, b);
    var ramb := WithFrame(ram, base, b);
    var r, m' := LoadPages(ramb, d, src, size, 0).ram, LoadPagesIn(m, base, d, src, size, 0).mem;
    NobodysPageArrives(ramb, own, dirs, d, src, size, 0, m0);
    var own' := LoadPagesKeeps(ramb, own, dirs, d, src, size, 0);
    StillNobodys(ramb, own, r, own', d, base);
    SameSpaceShadow(m', base, 0, r, own', dirs, d);
    PageInMemory(src, size, m0);
    SameImagePage(ramb.mem, r.mem, m', d, src, size, m0);
    PageBytesSame(before[base := b], ramb.mem, src, size, m0);
    ImagePageFrom(before[base := b], ramb.mem, m', d, src, size, m0);
  }

  /** The new process does not have a page that reaches the word of the first free frame's bit: it has that bit set,
      and before the call it was clear. */
  lemma BitmapPageIsLost(k: Kernel, own: map<nat, Use>, reserved: nat, src: nat, size: Word, m0: nat)
    requires ReadyToCreate(k, own, reserved, src, size) && src % FRAME_SIZE == 0
    requires m0 < PagesNeeded(size) && src / FRAME_SIZE + m0 == reserved - 1
    requires CopySize(size, m0) > 4 * (Alloc(k.ram.used).0 / 8)
    ensures var (slot, (k', s)) := (FirstFree(k.table, 0), CreateProcessIn(k, reserved - 1, src, size));
            && s == slot && k'.table[slot].state.Ready?
            && !HoldsImage(k.ram.mem, k'.ram.mem, DirOf(k'.table[slot]), src, size)
  {
    hide LiveDirs, Separated, Isolated, CreateDirectory, CreateDirectoryIn, LoadPages, LoadPagesIn, CreateProcess;
    hide CreateProcessIn, FreeCount, Agrees, CoveredFree, FreeBelow, Alloc, Shadowed, SameSpace, MapsImage, CreateNeed;
    hide TablesUpTo, PagesNeeded, Marks, WithFrame, HasImagePage, CopySize, ByteOf, BitSet, FrameByte, Pte, FrameOf;
    hide Shadows, Di, Ti, Taking, LoadNeed;
    var base, slot := reserved - 1, FirstFree(k.table, 0);
    var b := LoadedWithBitmap(k, own, reserved, src, size, m0);
    var f, k' := Alloc(k.ram.used).0, CreateProcessIn(k, base, src, size).0;
    FirstFreeBit(k, own, reserved, src, size);
    if HoldsImage(k.ram.mem, k'.ram.mem, DirOf(k'.table[slot]), src, size) {
      PageByte(k.ram.mem, k'.ram.mem, DirOf(k'.table[slot]), src, size, m0, f / 8);
      PageByte(k.ram.mem[base := b], k'.ram.mem, DirOf(k'.table[slot]), src, size, m0, f / 8);
      MarkedBit(b, Alloc(k.ram.used).1, f);
      LowBitsDiffer(b[f / 8], k.ram.mem[base][f / 8], f % 8);
      assert false;
    }
  }

  lemma MarkedBit(b: Frame, used: Used, f: nat)
    requires Marks(b, used) && f < COVERED && used[f]
    ensures BitSet(b[BitWord(f)], f % 8)
  {
    hide BitSet;
  }

  /** Whether the image is right when memory holds m before the call, the bitmap included. */
  ghost predicate LoadsWithIn(k: Kernel, m: Memory, base: nat, src: nat, size: Word)
    requires FirstFree(k.table, 0) < MAX_PROCESSES
  {
    var k' := CreateProcessIn(WithMemory(k, m), base, src, size).0;
    HoldsImage(m, k'.ram.mem, DirOf(k'.table[FirstFree(k.table, 0)]), src, size)
  }

  lemma ReadyWithMemory(k: Kernel, own: map<nat, Use>, reserved: nat, src: nat, size: Word, m: Memory)
    requires ReadyToCreate(k, own, reserved, src, size) && AgreesOnTaken(k.ram, m)
    ensures ReadyToCreate(WithMemory(k, m), own, reserved, src, size)
  {
    hide Isolated, Agrees, CreateNeed, FreeBelow;
    IsolatedWithMemory(k, own, reserved, m);
    IsolatedReserves(k, own, reserved);
    SameBitmap(k.ram.mem, m, reserved - 1, k.ram.used);
  }

  lemma IsolatedReserves(k: Kernel, own: map<nat, Use>, reserved: nat)
    requires Isolated(k, own, reserved)
    ensures 0 < reserved <= TOTAL_FRAMES && k.ram.used[reserved - 1]
  {
    hide Separated, LiveDirs;
  }

  lemma LoadsAlike(k: Kernel, own: map<nat, Use>, reserved: nat, src: nat, size: Word, m: Memory)
    requires ReadyToCreate(k, own, reserved, src, size) && AgreesOnTaken(k.ram, m)
    requires BitmapApart(k.ram.used, src, size, reserved - 1)
    ensures LoadsWithIn(k, m, reserved - 1, src, size) <==> LoadsWith(k, m, src, size)
  {
    hide Isolated, CreateProcess, CreateProcessIn, Agrees, BitmapApart, HoldsImage, SameSpace, FreeBelow, CreateNeed;
    hide AgreesOnTaken;
    ReadyCounts(k, own, reserved, src, size);
    ReadyWithMemory(k, own, reserved, src, size, m);
    CreateSameSpace(WithMemory(k, m), own, reserved, src, size);
    var (k1, k2) := (CreateProcessIn(WithMemory(k, m), reserved - 1, src, size).0,
                     CreateProcess(WithMemory(k, m), src, size).0);
    var d := DirOf(k2.table[FirstFree(k.table, 0)]);
    SameSpaceBack(k2.ram.mem, k1.ram.mem, d);
    if HoldsImage(m, k2.ram.mem, d, src, size) {
      SameImage(m, k2.ram.mem, k1.ram.mem, d, src, size);
    }
    if HoldsImage(m, k1.ram.mem, d, src, size) {
      SameImage(m, k1.ram.mem, k2.ram.mem, d, src, size);
    }
  }

  lemma ReachesTheBits(used: Used, src: nat, size: Word, base: nat) returns (m0: nat)
    requires src % FRAME_SIZE == 0 && !BitmapApart(used, src, size, base)
    ensures m0 < PagesNeeded(size) && src / FRAME_SIZE + m0 == base && CopySize(size, m0) > 4 * (Alloc(used).0 / 8)
  {
    hide PagesNeeded, CopySize, Alloc;
    var n :| 0 <= n < PagesNeeded(size) && CopySize(size, n) >= 0 &&
      !Avoids(src + n * FRAME_SIZE, CopySize(size, n), base, Alloc(used).0 / 8);
    m0 := n;
    var a :| src + n * FRAME_SIZE <= a < src + n * FRAME_SIZE + CopySize(size, n) && a / FRAME_SIZE == base &&
      a % FRAME_SIZE >= 4 * (Alloc(used).0 / 8);
    CopyStaysInModule(size, n);
    PageFrame(src, n);
    InThatFrame(src / FRAME_SIZE + n, a);
    InFrame(a);
  }

  /** A page-aligned module is loaded right, whatever the free frames hold, if and only if none of its pages lies in
      the frame taken for the directory, for a page before it, or for a table made up to it, and none reaches, in the
      frame of the bitmap, the word with the bit of the first free frame. */
  lemma ImageLoadsForAllContentsIff(k: Kernel, own: map<nat, Use>, reserved: nat, src: nat, size: Word)
    requires ReadyToCreate(k, own, reserved, src, size) && src % FRAME_SIZE == 0
    ensures (forall m :: AgreesOnTaken(k.ram, m) ==> LoadsWithIn(k, m, reserved - 1, src, size)) <==>
              ModuleSafe(k.ram.used, src, size) && BitmapApart(k.ram.used, src, size, reserved - 1)
  {
    hide Isolated, CreateProcess, CreateProcessIn, FreeCount, CreateNeed, LoadsWith, LoadsWithIn, BitmapApart;
    hide AgreesOnTaken, Agrees, FreeBelow, ModuleSafe, PagesNeeded, CopySize, HoldsImage;
    ReadyCounts(k, own, reserved, src, size);
    if BitmapApart(k.ram.used, src, size, reserved - 1) {
      LoadsForAllContentsIff(k, own, reserved, src, size);
      forall m | AgreesOnTaken(k.ram, m)
        ensures LoadsWithIn(k, m, reserved - 1, src, size) <==> LoadsWith(k, m, src, size)
      {
        LoadsAlike(k, own, reserved, src, size, m);
      }
    } else {
      var m0 := ReachesTheBits(k.ram.used, src, size, reserved - 1);
      BitmapPageIsLost(k, own, reserved, src, size, m0);
      AsItIs(k, reserved - 1, src, size);
    }
  }

  lemma AsItIs(k: Kernel, base: nat, src: nat, size: Word)
    requires FirstFree(k.table, 0) < MAX_PROCESSES
    ensures AgreesOnTaken(k.ram, k.ram.mem)
    ensures LoadsWithIn(k, k.ram.mem, base, src, size) <==>
              var k' := CreateProcessIn(k, base, src, size).0;
              HoldsImage(k.ram.mem, k'.ram.mem, DirOf(k'.table[FirstFree(k.table, 0)]), src, size)
  {
    hide CreateProcessIn, HoldsImage;
    assert WithMemory(k, k.ram.mem) == k;
  }

  /** A module is loaded right when each of its frames is taken already, or has as many free frames below it as the call
      takes, and none is the frame of the bitmap. */
  lemma OutOfReachLoads(k: Kernel, own: map<nat, Use>, reserved: nat, src: nat, size: Word)
    requires ReadyToCreate(k, own, reserved, src, size) && OutOfReach(k.ram.used, src, size)
    requires forall m, g {:trigger SourceIn(src, size, m, g)} ::
               0 <= m < PagesNeeded(size) && 0 <= g && SourceIn(src, size, m, g) ==> g != reserved - 1
    ensures var (slot, (k', s)) := (FirstFree(k.table, 0), CreateProcessIn(k, reserved - 1, src, size));
            && s == slot && k'.table[slot].state.Ready?
            && HoldsImage(k.ram.mem, k'.ram.mem, DirOf(k'.table[slot]), src, size)
  {
    hide Isolated, CreateProcess, CreateProcessIn, FreeCount, CreateNeed, Agrees, FreeBelow, ModuleSafe, PagesNeeded;
    hide CopySize, HoldsImage, OutOfReach, SourceIn, Avoids;
    ReadyCounts(k, own, reserved, src, size);
    OutOfReachIsSafe(k.ram.used, src, size);
    forall n {:trigger CopySize(size, n)} | 0 <= n < PagesNeeded(size) && CopySize(size, n) >= 0
      ensures Avoids(src + n * FRAME_SIZE, CopySize(size, n), reserved - 1, Alloc(k.ram.used).0 / 8)
    {
      ElsewhereAvoids(src, size, n, reserved - 1, Alloc(k.ram.used).0 / 8);
    }
    LoadsImageInMemory(k, own, reserved, src, size);
  }

  lemma ElsewhereAvoids(src: nat, size: Word, n: nat, base: nat, kept: nat)
    requires CopySize(size, n) >= 0 && !SourceIn(src, size, n, base)
    ensures Avoids(src + n * FRAME_SIZE, CopySize(size, n), base, kept)
  {
    hide CopySize, SourceIn;
    forall a {:trigger a / FRAME_SIZE} | src + n * FRAME_SIZE <= a < src + n * FRAME_SIZE + CopySize(size, n)
      ensures a / FRAME_SIZE != base
    {
      ByteSource(src, size, n, a);
    }
  }
}

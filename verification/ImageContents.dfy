/** What the pages of a loaded image hold. create_process (mem/process.c) copies the module after it has taken
    frames, and nothing keeps the module's own frames from being taken: a page of the module arrives if its
    frames have not been taken by then for something else. */
module ImageContents {
  import opened Machine
  import opened FramePool
  import opened PageTables
  import opened Ownership
  import opened AddingPages
  import opened Bytes
  import opened ImageLoading

  // ---- Where the module lies ----

  /** Frame g holds bytes of page m of the module at src. */
  predicate SourceIn(src: nat, size: Word, m: nat, g: nat) {
    src + m * FRAME_SIZE < (g + 1) * FRAME_SIZE && g * FRAME_SIZE < src + m * FRAME_SIZE + CopySize(size, m)
  }

  /** Allocation j of those that loading makes from page n on comes before page m is copied, and is not the frame
      page m is copied to. That one does no harm when the module is page-aligned: a page may be copied to itself. */
  predicate Precedes(src: nat, n: nat, m: nat, j: nat)
    requires n <= m
  {
    j < LoadNeed(n, m + 1) && (j == LoadNeed(n, m) ==> src % FRAME_SIZE != 0)
  }

  /** No page of the module, from page n on, is in a frame that is taken before it is copied. */
  ghost predicate SourcesSafe(used: Used, src: nat, size: Word, n: nat) {
    forall m, g, j {:trigger SourceIn(src, size, m, g), NthTaken(used, j)} ::
      n <= m < PagesNeeded(size) && 0 <= g && 0 <= j && SourceIn(src, size, m, g) && Precedes(src, n, m, j) ==>
        NthTaken(used, j) != g
  }

  /** Nor is any in a frame of directory d. */
  ghost predicate SourcesForeign(own: map<nat, Use>, d: nat, src: nat, size: Word, n: nat) {
    forall m, g {:trigger SourceIn(src, size, m, g)} ::
      n <= m < PagesNeeded(size) && 0 <= g && SourceIn(src, size, m, g) && g in own ==> own[g].d != d
  }

  function Starts(n: nat): nat { if StartsTable(n) then 1 else 0 }

  lemma {:induction false} NeedSplits(n: nat, m: nat, end: nat)
    requires n <= m <= end
    ensures LoadNeed(n, end) == LoadNeed(n, m) + LoadNeed(m, end)
    decreases m - n
  {
    if n < m {
      NeedSplits(n + 1, m, end);
    }
  }

  lemma NeedOne(n: nat)
    ensures LoadNeed(n, n + 1) == 1 + Starts(n) && LoadNeed(n, n) == 0
  {
  }

  lemma SafeLater(used: Used, src: nat, size: Word, n: nat)
    requires SourcesSafe(used, src, size, n)
    ensures SourcesSafe(Taking(used, 1 + Starts(n)), src, size, n + 1)
  {
    hide StartsTable, PagesNeeded, NthTaken, SourceIn;
    NeedOne(n);
    hide LoadNeed;
    forall m, g, j {:trigger SourceIn(src, size, m, g), NthTaken(Taking(used, 1 + Starts(n)), j)} |
      n + 1 <= m < PagesNeeded(size) && 0 <= g && 0 <= j && SourceIn(src, size, m, g) && Precedes(src, n + 1, m, j)
      ensures NthTaken(Taking(used, 1 + Starts(n)), j) != g
    {
      NeedSplits(n, n + 1, m);
      NeedSplits(n, n + 1, m + 1);
      NthAfter(used, 1 + Starts(n), j);
      assert Precedes(src, n, m, 1 + Starts(n) + j);
    }
  }

  // ---- What one page takes and writes ----

  lemma LoadPagePool(ram: Ram, own: map<nat, Use>, dirs: set<nat>, d: nat, src: nat, size: Word, n: nat)
    requires LoadingAt(ram, own, dirs, d, n) && n < PagesNeeded(size) && TablesUpTo(ram.mem, d, n)
    requires FreeCount(ram.used) > Starts(n)
    ensures LoadPage(ram, d, src, size, n).ram.used == Taking(ram.used, 1 + Starts(n))
  {
    hide Present, FrameOf, LargePage, Pte, Alloc, Entry, Separated, CopySize, Ti, FreeCount, PagesNeeded, LoadPage,
      InstallTable;
    SeparatedFrames(ram, own, dirs, 0);
    AllocTakesLowest(ram.used);
    AllocTakesLowest(Alloc(ram.used).1);
    PagePosition(n);
    LoadPageAdds(ram, d, src, size, n);
    assert Taking(ram.used, 2) == Alloc(Alloc(ram.used).1).1 && Taking(ram.used, 1) == Alloc(ram.used).1;
  }

  /** Whether page n needs a new table is decided by its number. */
  lemma TableThere(ram: Ram, own: map<nat, Use>, dirs: set<nat>, d: nat, n: nat)
    requires LoadingAt(ram, own, dirs, d, n) && n < TOTAL_FRAMES && TablesUpTo(ram.mem, d, n) && Alloc(ram.used).0 != 0
    ensures Present(Pde(ram.mem, d, Di(n))) <==> !StartsTable(n)
    ensures Separated(Allocated(ram, ram.mem), own, dirs) && Alloc(ram.used).0 !in own
  {
    hide Present, Alloc, Pde, Di, StartsTable, FreeCount, PagesApart;
    PagePosition(n);
    AllocTakesLowest(ram.used);
    TakenKeeps(ram, own, dirs, ram.mem);
  }

  lemma LoadPageLeaves(ram: Ram, own: map<nat, Use>, dirs: set<nat>, d: nat, src: nat, size: Word, n: nat, g: nat)
    requires LoadingAt(ram, own, dirs, d, n) && n < PagesNeeded(size) && TablesUpTo(ram.mem, d, n)
    requires FreeCount(ram.used) > Starts(n) && g < TOTAL_FRAMES && (g in own ==> own[g].d != d)
    requires g != NthTaken(ram.used, 0) && (StartsTable(n) ==> g != NthTaken(ram.used, 1))
    ensures LoadPage(ram, d, src, size, n).ram.mem[g] == ram.mem[g]
  {
    hide Present, Alloc, Pde, Di, Ti, StartsTable, FreeCount, PagesNeeded, Separated, MapPage, LoadPage,
      FillPage, Entry;
    hide CopySize, TablesUpTo;
    SeparatedFrames(ram, own, dirs, 0);
    AllocTakesLowest(ram.used);
    PagePosition(n);
    TiBound(n);
    TableThere(ram, own, dirs, d, n);
    LoadPageAdds(ram, d, src, size, n);
    var f := Alloc(ram.used).0;
    SeparatedTables(Allocated(ram, ram.mem), own, dirs);
    assert NthTaken(ram.used, 1) == Alloc(Alloc(ram.used).1).0;
    MapPageLeaves(Allocated(ram, ram.mem), own, dirs, d, Di(n), Ti(n), Entry(f, 7), g);
    FillPageFrame(MapPage(Allocated(ram, ram.mem), d, Di(n), Ti(n), Entry(f, 7)).mem, f, src + n * FRAME_SIZE,
                  CopySize(size, n), g);
  }

  lemma SeparatedTables(ram: Ram, own: map<nat, Use>, dirs: set<nat>)
    requires Separated(ram, own, dirs)
    ensures TablesApart(ram, own, dirs)
  {
  }

  /** The lines page n adds to the ledger. */
  lemma NewLines(ram: Ram, own: map<nat, Use>, dirs: set<nat>, d: nat, n: nat, g: nat)
    requires LoadingAt(ram, own, dirs, d, n) && n < TOTAL_FRAMES && TablesUpTo(ram.mem, d, n) && Alloc(ram.used).0 != 0
    requires g in AddOwn(ram, own, d, Di(n), Ti(n), ram.mem)
    ensures var own' := AddOwn(ram, own, d, Di(n), Ti(n), ram.mem);
            || (g in own && own'[g] == own[g])
            || g == NthTaken(ram.used, 0) || (StartsTable(n) && g == NthTaken(ram.used, 1))
  {
    hide Present, Alloc, Pde, Di, Ti, StartsTable, FreeCount, Separated, TablesUpTo;
    TableThere(ram, own, dirs, d, n);
    assert NthTaken(ram.used, 1) == Alloc(Alloc(ram.used).1).0;
  }

  // ---- The bytes of one page ----

  /** Page n of the image is in place: bytes of the module as they are in m, then zeros. */
  ghost predicate HasImagePage(m: Memory, m': Memory, d: nat, src: nat, size: Word, n: nat) {
    && MapsPage(m', d, n)
    && forall k {:trigger FrameByte(ReadFrame(m', FrameOf(Pte(m', d, Di(n), Ti(n)))), k)} :: 0 <= k < FRAME_SIZE ==>
         FrameByte(ReadFrame(m', FrameOf(Pte(m', d, Di(n), Ti(n)))), k) ==
         if n * FRAME_SIZE + k < size then LoadByte(m, src + (n * FRAME_SIZE + k)) else 0
  }

  /** A page apart from the frame it is copied to, or in just that frame. */
  lemma FilledByte(m: Memory, f: nat, src: nat, count: nat, k: nat)
    requires count <= FRAME_SIZE && f < TOTAL_FRAMES && k < FRAME_SIZE
    requires src + count <= f * FRAME_SIZE || (f + 1) * FRAME_SIZE <= src || src == f * FRAME_SIZE
    ensures FrameByte(FillPage(m, f, src, count)[f], k) == if k < count then LoadByte(m, src + k) else 0
  {
    hide CopyBytes, SetBytes, LoadByte, FrameByte;
    if src == f * FRAME_SIZE {
      CopyOntoItself(m, src, count);
      SetBytesAt(m, src + count, 0, FRAME_SIZE - count, src + k);
      ByteInFrame(FillPage(m, f, src, count), f, k);
    } else {
      FillPageByte(m, f, src, count, k);
    }
  }

  lemma FrameOfByte(a: nat)
    ensures a / FRAME_SIZE * FRAME_SIZE <= a < (a / FRAME_SIZE + 1) * FRAME_SIZE
  {
  }

  lemma ByteSource(src: nat, size: Word, n: nat, a: nat)
    requires src + n * FRAME_SIZE <= a < src + n * FRAME_SIZE + CopySize(size, n)
    ensures SourceIn(src, size, n, a / FRAME_SIZE)
  {
    FrameOfByte(a);
  }

  lemma SameByteOfFrame(m: Memory, m': Memory, a: nat)
    requires a < MEMORY_SIZE && m'[a / FRAME_SIZE] == m[a / FRAME_SIZE]
    ensures LoadByte(m', a) == LoadByte(m, a)
  {
    hide ByteOf;
  }

  ghost predicate LoadingSafely(ram: Ram, own: map<nat, Use>, dirs: set<nat>, d: nat, src: nat, size: Word, n: nat) {
    && LoadingAt(ram, own, dirs, d, n) && TablesUpTo(ram.mem, d, n) && src + size <= MEMORY_SIZE
    && SourcesSafe(ram.used, src, size, n) && SourcesForeign(own, d, src, size, n)
    && FreeCount(ram.used) >= LoadNeed(n, PagesNeeded(size))
  }

  lemma EnoughForOne(n: nat, end: nat)
    requires n < end
    ensures LoadNeed(n, end) == 1 + Starts(n) + LoadNeed(n + 1, end)
  {
  }

  /** The source of page n is where it may be read: apart from the frame taken for it, or equal to it. */
  lemma SourceApart(used: Used, src: nat, size: Word, n: nat, count: nat)
    requires n < PagesNeeded(size) && SourcesSafe(used, src, size, n) && count == CopySize(size, n)
    ensures var at, f := src + n * FRAME_SIZE, NthTaken(used, 0);
            at + count <= f * FRAME_SIZE || (f + 1) * FRAME_SIZE <= at || at == f * FRAME_SIZE
  {
    hide PagesNeeded, CopySize, NthTaken;
    NeedOne(n);
    CopyStaysInModule(size, n);
    var at, f := src + n * FRAME_SIZE, NthTaken(used, 0);
    if SourceIn(src, size, n, f) {
      assert !Precedes(src, n, n, 0);
      assert src % FRAME_SIZE == 0;
      AlignedSource(src, n, f, count);
    }
  }

  lemma AlignedSource(src: nat, n: nat, f: nat, count: nat)
    requires src % FRAME_SIZE == 0 && count <= FRAME_SIZE
    requires src + n * FRAME_SIZE < (f + 1) * FRAME_SIZE && f * FRAME_SIZE < src + n * FRAME_SIZE + count
    ensures src + n * FRAME_SIZE == f * FRAME_SIZE
  {
    assert src == FRAME_SIZE * (src / FRAME_SIZE);
  }

  lemma SourceByteMapped(ram: Ram, own: map<nat, Use>, dirs: set<nat>, d: nat, src: nat, size: Word, n: nat, a: nat)
    requires LoadingSafely(ram, own, dirs, d, src, size, n) && n < PagesNeeded(size)
    requires src + n * FRAME_SIZE <= a < src + n * FRAME_SIZE + CopySize(size, n) && a < MEMORY_SIZE
    ensures LoadByte(MapPage(Allocated(ram, ram.mem), d, Di(n), Ti(n), Entry(Alloc(ram.used).0, 7)).mem, a) ==
              LoadByte(ram.mem, a)
  {
    hide Present, Alloc, Pde, Di, Ti, StartsTable, FreeCount, PagesNeeded, Separated, MapPage, Entry, CopySize,
      TablesUpTo;
    hide LoadByte, LoadNeed, SourceIn;
    EnoughForOne(n, PagesNeeded(size));
    SeparatedFrames(ram, own, dirs, 0);
    AllocTakesLowest(ram.used);
    PagePosition(n);
    TiBound(n);
    TableThere(ram, own, dirs, d, n);
    SeparatedTables(Allocated(ram, ram.mem), own, dirs);
    assert NthTaken(ram.used, 1) == Alloc(Alloc(ram.used).1).0;
    ByteSource(src, size, n, a);
    NeedOne(n);
    assert StartsTable(n) ==> Precedes(src, n, n, 1);
    var m1 := MapPage(Allocated(ram, ram.mem), d, Di(n), Ti(n), Entry(Alloc(ram.used).0, 7)).mem;
    MapPageLeaves(Allocated(ram, ram.mem), own, dirs, d, Di(n), Ti(n), Entry(Alloc(ram.used).0, 7), a / FRAME_SIZE);
    SameByteOfFrame(ram.mem, m1, a);
  }

  lemma LoadPageBytes(ram: Ram, own: map<nat, Use>, dirs: set<nat>, d: nat, src: nat, size: Word, n: nat)
    requires LoadingSafely(ram, own, dirs, d, src, size, n) && n < PagesNeeded(size)
    ensures HasImagePage(ram.mem, LoadPage(ram, d, src, size, n).ram.mem, d, src, size, n)
  {
    hide FrameOf, LargePage, Pde, Pte, Alloc, Entry, AddsPage, Separated, HasTable, AddOwn, Di, Ti, FreeCount;
    hide LoadPage, FillPage, LoadByte, StartsTable, LoadNeed, SourcesSafe, SourcesForeign, TablesUpTo, MapPage,
      FrameByte;
    EnoughForOne(n, PagesNeeded(size));
    SeparatedFrames(ram, own, dirs, 0);
    AllocTakesLowest(ram.used);
    LoadPageAdds(ram, d, src, size, n);
    LoadPageEffect(ram, own, dirs, d, src, size, n);
    CopyStaysInModule(size, n);
    SourceApart(ram.used, src, size, n, CopySize(size, n));
    var f, r := Alloc(ram.used).0, LoadPage(ram, d, src, size, n).ram;
    EntryMaps(r.mem, d, n, f);
    var m1 := MapPage(Allocated(ram, ram.mem), d, Di(n), Ti(n), Entry(f, 7)).mem;
    forall k | 0 <= k < FRAME_SIZE
      ensures FrameByte(r.mem[f], k) == if n * FRAME_SIZE + k < size then
                LoadByte(ram.mem, src + (n * FRAME_SIZE + k)) else 0
    {
      FilledByte(m1, f, src + n * FRAME_SIZE, CopySize(size, n), k);
      if n * FRAME_SIZE + k < size {
        SourceByteMapped(ram, own, dirs, d, src, size, n, src + (n * FRAME_SIZE + k));
      }
    }
  }

  // ---- All pages ----

  lemma LaterSource(used: Used, src: nat, size: Word, n: nat, m: nat, g: nat)
    requires SourcesSafe(used, src, size, n) && n < m < PagesNeeded(size) && SourceIn(src, size, m, g)
    ensures g != NthTaken(used, 0) && (StartsTable(n) ==> g != NthTaken(used, 1))
  {
    hide PagesNeeded, StartsTable, NthTaken, SourceIn;
    NeedSplits(n, n + 1, m);
    NeedOne(n);
    NeedSplits(n, m, m + 1);
    NeedOne(m);
    hide LoadNeed;
    assert Precedes(src, n, m, 0) && (StartsTable(n) ==> Precedes(src, n, m, 1));
  }

  /** Loading page n leaves the pages still to come where they are. */
  lemma SourcesStay(ram: Ram, own: map<nat, Use>, dirs: set<nat>, d: nat, src: nat, size: Word, n: nat)
    returns (own': map<nat, Use>)
    requires LoadingSafely(ram, own, dirs, d, src, size, n) && n < PagesNeeded(size)
    ensures var r := LoadPage(ram, d, src, size, n);
            && r.Loaded? && LoadingSafely(r.ram, own', dirs, d, src, size, n + 1)
            && Separated(r.ram, own', dirs) && d in dirs
            && forall m, a {:trigger LoadByte(r.ram.mem, a), CopySize(size, m)} ::
                 n < m < PagesNeeded(size) && src + m * FRAME_SIZE <= a < src + m * FRAME_SIZE + CopySize(size, m)
                   && a < MEMORY_SIZE ==>
                   LoadByte(r.ram.mem, a) == LoadByte(ram.mem, a)
  {
    hide Present, Alloc, Pde, Pte, Di, Ti, StartsTable, FreeCount, PagesNeeded, Separated, LoadPage, Entry, CopySize,
      TablesUpTo;
    hide LoadByte, LoadNeed, SourceIn, SourcesSafe, AddOwn, NthTaken, SameOutside;
    EnoughForOne(n, PagesNeeded(size));
    own' := LoadPageKeeps(ram, own, dirs, d, src, size, n);
    LoadPageEffect(ram, own, dirs, d, src, size, n);
    LoadPagePool(ram, own, dirs, d, src, size, n);
    SafeLater(ram.used, src, size, n);
    LaterSourcesForeign(ram, own, dirs, d, src, size, n);
    var r := LoadPage(ram, d, src, size, n).ram;
    forall m, a | n < m < PagesNeeded(size) && src + m * FRAME_SIZE <= a < src + m * FRAME_SIZE + CopySize(size, m)
      && a < MEMORY_SIZE
      ensures LoadByte(r.mem, a) == LoadByte(ram.mem, a)
    {
      ByteSource(src, size, m, a);
      LaterSource(ram.used, src, size, n, m, a / FRAME_SIZE);
      LoadPageLeaves(ram, own, dirs, d, src, size, n, a / FRAME_SIZE);
      SameByteOfFrame(ram.mem, r.mem, a);
    }
  }

  lemma LaterSourcesForeign(ram: Ram, own: map<nat, Use>, dirs: set<nat>, d: nat, src: nat, size: Word, n: nat)
    requires LoadingSafely(ram, own, dirs, d, src, size, n) && n < PagesNeeded(size)
    ensures SourcesForeign(AddOwn(ram, own, d, Di(n), Ti(n), ram.mem), d, src, size, n + 1)
  {
    hide Present, Alloc, Pde, Pte, Di, Ti, StartsTable, FreeCount, PagesNeeded, Separated, Entry, CopySize, TablesUpTo;
    hide LoadNeed, SourceIn, SourcesSafe, AddOwn, NthTaken;
    EnoughForOne(n, PagesNeeded(size));
    SeparatedFrames(ram, own, dirs, 0);
    AllocTakesLowest(ram.used);
    var own' := AddOwn(ram, own, d, Di(n), Ti(n), ram.mem);
    forall m, g {:trigger SourceIn(src, size, m, g)} |
      n + 1 <= m < PagesNeeded(size) && 0 <= g && SourceIn(src, size, m, g) && g in own'
      ensures own'[g].d != d
    {
      LaterSource(ram.used, src, size, n, m, g);
      NewLines(ram, own, dirs, d, n, g);
    }
  }

  lemma ImagePageStays(m: Memory, r1: Ram, own1: map<nat, Use>, r: Ram, dirs: set<nat>, d: nat, src: nat, size: Word,
                       n: nat)
    requires Separated(r1, own1, dirs) && Preserved(r1, own1, r, d) && d in dirs && Di(n) < KERNEL_PDT_IDX
    requires Pte(r.mem, d, Di(n), Ti(n)) == Pte(r1.mem, d, Di(n), Ti(n))
    requires HasImagePage(m, r1.mem, d, src, size, n)
    ensures HasImagePage(m, r.mem, d, src, size, n)
  {
    hide Present, FrameOf, FlagsOf, Pte, Separated, FrameByte, LoadByte, Di, Ti;
    TiBound(n);
    PageStays(r1, own1, r, dirs, d, Di(n), Ti(n));
  }

  lemma ImagePageFrom(m: Memory, m1: Memory, m': Memory, d: nat, src: nat, size: Word, n: nat)
    requires n < PagesNeeded(size) && HasImagePage(m1, m', d, src, size, n)
    requires forall a {:trigger LoadByte(m1, a)} ::
               src + n * FRAME_SIZE <= a < src + n * FRAME_SIZE + CopySize(size, n) ==>
                 LoadByte(m1, a) == LoadByte(m, a)
    ensures HasImagePage(m, m', d, src, size, n)
  {
    hide FrameByte, LoadByte, Di, Ti, MapsPage, FrameOf, Pte;
    CopyStaysInModule(size, n);
  }

  /** With frames enough and the sources safe, the module is loaded page for page, each with the bytes it had before
      loading began. */
  lemma {:induction false} LoadPagesImage(ram: Ram, own: map<nat, Use>, dirs: set<nat>, d: nat, src: nat, size: Word,
                                          n: nat)
    requires LoadingSafely(ram, own, dirs, d, src, size, n) && n <= PagesNeeded(size)
    ensures var r := LoadPages(ram, d, src, size, n);
            && r.Loaded? && FreeCount(r.ram.used) == FreeCount(ram.used) - LoadNeed(n, PagesNeeded(size))
            && forall n' :: n <= n' < PagesNeeded(size) ==> HasImagePage(ram.mem, r.ram.mem, d, src, size, n')
    decreases PagesNeeded(size) - n
  {
    hide Present, Pde, Pte, LoadPage, Separated, FreeCount, PagesNeeded, HasImagePage, Di, Ti, Alloc, TablesUpTo,
      CopySize;
    hide Entry, LoadByte, StartsTable, SourcesSafe, SourcesForeign, Starts, LoadNeed;
    LoadPagesMaps(ram, own, dirs, d, src, size, n);
    if n < PagesNeeded(size) {
      LoadPageBytes(ram, own, dirs, d, src, size, n);
      var own1 := SourcesStay(ram, own, dirs, d, src, size, n);
      var r1 := LoadPage(ram, d, src, size, n).ram;
      LoadPagesImage(r1, own1, dirs, d, src, size, n + 1);
      var own' := LoadPagesKeeps(r1, own1, dirs, d, src, size, n + 1);
      var r := LoadPages(r1, d, src, size, n + 1).ram;
      PagePosition(n);
      MappedStays(r1.mem, r.mem, d, n, PagesNeeded(size));
      ImagePageStays(ram.mem, r1, own1, r, dirs, d, src, size, n);
      forall n' | n < n' < PagesNeeded(size)
        ensures HasImagePage(ram.mem, r.mem, d, src, size, n')
      {
        SourceInModule(src, size, n');
        ImagePageFrom(ram.mem, r1.mem, r.mem, d, src, size, n');
      }
    }
  }

  lemma SourceInModule(src: nat, size: Word, n: nat)
    requires n < PagesNeeded(size)
    ensures n * FRAME_SIZE + CopySize(size, n) <= size
  {
    CopyStaysInModule(size, n);
  }
}

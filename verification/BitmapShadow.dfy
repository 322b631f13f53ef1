/** Page-table work with the bitmap in memory does what it does with the bitmap apart, as long as a frame whose bit
    lies in the reserved frame is free: the same frames are taken, and memory is the same outside the frame of the
    bitmap. */
module BitmapShadow {
  import opened Machine
  import opened Bytes
  import opened FramePool
  import opened PageTables
  import opened Ownership
  import opened AddingPages
  import opened ForkCopy
  import opened ImageLoading
  import opened ImageContents
  import opened Translation
  import opened BitmapInMemory
  import opened KernelInMemory

  /** The same memory outside frame base, and the same first words in it. */
  ghost predicate Alike(m: Memory, m': Memory, base: nat, kept: nat)
    requires base < TOTAL_FRAMES
  {
    DiffersOnlyAt(m, m', base) && forall k :: 0 <= k < kept && k < FRAME_WORDS ==> m'[base][k] == m[base][k]
  }

  /** Memory m holds the pool as a bitmap in frame base. The first kept words there are bits of frames that are
      taken, and never change. */
  ghost predicate Shadows(m: Memory, base: nat, kept: nat, ram: Ram) {
    && base < TOTAL_FRAMES && ram.used[base] && ram.used[0]
    && Alike(ram.mem, m, base, kept) && Agrees(m, base, ram.used)
    && forall f :: 0 <= f < 8 * kept && f < TOTAL_FRAMES ==> ram.used[f]
  }

  // ---- What is taken stays taken ----

  ghost predicate StaysTaken(used: Used, used': Used) {
    forall g :: 0 <= g < TOTAL_FRAMES && used[g] ==> used'[g]
  }

  lemma StillCovered(used: Used, used': Used)
    requires StaysTaken(used, used') && CoveredFree(used')
    ensures CoveredFree(used)
  {
    var f :| 0 <= f < COVERED && !used'[f];
    assert !used[f];
  }

  lemma EnsureTableTakes(ram: Ram, d: nat, i: nat)
    ensures StaysTaken(ram.used, EnsureTable(ram, d, i).used)
  {
    hide Present, Pde, InstallTable;
  }

  lemma MapPageTakes(ram: Ram, d: nat, i: nat, j: nat, e: Word)
    ensures MapPage(ram, d, i, j, e).used == EnsureTable(ram, d, i).used
    ensures StaysTaken(ram.used, MapPage(ram, d, i, j, e).used)
  {
    hide Present, Pde, EnsureTable, FrameOf;
    EnsureTableTakes(ram, d, i);
  }

  lemma LoadPageTakes(ram: Ram, d: nat, src: nat, size: Word, n: nat)
    requires n < PagesNeeded(size)
    ensures StaysTaken(ram.used, Alloc(ram.used).1)
    ensures StaysTaken(Alloc(ram.used).1, LoadPage(ram, d, src, size, n).ram.used)
  {
    hide MapPage, PagesNeeded, FillPage, CopySize, PageAddress, DirIndex, TabIndex, Entry;
    var v := PageAddress(n);
    var f := Alloc(ram.used).0;
    MapPageTakes(Allocated(ram, ram.mem), d, DirIndex(v), TabIndex(v), Entry(f, 7));
  }

  lemma {:induction false} LoadPagesTake(ram: Ram, d: nat, src: nat, size: Word, n: nat)
    requires n <= PagesNeeded(size)
    ensures StaysTaken(ram.used, LoadPages(ram, d, src, size, n).ram.used)
    decreases PagesNeeded(size) - n
  {
    hide PagesNeeded, LoadPage;
    if n < PagesNeeded(size) {
      LoadPageTakes(ram, d, src, size, n);
      if LoadPage(ram, d, src, size, n).Loaded? {
        LoadPagesTake(LoadPage(ram, d, src, size, n).ram, d, src, size, n + 1);
      }
    }
  }

  lemma CopyPageTakes(ram: Ram, t: nat, c: nat, i: nat, j: nat)
    ensures StaysTaken(ram.used, Alloc(ram.used).1)
    ensures StaysTaken(Alloc(ram.used).1, CopyPage(ram, t, c, i, j).ram.used)
  {
    hide MapPage, CopyFrame, Entry;
    var f := Alloc(ram.used).0;
    var m1 := CopyFrame(ram.mem, t, j, f);
    MapPageTakes(Allocated(ram, m1), c, i, j, Entry(f, FlagsOf(ReadWord(m1, t, j))));
  }

  lemma {:induction false} CopyTableTakes(ram: Ram, t: nat, c: nat, i: nat, j: nat)
    requires j <= ENTRIES
    ensures StaysTaken(ram.used, CopyTable(ram, t, c, i, j).ram.used)
    decreases ENTRIES - j
  {
    hide CopyPage, Present;
    if j < ENTRIES {
      CopyPageTakes(ram, t, c, i, j);
      CopyTableTakes(if Present(ReadWord(ram.mem, t, j)) then CopyPage(ram, t, c, i, j).ram else ram, t, c, i, j + 1);
    }
  }

  lemma {:induction false} CopySpaceTakes(ram: Ram, p: nat, c: nat, i: nat)
    requires i <= KERNEL_PDT_IDX
    ensures StaysTaken(ram.used, CopySpace(ram, p, c, i).ram.used)
    decreases KERNEL_PDT_IDX - i
  {
    hide CopyTable, Present;
    if i < KERNEL_PDT_IDX {
      var t := FrameOf(Pde(ram.mem, p, i));
      CopyTableTakes(ram, t, c, i, 0);
      CopySpaceTakes(if Present(Pde(ram.mem, p, i)) then CopyTable(ram, t, c, i, 0).ram else ram, p, c, i + 1);
    }
  }

  // ---- One allocation, one write ----

  lemma SameBitmap(m: Memory, m': Memory, base: nat, used: Used)
    requires base < TOTAL_FRAMES && m'[base] == m[base] && Agrees(m, base, used)
    ensures Agrees(m', base, used)
  {
    hide BitSet;
    forall f | 0 <= f < COVERED
      ensures Taken(m', base, f) == Taken(m, base, f)
    {
      SamePlace(f, f);
      assert BitFrame(base, f) == base;
    }
  }

  lemma AllocPlace(m: Memory, base: nat, used: Used)
    requires base < TOTAL_FRAMES && Agrees(m, base, used) && CoveredFree(used)
    ensures var (f, m') := AllocInMemory(m, base);
            && f == Alloc(used).0 < COVERED && !used[f] && Agrees(m', base, Alloc(used).1)
            && DiffersOnlyAt(m, m', base)
            && forall k :: 0 <= k < FRAME_WORDS && k != f / 8 ==> m'[base][k] == m[base][k]
  {
    hide Taken, WithBit, Agrees, FirstClear;
    MemoryBitmapIsThePool(m, base, used);
    assert Agrees(m, base, used) ==> FirstClear(m, base, 0) == LowestFree(used, 0) < COVERED by {
      FirstIsLowest(m, base, used);
    }
  }

  lemma AllocShadow(m: Memory, base: nat, kept: nat, ram: Ram)
    requires Shadows(m, base, kept, ram) && CoveredFree(ram.used)
    ensures var (f, m') := AllocInMemory(m, base);
            && f == Alloc(ram.used).0 && 0 < f < TOTAL_FRAMES && f != base && !ram.used[f]
            && Shadows(m', base, kept, Ram(ram.mem, Alloc(ram.used).1))
  {
    hide AllocInMemory, Agrees, CoveredFree, FreeCount;
    AllocPlace(m, base, ram.used);
    AllocTakesLowest(ram.used);
    var f := Alloc(ram.used).0;
    assert f >= 8 * kept;
  }

  /** The same write to both, outside frame base. */
  lemma WriteShadow(m: Memory, base: nat, kept: nat, ram: Ram, m': Memory, mem': Memory)
    requires Shadows(m, base, kept, ram) && m'[base] == m[base] && mem'[base] == ram.mem[base]
    requires DiffersOnlyAt(mem', m', base)
    ensures Shadows(m', base, kept, Ram(mem', ram.used))
  {
    hide Agrees;
    SameBitmap(m, m', base, ram.used);
  }

  lemma SameReads(m: Memory, m': Memory, base: nat, g: nat, k: nat)
    requires DiffersOnlyAt(m, m', base) && g != base
    ensures ReadWord(m', g, k) == ReadWord(m, g, k) && ReadFrame(m', g) == ReadFrame(m, g)
  {
  }

  lemma SamePtes(m: Memory, m': Memory, base: nat, d: nat, i: nat, j: nat)
    requires DiffersOnlyAt(m, m', base) && d != base && (Present(Pde(m, d, i)) ==> FrameOf(Pde(m, d, i)) != base)
    ensures Pde(m', d, i) == Pde(m, d, i) && Pte(m', d, i, j) == Pte(m, d, i, j)
  {
    hide Present, FrameOf;
    SameReads(m, m', base, d, i);
    if Present(Pde(m, d, i)) {
      SameReads(m, m', base, FrameOf(Pde(m, d, i)), j);
    }
  }

  // ---- map_page ----

  lemma EnsureTableShadow(m: Memory, base: nat, kept: nat, ram: Ram, d: nat, i: nat)
    requires Shadows(m, base, kept, ram) && d < TOTAL_FRAMES && d != base
    requires Present(Pde(ram.mem, d, i)) || CoveredFree(ram.used)
    ensures Shadows(EnsureTableIn(m, base, d, i), base, kept, EnsureTable(ram, d, i))
  {
    hide Present, AllocInMemory, Agrees, Entry, Alloc, CoveredFree;
    SameReads(ram.mem, m, base, d, i);
    if !Present(Pde(ram.mem, d, i)) {
      AllocShadow(m, base, kept, ram);
      var (t, m1) := AllocInMemory(m, base);
      WriteShadow(m1, base, kept, Ram(ram.mem, Alloc(ram.used).1), InstallTable(m1, t, d, i),
                  InstallTable(ram.mem, t, d, i));
    }
  }

  lemma NoTableTaken(ram: Ram, own: map<nat, Use>, d: nat, i: nat, base: nat)
    requires ram.used[0] && base < TOTAL_FRAMES && ram.used[base] && base !in own
    ensures base !in OwnTable(ram, own, d, i)
  {
    hide Present, Pde, FreeCount;
    AllocTakesLowest(ram.used);
  }

  lemma MapPageShadow(m: Memory, base: nat, kept: nat, ram: Ram, own: map<nat, Use>, dirs: set<nat>, d: nat, i: nat,
                      j: nat, e: Word)
    requires Shadows(m, base, kept, ram) && TablesApart(ram, own, dirs) && base !in own && d in dirs
    requires i < KERNEL_PDT_IDX && j < ENTRIES && (Present(Pde(ram.mem, d, i)) || CoveredFree(ram.used))
    ensures Shadows(MapPageIn(m, base, d, i, j, e), base, kept, MapPage(ram, d, i, j, e))
  {
    hide Present, FrameOf, Agrees, CoveredFree, EnsureTable, EnsureTableIn, Pde, OwnTable, TableApart;
    EnsureTableShadow(m, base, kept, ram, d, i);
    EnsureTableKeeps(ram, own, dirs, d, i);
    NoTableTaken(ram, own, d, i, base);
    var r, r' := EnsureTable(ram, d, i), EnsureTableIn(m, base, d, i);
    SamePde(r.mem, r', base, d, i);
    if Present(Pde(r.mem, d, i)) {
      TableOf(r, OwnTable(ram, own, d, i), dirs, d, i);
      var t := FrameOf(Pde(r.mem, d, i));
      WriteShadow(r', base, kept, r, WriteWord(r', t, j, e), WriteWord(r.mem, t, j, e));
    }
  }

  lemma SamePde(m: Memory, m': Memory, base: nat, d: nat, i: nat)
    requires DiffersOnlyAt(m, m', base) && d != base
    ensures Pde(m', d, i) == Pde(m, d, i)
  {
  }

  lemma CreateDirectoryShadow(m: Memory, base: nat, kept: nat, ram: Ram, kdir: Frame)
    requires Shadows(m, base, kept, ram) && CoveredFree(ram.used)
    ensures var (made', made) := (CreateDirectoryIn(m, base, kdir), CreateDirectory(ram, kdir));
            made'.0 == made.0 != 0 && Shadows(made'.1, base, kept, made.1)
  {
    hide AllocInMemory, Agrees, Alloc, CoveredFree;
    AllocShadow(m, base, kept, ram);
    var (d, m1) := AllocInMemory(m, base);
    var fr := ZeroFrame()[..KERNEL_PDT_IDX] + kdir[KERNEL_PDT_IDX..];
    WriteShadow(m1, base, kept, Ram(ram.mem, Alloc(ram.used).1), WriteFrame(m1, d, fr), WriteFrame(ram.mem, d, fr));
  }

  // ---- Copies of bytes ----

  lemma SameLoad(m: Memory, m': Memory, base: nat, kept: nat, a: nat)
    requires base < TOTAL_FRAMES && Alike(m, m', base, kept)
    requires a / FRAME_SIZE == base ==> a % FRAME_SIZE < 4 * kept
    ensures LoadByte(m', a) == LoadByte(m, a)
  {
    hide ByteOf;
    InWord(a % FRAME_SIZE);
  }

  lemma StoreAlike(m: Memory, m': Memory, base: nat, kept: nat, a: nat, b: Byte)
    requires base < TOTAL_FRAMES && Alike(m, m', base, kept) && a / FRAME_SIZE != base
    ensures Alike(StoreByte(m, a, b), StoreByte(m', a, b), base, kept)
    ensures StoreByte(m, a, b)[base] == m[base] && StoreByte(m', a, b)[base] == m'[base]
  {
    hide WithByte;
  }

  /** No byte from src on is in frame base, except in its first words. */
  ghost predicate Avoids(src: nat, count: nat, base: nat, kept: nat) {
    forall a {:trigger a / FRAME_SIZE} :: src <= a < src + count && a / FRAME_SIZE == base ==> a % FRAME_SIZE < 4 * kept
  }

  lemma {:induction false} CopyAlike(m: Memory, m': Memory, base: nat, kept: nat, f: nat, dest: nat, src: nat,
                                     count: nat)
    requires base < TOTAL_FRAMES && Alike(m, m', base, kept) && Avoids(src, count, base, kept) && f != base
    requires f * FRAME_SIZE <= dest && dest + count <= (f + 1) * FRAME_SIZE
    ensures Alike(CopyBytes(m, dest, src, count), CopyBytes(m', dest, src, count), base, kept)
    ensures CopyBytes(m, dest, src, count)[base] == m[base] && CopyBytes(m', dest, src, count)[base] == m'[base]
  {
    hide LoadByte, StoreByte, Alike;
    if count > 0 {
      CopyAlike(m, m', base, kept, f, dest, src, count - 1);
      var (m1, m2) := (CopyBytes(m, dest, src, count - 1), CopyBytes(m', dest, src, count - 1));
      SameLoad(m1, m2, base, kept, src + count - 1);
      InThatFrame(f, dest + count - 1);
      StoreAlike(m1, m2, base, kept, dest + count - 1, LoadByte(m1, src + count - 1));
    }
  }

  lemma InThatFrame(f: nat, a: nat)
    requires f * FRAME_SIZE <= a < (f + 1) * FRAME_SIZE
    ensures a / FRAME_SIZE == f
  {
    FrameParts(a, f, a - f * FRAME_SIZE);
  }

  lemma {:induction false} SetAlike(m: Memory, m': Memory, base: nat, kept: nat, f: nat, dest: nat, b: Byte, count: nat)
    requires base < TOTAL_FRAMES && Alike(m, m', base, kept) && f != base
    requires f * FRAME_SIZE <= dest && dest + count <= (f + 1) * FRAME_SIZE
    ensures Alike(SetBytes(m, dest, b, count), SetBytes(m', dest, b, count), base, kept)
    ensures SetBytes(m, dest, b, count)[base] == m[base] && SetBytes(m', dest, b, count)[base] == m'[base]
  {
    hide StoreByte, Alike;
    if count > 0 {
      SetAlike(m, m', base, kept, f, dest, b, count - 1);
      InThatFrame(f, dest + count - 1);
      StoreAlike(SetBytes(m, dest, b, count - 1), SetBytes(m', dest, b, count - 1), base, kept, dest + count - 1, b);
    }
  }

  lemma FillAlike(m: Memory, m': Memory, base: nat, kept: nat, f: nat, src: nat, count: nat)
    requires base < TOTAL_FRAMES && Alike(m, m', base, kept) && f != base && count <= FRAME_SIZE
    requires Avoids(src, count, base, kept)
    ensures Alike(FillPage(m, f, src, count), FillPage(m', f, src, count), base, kept)
    ensures FillPage(m, f, src, count)[base] == m[base] && FillPage(m', f, src, count)[base] == m'[base]
  {
    hide CopyBytes, SetBytes, Alike, Avoids;
    CopyAlike(m, m', base, kept, f, f * FRAME_SIZE, src, count);
    SetAlike(CopyBytes(m, f * FRAME_SIZE, src, count), CopyBytes(m', f * FRAME_SIZE, src, count), base, kept, f,
             f * FRAME_SIZE + count, 0, FRAME_SIZE - count);
  }

  // ---- The loading loop ----

  /** A frame that is taken and nobody's stays so. */
  lemma StillNobodys(ram: Ram, own: map<nat, Use>, ram': Ram, own': map<nat, Use>, c: nat, base: nat)
    requires Advances(ram, own, ram', own', c) && base < TOTAL_FRAMES && ram.used[base] && base !in own
    ensures base !in own' && ram'.used[base] && ram'.mem[base] == ram.mem[base]
  {
  }

  /** The state in which page n is copied, its frame f taken and mapped. */
  function MappedFor(ram: Ram, d: nat, n: nat): Ram
    requires Alloc(ram.used).0 != 0
  {
    MapPage(Allocated(ram, ram.mem), d, Di(n), Ti(n), Entry(Alloc(ram.used).0, 7))
  }

  function MappedForIn(m: Memory, base: nat, d: nat, n: nat): Memory {
    var (f, m1) := AllocInMemory(m, base);
    MapPageIn(m1, base, d, Di(n), Ti(n), Entry(f, 7))
  }

  lemma LoadPageParts(ram: Ram, d: nat, src: nat, size: Word, n: nat)
    requires n < PagesNeeded(size) && Alloc(ram.used).0 != 0 && n < TOTAL_FRAMES
    ensures 0 <= CopySize(size, n) <= FRAME_SIZE
    ensures LoadPage(ram, d, src, size, n) ==
              Loaded(MappedFor(ram, d, n).(mem := FillPage(MappedFor(ram, d, n).mem, Alloc(ram.used).0,
                                                           src + n * FRAME_SIZE, CopySize(size, n))))
  {
    hide Alloc, MapPage, Entry, FillPage, PageAddress, DirIndex, TabIndex, Di, Ti;
    CopyStaysInModule(size, n);
    PagePosition(n);
  }

  lemma LoadPageInParts(m: Memory, base: nat, d: nat, src: nat, size: Word, n: nat)
    requires n < PagesNeeded(size) && AllocInMemory(m, base).0 != 0 && n < TOTAL_FRAMES
    ensures 0 <= CopySize(size, n) <= FRAME_SIZE
    ensures LoadPageIn(m, base, d, src, size, n) ==
              Done(FillPage(MappedForIn(m, base, d, n), AllocInMemory(m, base).0, src + n * FRAME_SIZE,
                            CopySize(size, n)))
  {
    hide AllocInMemory, MapPageIn, Entry, FillPage, PageAddress, DirIndex, TabIndex, Di, Ti;
    CopyStaysInModule(size, n);
    PagePosition(n);
  }

  ghost predicate Shadowing(m: Memory, base: nat, kept: nat, ram: Ram, own: map<nat, Use>, dirs: set<nat>) {
    Shadows(m, base, kept, ram) && Separated(ram, own, dirs) && base !in own
  }

  /** Page n, and a table if it needs one, find frames whose bits lie in the reserved frame. */
  ghost predicate PageCovered(ram: Ram, d: nat, n: nat) {
    CoveredFree(ram.used) && (Present(Pde(ram.mem, d, Di(n))) || CoveredFree(Alloc(ram.used).1))
  }

  /** A frame for page n is taken and mapped in both alike. */
  lemma MappedShadow(m: Memory, base: nat, kept: nat, ram: Ram, own: map<nat, Use>, dirs: set<nat>, d: nat, n: nat)
    requires Shadowing(m, base, kept, ram, own, dirs) && d in dirs && n < TOTAL_FRAMES && PageCovered(ram, d, n)
    ensures var f := Alloc(ram.used).0;
            && AllocInMemory(m, base).0 == f && 0 < f < TOTAL_FRAMES && f != base
            && Shadows(MappedForIn(m, base, d, n), base, kept, MappedFor(ram, d, n))
  {
    hide Present, Alloc, AllocInMemory, MapPage, MapPageIn, Entry, Agrees, CoveredFree, Di, Ti, TablesApart, PagesApart;
    hide FreeCount, Shadows;
    SeparatedFrames(ram, own, dirs, 0);
    AllocShadow(m, base, kept, ram);
    AllocTakesLowest(ram.used);
    TakenKeeps(ram, own, dirs, ram.mem);
    PagePosition(n);
    TiBound(n);
    MapPageShadow(AllocInMemory(m, base).1, base, kept, Allocated(ram, ram.mem), own, dirs, d, Di(n), Ti(n),
                  Entry(Alloc(ram.used).0, 7));
  }

  /** Page n is loaded alike if its source reads the same when it is copied: seen words of frame base do. */
  lemma LoadPageShadow(m: Memory, base: nat, kept: nat, ram: Ram, own: map<nat, Use>, dirs: set<nat>, d: nat,
                       src: nat, size: Word, n: nat, seen: nat)
    requires Shadowing(m, base, kept, ram, own, dirs) && d in dirs && n < PagesNeeded(size) && n < TOTAL_FRAMES
    requires PageCovered(ram, d, n) && kept <= seen
    requires Alloc(ram.used).0 != 0 ==> Alike(MappedFor(ram, d, n).mem, MappedForIn(m, base, d, n), base, seen)
    requires CopySize(size, n) >= 0 ==> Avoids(src + n * FRAME_SIZE, CopySize(size, n), base, seen)
    ensures LoadPage(ram, d, src, size, n).Loaded? && LoadPageIn(m, base, d, src, size, n).Done?
    ensures Shadows(LoadPageIn(m, base, d, src, size, n).mem, base, kept, LoadPage(ram, d, src, size, n).ram)
  {
    hide Alloc, AllocInMemory, MappedFor, MappedForIn, Agrees, PageCovered, CopySize, FillPage, LoadPage, LoadPageIn;
    hide Separated, PagesNeeded, Avoids;
    MappedShadow(m, base, kept, ram, own, dirs, d, n);
    LoadPageParts(ram, d, src, size, n);
    LoadPageInParts(m, base, d, src, size, n);
    var (r, m1, f) := (MappedFor(ram, d, n), MappedForIn(m, base, d, n), Alloc(ram.used).0);
    FillAlike(r.mem, m1, base, seen, f, src + n * FRAME_SIZE, CopySize(size, n));
    SameBitmap(m1, FillPage(m1, f, src + n * FRAME_SIZE, CopySize(size, n)), base, r.used);
  }

  ghost predicate PagesAvoid(src: nat, size: Word, n: nat, base: nat, kept: nat) {
    forall n' {:trigger CopySize(size, n')} :: n <= n' < PagesNeeded(size) && CopySize(size, n') >= 0 ==>
      Avoids(src + n' * FRAME_SIZE, CopySize(size, n'), base, kept)
  }

  lemma PageFits(ram: Ram, own: map<nat, Use>, dirs: set<nat>, d: nat, n: nat)
    requires LoadingAt(ram, own, dirs, d, n) && CoveredFree(ram.used)
    ensures n < TOTAL_FRAMES && FreeCount(ram.used) > 0
  {
    hide PagesApart, FreeCount;
    AllocTakesLowest(ram.used);
    var f :| 0 <= f < COVERED && !ram.used[f];
  }

  /** Every allocation from page n on finds a frame whose bit lies in the reserved frame. */
  ghost predicate LoadingCovered(ram: Ram, d: nat, src: nat, size: Word, n: nat)
    requires n <= PagesNeeded(size)
    decreases PagesNeeded(size) - n
  {
    n < PagesNeeded(size) ==>
      var r := LoadPage(ram, d, src, size, n);
      PageCovered(ram, d, n) && (r.Loaded? ==> LoadingCovered(r.ram, d, src, size, n + 1))
  }

  /** Loading from page n on, as far as no page of the module lies among the bits that change. */
  lemma {:induction false} LoadPagesShadow(m: Memory, base: nat, kept: nat, ram: Ram, own: map<nat, Use>,
                                           dirs: set<nat>, d: nat, src: nat, size: Word, n: nat)
    requires Shadowing(m, base, kept, ram, own, dirs) && LoadingAt(ram, own, dirs, d, n) && n <= PagesNeeded(size)
    requires LoadingCovered(ram, d, src, size, n) && PagesAvoid(src, size, n, base, kept)
    ensures LoadPages(ram, d, src, size, n).Loaded? && LoadPagesIn(m, base, d, src, size, n).Done?
    ensures Shadows(LoadPagesIn(m, base, d, src, size, n).mem, base, kept, LoadPages(ram, d, src, size, n).ram)
    decreases PagesNeeded(size) - n
  {
    hide Agrees, PagesNeeded, LoadPage, LoadPageIn, Separated, Alloc, CopySize, Avoids, MappedFor;
    hide MappedForIn, FreeCount, StaysTaken, SameOutside, PageCovered;
    if n < PagesNeeded(size) {
      FirstCovered(ram, d, n);
      PageFits(ram, own, dirs, d, n);
      MappedShadow(m, base, kept, ram, own, dirs, d, n);
      LoadPageShadow(m, base, kept, ram, own, dirs, d, src, size, n, kept);
      var own1 := LoadPageKeeps(ram, own, dirs, d, src, size, n);
      var (r1, m1) := (LoadPage(ram, d, src, size, n).ram, LoadPageIn(m, base, d, src, size, n).mem);
      StillNobodys(ram, own, r1, own1, d, base);
      LoadPagesShadow(m1, base, kept, r1, own1, dirs, d, src, size, n + 1);
    }
  }

  lemma FirstCovered(ram: Ram, d: nat, n: nat)
    requires PageCovered(ram, d, n)
    ensures CoveredFree(ram.used)
  {
  }

  /** That is so if one such frame is left over in the end. */
  lemma {:induction false} LeftOverCovers(ram: Ram, d: nat, src: nat, size: Word, n: nat)
    requires n <= PagesNeeded(size) && CoveredFree(LoadPages(ram, d, src, size, n).ram.used)
    ensures LoadingCovered(ram, d, src, size, n)
    decreases PagesNeeded(size) - n
  {
    hide CoveredFree, PagesNeeded, LoadPage, StaysTaken, Present, Alloc;
    if n < PagesNeeded(size) {
      var r := LoadPage(ram, d, src, size, n);
      if r.Loaded? {
        LoadPagesTake(r.ram, d, src, size, n + 1);
        StillCovered(r.ram.used, LoadPages(ram, d, src, size, n).ram.used);
        LeftOverCovers(r.ram, d, src, size, n + 1);
      }
      LoadPageTakes(ram, d, src, size, n);
      StillCovered(Alloc(ram.used).1, r.ram.used);
      StillCovered(ram.used, Alloc(ram.used).1);
    }
  }

  // ---- Counting them ----

  lemma {:induction false} SomeBelow(used: Used, n: nat)
    returns (f: nat)
    requires n <= TOTAL_FRAMES && FreeBelow(used, n) > 0
    ensures f < n && !used[f]
  {
    f := n - 1;
    if used[f] {
      f := SomeBelow(used, n - 1);
    }
  }

  lemma SomeCovered(used: Used)
    requires FreeBelow(used, COVERED) > 0
    ensures CoveredFree(used)
  {
    var f := SomeBelow(used, COVERED);
  }

  lemma {:induction false} BelowAtMost(used: Used, n: nat)
    requires n <= TOTAL_FRAMES
    ensures FreeBelow(used, n) + FreeFrom(used, n) == FreeCount(used)
  {
    if n > 0 {
      BelowAtMost(used, n - 1);
    }
  }

  lemma BelowTwo(used: Used, c: nat)
    requires c <= 1 && FreeBelow(used, COVERED) > c
    ensures CoveredFree(used) && FreeCount(used) > c && (c == 1 ==> CoveredFree(Alloc(used).1))
    ensures FreeBelow(used, COVERED) == FreeBelow(Taking(used, 1 + c), COVERED) + 1 + c
  {
    hide FreeBelow, FreeCount, Alloc, CoveredFree;
    BelowAtMost(used, COVERED);
    SomeCovered(used);
    AllocBelow(used);
    assert Taking(used, 1) == Alloc(used).1;
    if c == 1 {
      SomeCovered(Alloc(used).1);
      AllocBelow(Alloc(used).1);
      assert Taking(used, 2) == Alloc(Alloc(used).1).1;
    }
  }

  lemma RoomForPage(ram: Ram, own: map<nat, Use>, dirs: set<nat>, d: nat, n: nat, end: nat)
    requires LoadingAt(ram, own, dirs, d, n) && TablesUpTo(ram.mem, d, n) && n < end
    requires FreeBelow(ram.used, COVERED) >= LoadNeed(n, end)
    ensures PageCovered(ram, d, n) && CoveredFree(ram.used)
    ensures FreeCount(ram.used) >= LoadNeed(n, end) && FreeCount(ram.used) > Starts(n)
    ensures FreeBelow(Taking(ram.used, 1 + Starts(n)), COVERED) >= LoadNeed(n + 1, end)
  {
    hide FreeBelow, FreeCount, Alloc, CoveredFree, StartsTable, Present, Pde, Separated, Di, TablesUpTo, Taking;
    SeparatedFrames(ram, own, dirs, 0);
    EnoughForOne(n, end);
    BelowAtMost(ram.used, COVERED);
    BelowTwo(ram.used, Starts(n));
    PageFits(ram, own, dirs, d, n);
    AllocTakesLowest(ram.used);
    TableThere(ram, own, dirs, d, n);
  }

  /** And if there are as many as loading takes. */
  lemma {:induction false} EnoughCovers(ram: Ram, own: map<nat, Use>, dirs: set<nat>, d: nat, src: nat, size: Word,
                                        n: nat)
    requires LoadingAt(ram, own, dirs, d, n) && TablesUpTo(ram.mem, d, n) && n <= PagesNeeded(size)
    requires FreeBelow(ram.used, COVERED) >= LoadNeed(n, PagesNeeded(size))
    ensures LoadingCovered(ram, d, src, size, n)
    decreases PagesNeeded(size) - n
  {
    hide PageCovered, PagesNeeded, LoadPage, Separated, FreeCount, SameOutside, Taking, TablesUpTo, LoadNeed, FreeBelow;
    hide Present, Pde, Pte, AddOwn, Di, Ti, Alloc, StartsTable;
    if n < PagesNeeded(size) {
      RoomForPage(ram, own, dirs, d, n, PagesNeeded(size));
      LoadPagePool(ram, own, dirs, d, src, size, n);
      LoadPageEffect(ram, own, dirs, d, src, size, n);
      var own1 := LoadPageKeeps(ram, own, dirs, d, src, size, n);
      EnoughCovers(LoadPage(ram, d, src, size, n).ram, own1, dirs, d, src, size, n + 1);
    }
  }
}

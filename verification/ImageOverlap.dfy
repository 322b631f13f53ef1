/** When a page of the module lies in a frame that is taken before it is copied, what create_process makes does
    not depend on what the page held. Two memories that differ only in that frame are loaded in step until the
    frame is overwritten; from then on they are the same. */
module ImageOverlap {
  import opened Machine
  import opened FramePool
  import opened PageTables
  import opened Ownership
  import opened AddingPages
  import opened Bytes
  import opened ImageLoading
  import opened ImageContents

  ghost predicate InStep(r1: Ram, r2: Ram, g: nat) {
    r1.used == r2.used && DiffersOnlyAt(r1.mem, r2.mem, g)
  }

  lemma EnsureTableInStep(r1: Ram, r2: Ram, d: nat, i: nat, g: nat)
    requires InStep(r1, r2, g) && d < TOTAL_FRAMES && d != g
    ensures InStep(EnsureTable(r1, d, i), EnsureTable(r2, d, i), g)
    ensures !Present(Pde(r1.mem, d, i)) && Alloc(r1.used).0 == g != 0 ==> EnsureTable(r1, d, i) == EnsureTable(r2, d, i)
    ensures Pde(EnsureTable(r1, d, i).mem, d, i) == Pde(EnsureTable(r2, d, i).mem, d, i)
  {
    hide Present, Alloc, Entry;
    assert Pde(r1.mem, d, i) == Pde(r2.mem, d, i);
  }

  lemma MapPageInStep(r1: Ram, r2: Ram, own: map<nat, Use>, dirs: set<nat>, d: nat, i: nat, j: nat, e: Word, g: nat)
    requires TablesApart(r1, own, dirs) && d in dirs && i < KERNEL_PDT_IDX && j < ENTRIES
    requires InStep(r1, r2, g) && g !in own
    ensures InStep(MapPage(r1, d, i, j, e), MapPage(r2, d, i, j, e), g)
    ensures !Present(Pde(r1.mem, d, i)) && Alloc(r1.used).0 == g != 0 ==>
              MapPage(r1, d, i, j, e) == MapPage(r2, d, i, j, e)
  {
    hide Present, Alloc, Entry, Pde, FrameOf, EnsureTable, FreeCount;
    EnsureTableInStep(r1, r2, d, i, g);
    EnsureTableKeeps(r1, own, dirs, d, i);
    var e1 := EnsureTable(r1, d, i);
    if Present(Pde(e1.mem, d, i)) {
      TableOf(e1, OwnTable(r1, own, d, i), dirs, d, i);
    }
  }

  lemma AlignedApart(src: nat, f: nat)
    requires src % FRAME_SIZE == 0
    ensures src + FRAME_SIZE <= f * FRAME_SIZE || (f + 1) * FRAME_SIZE <= src || src == f * FRAME_SIZE
    ensures src == src / FRAME_SIZE * FRAME_SIZE
  {
    assert src == FRAME_SIZE * (src / FRAME_SIZE);
  }

  lemma SameSourceByte(m1: Memory, m2: Memory, src: nat, k: nat, g: nat)
    requires src % FRAME_SIZE == 0 && k < FRAME_SIZE && DiffersOnlyAt(m1, m2, g) && (m1 == m2 || src / FRAME_SIZE != g)
    ensures LoadByte(m1, src + k) == LoadByte(m2, src + k)
  {
    hide ByteOf;
    AlignedApart(src, 0);
    FrameAddress(src / FRAME_SIZE, k);
  }

  lemma FillInStep(m1: Memory, m2: Memory, f: nat, src: nat, count: nat, g: nat)
    requires count <= FRAME_SIZE && f < TOTAL_FRAMES && src % FRAME_SIZE == 0
    requires DiffersOnlyAt(m1, m2, g) && (m1 == m2 || src / FRAME_SIZE != g)
    ensures DiffersOnlyAt(FillPage(m1, f, src, count), FillPage(m2, f, src, count), g)
    ensures f == g || m1 == m2 ==> FillPage(m1, f, src, count) == FillPage(m2, f, src, count)
  {
    hide FillPage, FrameByte, LoadByte;
    AlignedApart(src, f);
    var m1', m2' := FillPage(m1, f, src, count), FillPage(m2, f, src, count);
    forall k | 0 <= k < FRAME_SIZE
      ensures FrameByte(m1'[f], k) == FrameByte(m2'[f], k)
    {
      FilledByte(m1, f, src, count, k);
      FilledByte(m2, f, src, count, k);
      SameSourceByte(m1, m2, src, k, g);
    }
    SameFrame(m1'[f], m2'[f]);
    forall h | 0 <= h < TOTAL_FRAMES && h != f
      ensures m1'[h] == m1[h] && m2'[h] == m2[h]
    {
      FillPageFrame(m1, f, src, count, h);
      FillPageFrame(m2, f, src, count, h);
    }
  }

  lemma NextSource(src: nat, n: nat)
    requires src % FRAME_SIZE == 0
    ensures (src + n * FRAME_SIZE) % FRAME_SIZE == 0 && (src + n * FRAME_SIZE) / FRAME_SIZE == src / FRAME_SIZE + n
  {
    assert src == FRAME_SIZE * (src / FRAME_SIZE);
    FrameAddress(src / FRAME_SIZE + n, 0);
  }

  lemma LoadPageInStep(r1: Ram, r2: Ram, own: map<nat, Use>, dirs: set<nat>, d: nat, src: nat, size: Word,
    n: nat, g: nat)
    requires LoadingAt(r1, own, dirs, d, n) && n < PagesNeeded(size) && TablesUpTo(r1.mem, d, n)
    requires FreeCount(r1.used) > Starts(n) && src % FRAME_SIZE == 0
    requires InStep(r1, r2, g) && g !in own
    requires src / FRAME_SIZE + n != g || (g > 0 && StartsTable(n) && NthTaken(r1.used, 1) == g)
    ensures LoadPage(r1, d, src, size, n).Loaded? && LoadPage(r2, d, src, size, n).Loaded?
    ensures InStep(LoadPage(r1, d, src, size, n).ram, LoadPage(r2, d, src, size, n).ram, g)
    ensures g > 0 && (NthTaken(r1.used, 0) == g || (StartsTable(n) && NthTaken(r1.used, 1) == g)) ==>
              LoadPage(r1, d, src, size, n).ram == LoadPage(r2, d, src, size, n).ram
  {
    hide Present, Alloc, Entry, Pde, FrameOf, EnsureTable, FreeCount, StartsTable, FillPage, PagesNeeded, Di,
      Ti, MapPage;
    hide Separated, CopySize, TablesUpTo, LoadPage;
    SeparatedFrames(r1, own, dirs, 0);
    AllocTakesLowest(r1.used);
    PagePosition(n);
    TiBound(n);
    TableThere(r1, own, dirs, d, n);
    LoadPageAdds(r1, d, src, size, n);
    LoadPageAdds(r2, d, src, size, n);
    LoadPageUsed(r1, d, src, size, n);
    LoadPageUsed(r2, d, src, size, n);
    SeparatedTables(Allocated(r1, r1.mem), own, dirs);
    assert NthTaken(r1.used, 1) == Alloc(Alloc(r1.used).1).0;
    var f := Alloc(r1.used).0;
    MapPageInStep(Allocated(r1, r1.mem), Allocated(r2, r2.mem), own, dirs, d, Di(n), Ti(n), Entry(f, 7), g);
    NextSource(src, n);
    FillInStep(MapPage(Allocated(r1, r1.mem), d, Di(n), Ti(n), Entry(f, 7)).mem,
               MapPage(Allocated(r2, r2.mem), d, Di(n), Ti(n), Entry(f, 7)).mem,
               f, src + n * FRAME_SIZE, CopySize(size, n), g);
  }

  lemma LoadPageUsed(ram: Ram, d: nat, src: nat, size: Word, n: nat)
    requires n < PagesNeeded(size) && ram.used[0] && Alloc(ram.used).0 != 0 && n < TOTAL_FRAMES
    ensures Alloc(ram.used).0 < TOTAL_FRAMES
    ensures LoadPage(ram, d, src, size, n).ram.used ==
            MapPage(Allocated(ram, ram.mem), d, Di(n), Ti(n), Entry(Alloc(ram.used).0, 7)).used
  {
    hide Alloc, Entry, MapPage, FillPage, LoadPage, Di, Ti, DiffersOnlyAt, PagesNeeded;
    LoadPageAdds(ram, d, src, size, n);
  }

  /** Page m of the module lies in the frame of allocation j, which comes before it is copied. */
  lemma {:induction false} LoadPagesInStep(r1: Ram, r2: Ram, own: map<nat, Use>, dirs: set<nat>, d: nat, src: nat,
    size: Word,
                                           n: nat, m: nat, j: nat)
    requires LoadingAt(r1, own, dirs, d, n) && TablesUpTo(r1.mem, d, n) && n <= m < PagesNeeded(size)
    requires FreeCount(r1.used) >= LoadNeed(n, PagesNeeded(size)) && src % FRAME_SIZE == 0
    requires Precedes(src, n, m, j) && NthTaken(r1.used, j) == src / FRAME_SIZE + m
    requires InStep(r1, r2, src / FRAME_SIZE + m)
    ensures LoadPages(r1, d, src, size, n) == LoadPages(r2, d, src, size, n)
    decreases m - n
  {
    hide Present, Alloc, FreeCount, StartsTable, PagesNeeded, Separated, TablesUpTo, LoadPage, InStep, NthTaken,
      LoadNeed;
    hide SameOutside, Advances, AddOwn, Di, Ti;
    var g := src / FRAME_SIZE + m;
    EnoughForOne(n, PagesNeeded(size));
    NeedSplits(n, m + 1, PagesNeeded(size));
    SeparatedFrames(r1, own, dirs, g);
    NthTakenIs(r1.used, j);
    NeedOne(n);
    LoadPageInStep(r1, r2, own, dirs, d, src, size, n, g);
    if j > Starts(n) {
      NeedSplits(n, n + 1, m);
      NeedSplits(n, n + 1, m + 1);
      NthAfter(r1.used, 1 + Starts(n), j - 1 - Starts(n));
      LoadPagePool(r1, own, dirs, d, src, size, n);
      LoadPageEffect(r1, own, dirs, d, src, size, n);
      var own1 := LoadPageKeeps(r1, own, dirs, d, src, size, n);
      LoadPagesInStep(LoadPage(r1, d, src, size, n).ram, LoadPage(r2, d, src, size, n).ram, own1, dirs, d, src, size,
                      n + 1, m, j - 1 - Starts(n));
    }
  }
}

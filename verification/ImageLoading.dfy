/** The page-loading loop of create_process (mem/process.c): the module at physical
    address src is copied, page by page, to USER_CODE_START in directory d. */
module ImageLoading {
  import opened Machine
  import opened FramePool
  import opened PageTables
  import opened Ownership
  import opened AddingPages
  import opened Translation
  import opened Bytes

  const USER_CODE_START: Word := 0x0804_8000
  const CODE_PAGE := 0x8048

  // C computes both of these in 32 bits.
  function PagesNeeded(size: Word): nat {
    (size + FRAME_SIZE - 1) % 0x1_0000_0000 / FRAME_SIZE
  }

  function CopySize(size: Word, n: nat): int {
    if (n * FRAME_SIZE + FRAME_SIZE) % 0x1_0000_0000 > size then size - n * FRAME_SIZE else FRAME_SIZE
  }

  /** The partial copy of the last page never reads past the module. */
  lemma CopyStaysInModule(size: Word, n: nat)
    requires n < PagesNeeded(size)
    ensures 0 < CopySize(size, n) <= FRAME_SIZE && n * FRAME_SIZE + CopySize(size, n) <= size
    ensures CopySize(size, n) == if n == PagesNeeded(size) - 1 then size - n * FRAME_SIZE else FRAME_SIZE
  {
    assert size + FRAME_SIZE - 1 < 0x1_0000_0000;
    assert n * FRAME_SIZE + FRAME_SIZE <= size + FRAME_SIZE - 1;
  }

  function PageAddress(n: nat): Word { (USER_CODE_START + n * FRAME_SIZE) % 0x1_0000_0000 }

  datatype Loading = Loaded(ram: Ram) | NoFrame(ram: Ram)

  /** Module bytes into the frame, then zeros up to its end. */
  function FillPage(m: Memory, f: nat, src: nat, count: nat): Memory
    requires count <= FRAME_SIZE
  {
    var m1 := CopyBytes(m, f * FRAME_SIZE, src, count);
    if count < FRAME_SIZE then SetBytes(m1, f * FRAME_SIZE + count, 0, FRAME_SIZE - count) else m1
  }

  function LoadPage(ram: Ram, d: nat, src: nat, size: Word, n: nat): Loading
    requires n < PagesNeeded(size)
  {
    CopyStaysInModule(size, n);
    var f := Alloc(ram.used).0;
    if f == 0 then NoFrame(ram.(used := Alloc(ram.used).1))
    else
      var v := PageAddress(n);
      var r := MapPage(Allocated(ram, ram.mem), d, DirIndex(v), TabIndex(v),
        Entry(f, PAGE_PRESENT + PAGE_USER + PAGE_RW));
      Loaded(r.(mem := FillPage(r.mem, f, src + n * FRAME_SIZE, CopySize(size, n))))
  }

  function LoadPages(ram: Ram, d: nat, src: nat, size: Word, n: nat): Loading
    requires n <= PagesNeeded(size)
    decreases PagesNeeded(size) - n
  {
    if n == PagesNeeded(size) then Loaded(ram)
    else
      match LoadPage(ram, d, src, size, n)
      case NoFrame(r) => NoFrame(r)
      case Loaded(r) => LoadPages(r, d, src, size, n + 1)
  }

  // ---- One page ----

  function Di(n: nat): nat { (CODE_PAGE + n) / ENTRIES }
  function Ti(n: nat): nat { (CODE_PAGE + n) % ENTRIES }

  lemma PagePosition(n: nat)
    requires n < TOTAL_FRAMES
    ensures DirIndex(PageAddress(n)) == Di(n) && TabIndex(PageAddress(n)) == Ti(n) && Di(n) < KERNEL_PDT_IDX
  {
    assert PageAddress(n) == (CODE_PAGE + n) * FRAME_SIZE;
    assert (CODE_PAGE + n) * FRAME_SIZE / 0x1000 == CODE_PAGE + n;
    assert CODE_PAGE + n == ENTRIES * Di(n) + Ti(n);
    assert (CODE_PAGE + n) * FRAME_SIZE == 0x40_0000 * Di(n) + Ti(n) * FRAME_SIZE;
  }

  lemma FillPageFrame(m: Memory, f: nat, src: nat, count: nat, g: nat)
    requires count <= FRAME_SIZE && g < TOTAL_FRAMES && g != f
    ensures FillPage(m, f, src, count)[g] == m[g]
  {
    hide CopyBytes, SetBytes;
    CopyBytesFrame(m, f, f * FRAME_SIZE, src, count, g);
    SetBytesFrame(CopyBytes(m, f * FRAME_SIZE, src, count), f, f * FRAME_SIZE + count, 0, FRAME_SIZE - count, g);
  }

  lemma FillPageByte(m: Memory, f: nat, src: nat, count: nat, k: nat)
    requires count <= FRAME_SIZE && f < TOTAL_FRAMES && k < FRAME_SIZE
    requires src + count <= f * FRAME_SIZE || (f + 1) * FRAME_SIZE <= src
    ensures FrameByte(FillPage(m, f, src, count)[f], k) == if k < count then LoadByte(m, src + k) else 0
  {
    hide CopyBytes, SetBytes, LoadByte, FrameByte;
    var a, m1 := f * FRAME_SIZE + k, CopyBytes(m, f * FRAME_SIZE, src, count);
    CopyBytesAt(m, f * FRAME_SIZE, src, count, a);
    SetBytesAt(m1, f * FRAME_SIZE + count, 0, FRAME_SIZE - count, a);
    ByteInFrame(FillPage(m, f, src, count), f, k);
  }

  ghost predicate LoadingAt(ram: Ram, own: map<nat, Use>, dirs: set<nat>, d: nat, n: nat) {
    Separated(ram, own, dirs) && d in dirs && FreeCount(ram.used) + n <= TOTAL_FRAMES
  }

  lemma LoadPageAdds(ram: Ram, d: nat, src: nat, size: Word, n: nat)
    requires n < PagesNeeded(size) && ram.used[0] && Alloc(ram.used).0 != 0 && n < TOTAL_FRAMES
    ensures var f := Alloc(ram.used).0;
            && f < TOTAL_FRAMES
            && LoadPage(ram, d, src, size, n).Loaded?
            && AddsPage(ram, d, Di(n), Ti(n), 7, ram.mem, LoadPage(ram, d, src, size, n).ram)
            && 0 <= CopySize(size, n) <= FRAME_SIZE
            && LoadPage(ram, d, src, size, n).ram.mem ==
               FillPage(MapPage(Allocated(ram, ram.mem), d, Di(n), Ti(n), Entry(f, 7)).mem, f, src + n * FRAME_SIZE,
                 CopySize(size, n))
  {
    hide Alloc, MapPage, Entry, FillPage, PageAddress, DirIndex, TabIndex;
    AllocTakesLowest(ram.used);
    CopyStaysInModule(size, n);
    PagePosition(n);
    var f := Alloc(ram.used).0;
    var r := MapPage(Allocated(ram, ram.mem), d, Di(n), Ti(n), Entry(f, 7));
    forall g | 0 <= g < TOTAL_FRAMES && g != f
      ensures FillPage(r.mem, f, src + n * FRAME_SIZE, CopySize(size, n))[g] == r.mem[g]
    {
      FillPageFrame(r.mem, f, src + n * FRAME_SIZE, CopySize(size, n), g);
    }
  }

  /** Entries of directory d outside pages n up to (not including) m of the image. */
  ghost predicate SameOutside(m: Memory, m': Memory, d: nat, n: nat, end: nat) {
    && (forall i, j {:trigger Pte(m', d, i, j)} |
          0 <= i < KERNEL_PDT_IDX && 0 <= j < ENTRIES && !(CODE_PAGE + n <= i * ENTRIES + j < CODE_PAGE + end) ::
          Pte(m', d, i, j) == Pte(m, d, i, j))
    && (forall i {:trigger Pde(m', d, i)} :: KERNEL_PDT_IDX <= i < ENTRIES ==> Pde(m', d, i) == Pde(m, d, i))
  }

  lemma SamePosition(n: nat, i: nat, j: nat)
    requires j < ENTRIES
    ensures i * ENTRIES + j == CODE_PAGE + n <==> i == Di(n) && j == Ti(n)
  {
    assert CODE_PAGE + n == ENTRIES * Di(n) + Ti(n);
  }

  lemma LoadPageKeeps(ram: Ram, own: map<nat, Use>, dirs: set<nat>, d: nat, src: nat, size: Word, n: nat)
    returns (own': map<nat, Use>)
    requires LoadingAt(ram, own, dirs, d, n) && n < PagesNeeded(size)
    ensures var r := LoadPage(ram, d, src, size, n).ram;
            && Separated(r, own', dirs) && Advances(ram, own, r, own', d) && SameOutside(ram.mem, r.mem, d, n, n + 1)
            && (LoadPage(ram, d, src, size, n).Loaded? ==> LoadingAt(r, own', dirs, d, n + 1))
    ensures LoadPage(ram, d, src, size, n).Loaded? <==> FreeCount(ram.used) > 0
    ensures own' == if FreeCount(ram.used) > 0 then AddOwn(ram, own, d, Di(n), Ti(n), ram.mem) else own
  {
    hide Present, FrameOf, LargePage, Pde, Pte, Alloc, Entry, AddsPage, Separated, HasTable, AddOwn, FillPage;
    hide CopySize, Di, Ti;
    hide FreeCount, PagesNeeded;
    SeparatedFrames(ram, own, dirs, 0);
    AllocTakesLowest(ram.used);
    own' := own;
    if Alloc(ram.used).0 != 0 {
      PagePosition(n);
      LoadPageAdds(ram, d, src, size, n);
      var r := LoadPage(ram, d, src, size, n).ram;
      own' := AddOwn(ram, own, d, Di(n), Ti(n), ram.mem);
      AddPageKeeps(ram, own, dirs, d, Di(n), Ti(n), 7, ram.mem, r);
      AddPageAdvances(ram, own, dirs, d, Di(n), Ti(n), 7, ram.mem, r);
      AddPageCost(ram, own, dirs, d, Di(n), Ti(n), 7, ram.mem, r);
      forall i, j {:trigger Pte(r.mem, d, i, j)} | 0 <= i < KERNEL_PDT_IDX && 0 <= j < ENTRIES &&
        !(CODE_PAGE + n <= i * ENTRIES + j < CODE_PAGE + (n + 1))
        ensures Pte(r.mem, d, i, j) == Pte(ram.mem, d, i, j)
      {
        SamePosition(n, i, j);
      }
    }
  }

  /** However far loading gets, it only adds to directory d, at the image's own pages. */
  lemma {:induction false} LoadPagesKeeps(ram: Ram, own: map<nat, Use>, dirs: set<nat>, d: nat, src: nat, size: Word,
                                          n: nat)
    returns (own': map<nat, Use>)
    requires LoadingAt(ram, own, dirs, d, n) && n <= PagesNeeded(size)
    ensures var r := LoadPages(ram, d, src, size, n).ram;
            && Separated(r, own', dirs) && Advances(ram, own, r, own', d)
            && SameOutside(ram.mem, r.mem, d, n, PagesNeeded(size))
    decreases PagesNeeded(size) - n
  {
    hide Present, Pde, Pte, LoadPage, Separated, FreeCount, PagesNeeded;
    own' := own;
    if n < PagesNeeded(size) {
      var own1 := LoadPageKeeps(ram, own, dirs, d, src, size, n);
      var r1 := LoadPage(ram, d, src, size, n).ram;
      own' := own1;
      if LoadPage(ram, d, src, size, n).Loaded? {
        own' := LoadPagesKeeps(r1, own1, dirs, d, src, size, n + 1);
        AdvancesTransitive(ram, own, r1, own1, LoadPages(r1, d, src, size, n + 1).ram, own', d);
      }
    }
  }

  // ---- What it costs ----

  predicate StartsTable(n: nat) { n == 0 || Ti(n) == 0 }

  /** Frames for pages n up to end of the image and for the tables they start. */
  function LoadNeed(n: nat, end: nat): nat
    decreases end - n
  {
    if n >= end then 0 else 1 + (if StartsTable(n) then 1 else 0) + LoadNeed(n + 1, end)
  }

  /** One frame a page, and one for each table the pages span. */
  lemma {:induction false} LoadNeedCounts(n: nat, end: nat)
    requires n <= end
    ensures LoadNeed(n, end) == if n == end then 0
              else (end - n) + (Di(end - 1) - Di(n)) + (if StartsTable(n) then 1 else 0)
    decreases end - n
  {
    if n + 1 < end {
      LoadNeedCounts(n + 1, end);
      NextPosition(n);
    }
  }

  lemma NextPosition(n: nat)
    ensures if Ti(n + 1) == 0 then Di(n + 1) == Di(n) + 1 else Di(n + 1) == Di(n) && Ti(n + 1) == Ti(n) + 1
  {
    assert CODE_PAGE + n == ENTRIES * Di(n) + Ti(n);
    assert CODE_PAGE + (n + 1) == ENTRIES * Di(n + 1) + Ti(n + 1);
  }

  /** Directory d has the tables that pages before n started, and none further up. */
  ghost predicate TablesUpTo(m: Memory, d: nat, n: nat) {
    && (Di(n) < KERNEL_PDT_IDX ==> (Present(Pde(m, d, Di(n))) <==> !StartsTable(n)))
    && (forall i {:trigger Pde(m, d, i)} :: Di(n) < i < KERNEL_PDT_IDX ==> !Present(Pde(m, d, i)))
  }

  // ---- What it maps ----

  /** Page n of the image is mapped, for the user to read and write. */
  ghost predicate MapsPage(m: Memory, d: nat, n: nat) {
    && Present(Pte(m, d, Di(n), Ti(n))) && FlagsOf(Pte(m, d, Di(n), Ti(n))) == 7
    && FrameOf(Pte(m, d, Di(n), Ti(n))) < TOTAL_FRAMES
  }

  lemma LoadPageEffect(ram: Ram, own: map<nat, Use>, dirs: set<nat>, d: nat, src: nat, size: Word, n: nat)
    requires LoadingAt(ram, own, dirs, d, n) && n < PagesNeeded(size) && TablesUpTo(ram.mem, d, n)
    requires FreeCount(ram.used) > 0
    ensures var starts, r := (if StartsTable(n) then 1 else 0), LoadPage(ram, d, src, size, n).ram;
            if FreeCount(ram.used) > starts then
              && FreeCount(r.used) == FreeCount(ram.used) - 1 - starts && TablesUpTo(r.mem, d, n + 1)
              && Pte(r.mem, d, Di(n), Ti(n)) == Entry(Alloc(ram.used).0, 7)
            else
              FreeCount(r.used) == 0 && Pte(r.mem, d, Di(n), Ti(n)) == Pte(ram.mem, d, Di(n), Ti(n))
                && !Present(Pte(r.mem, d, Di(n), Ti(n)))
  {
    hide Present, FrameOf, LargePage, Pde, Pte, Alloc, Entry, AddsPage, Separated, HasTable, AddOwn, CopySize, Di, Ti;
    hide FreeCount, PagesNeeded, LoadPage;
    SeparatedFrames(ram, own, dirs, 0);
    AllocTakesLowest(ram.used);
    PagePosition(n);
    LoadPageAdds(ram, d, src, size, n);
    var r := LoadPage(ram, d, src, size, n).ram;
    AddPageKeeps(ram, own, dirs, d, Di(n), Ti(n), 7, ram.mem, r);
    AddPageCost(ram, own, dirs, d, Di(n), Ti(n), 7, ram.mem, r);
    NextPosition(n);
    TiBound(n);
    NoTableNoEntry(ram.mem, d, Di(n), Ti(n));
  }

  lemma TiBound(n: nat)
    ensures Ti(n) < ENTRIES
  {
  }

  lemma NoTableNoEntry(m: Memory, d: nat, i: nat, j: nat)
    ensures !Present(Pde(m, d, i)) ==> !Present(Pte(m, d, i, j))
  {
  }

  lemma EntryMaps(m: Memory, d: nat, n: nat, f: nat)
    requires f < TOTAL_FRAMES && Pte(m, d, Di(n), Ti(n)) == Entry(f, 7)
    ensures MapsPage(m, d, n) && FrameOf(Pte(m, d, Di(n), Ti(n))) == f
  {
    hide Pte, Di, Ti, FrameOf, FlagsOf, Entry;
    EntryFields(f, 7);
  }

  /** With frames enough, every page is mapped at exactly the cost LoadNeed counts. */
  lemma {:induction false} LoadPagesMaps(ram: Ram, own: map<nat, Use>, dirs: set<nat>, d: nat, src: nat, size: Word,
                                         n: nat)
    requires LoadingAt(ram, own, dirs, d, n) && n <= PagesNeeded(size) && TablesUpTo(ram.mem, d, n)
    requires FreeCount(ram.used) >= LoadNeed(n, PagesNeeded(size))
    ensures var r := LoadPages(ram, d, src, size, n);
            && r.Loaded? && FreeCount(r.ram.used) == FreeCount(ram.used) - LoadNeed(n, PagesNeeded(size))
            && forall n' :: n <= n' < PagesNeeded(size) ==> MapsPage(r.ram.mem, d, n')
    decreases PagesNeeded(size) - n
  {
    hide Present, Pde, Pte, LoadPage, Separated, FreeCount, PagesNeeded, MapsPage, Di, Ti, Alloc, Entry, StartsTable;
    if n < PagesNeeded(size) {
      var own1 := LoadPageKeeps(ram, own, dirs, d, src, size, n);
      LoadPageEffect(ram, own, dirs, d, src, size, n);
      var r1 := LoadPage(ram, d, src, size, n).ram;
      EntryMaps(r1.mem, d, n, Alloc(ram.used).0);
      LoadPagesMaps(r1, own1, dirs, d, src, size, n + 1);
      var own' := LoadPagesKeeps(r1, own1, dirs, d, src, size, n + 1);
      MappedStays(r1.mem, LoadPages(r1, d, src, size, n + 1).ram.mem, d, n, PagesNeeded(size));
    }
  }

  lemma MappedStays(m: Memory, m': Memory, d: nat, n: nat, end: nat)
    requires n < TOTAL_FRAMES && SameOutside(m, m', d, n + 1, end)
    ensures Pte(m', d, Di(n), Ti(n)) == Pte(m, d, Di(n), Ti(n)) && (MapsPage(m, d, n) ==> MapsPage(m', d, n))
  {
    hide Present, FrameOf, FlagsOf, Pte, Pde, Di, Ti;
    PagePosition(n);
    SamePosition(n, Di(n), Ti(n));
    TiBound(n);
  }

  /** With too few frames loading fails, or -- one frame short, the last page starting a table --
      is reported as done with that page missing. */
  lemma {:induction false} LoadPagesShort(ram: Ram, own: map<nat, Use>, dirs: set<nat>, d: nat, src: nat, size: Word,
                                          n: nat)
    requires LoadingAt(ram, own, dirs, d, n) && n < PagesNeeded(size) && TablesUpTo(ram.mem, d, n)
    requires FreeCount(ram.used) < LoadNeed(n, PagesNeeded(size))
    ensures var r, last := LoadPages(ram, d, src, size, n), PagesNeeded(size) - 1;
            && (r.Loaded? <==> FreeCount(ram.used) == LoadNeed(n, PagesNeeded(size)) - 1 && StartsTable(last))
            && (r.Loaded? ==> !Present(Pte(r.ram.mem, d, Di(last), Ti(last))))
    decreases PagesNeeded(size) - n
  {
    hide Present, Pde, Pte, LoadPage, Separated, FreeCount, PagesNeeded, Di, Ti, Alloc, Entry, StartsTable;
    var own1 := LoadPageKeeps(ram, own, dirs, d, src, size, n);
    if FreeCount(ram.used) > 0 {
      LoadPageEffect(ram, own, dirs, d, src, size, n);
      var r1 := LoadPage(ram, d, src, size, n).ram;
      if n + 1 < PagesNeeded(size) {
        if FreeCount(ram.used) > (if StartsTable(n) then 1 else 0) {
          LoadPagesShort(r1, own1, dirs, d, src, size, n + 1);
        } else {
          var own2 := LoadPageKeeps(r1, own1, dirs, d, src, size, n + 1);
        }
      }
    }
  }
}

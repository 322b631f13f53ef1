/** The step fork, image loading and demand paging share: take a frame, map it at
    page (i, j) of directory d, and fill it before or after mapping it. */
module AddingPages {
  import opened Machine
  import opened FramePool
  import opened PageTables
  import opened Ownership

  /** The state between alloc_frame and map_page; m1 may already hold the new contents. */
  function Allocated(ram: Ram, m1: Memory): Ram {
    Ram(m1, Alloc(ram.used).1)
  }

  ghost predicate AddsPage(ram: Ram, d: nat, i: nat, j: nat, flags: Word, m1: Memory, ram': Ram) {
    var f := Alloc(ram.used).0;
    && f != 0 && flags < FRAME_SIZE && DiffersOnlyAt(ram.mem, m1, f)
    && var r := MapPage(Allocated(ram, m1), d, i, j, Entry(f, flags));
       ram'.used == r.used && DiffersOnlyAt(r.mem, ram'.mem, f)
  }

  lemma TakenKeeps(ram: Ram, own: map<nat, Use>, dirs: set<nat>, m1: Memory)
    requires Separated(ram, own, dirs)
    requires Alloc(ram.used).0 != 0 && DiffersOnlyAt(ram.mem, m1, Alloc(ram.used).0)
    ensures Separated(Allocated(ram, m1), own, dirs) && SameEntries(ram.mem, m1, dirs)
    ensures forall d, i :: d in dirs && 0 <= i < ENTRIES ==> Pde(m1, d, i) == Pde(ram.mem, d, i)
  {
    hide Present, FrameOf, LargePage, Pde, Pte, Alloc;
    AllocTakesLowest(ram.used);
    SameTablesKeep(ram, own, dirs, Allocated(ram, m1));
    forall d, i, j {:trigger Pte(m1, d, i, j)} | d in dirs && 0 <= i < KERNEL_PDT_IDX && 0 <= j < ENTRIES
      ensures Pte(m1, d, i, j) == Pte(ram.mem, d, i, j)
    {
      SameTables(ram, own, dirs, m1, d, i, j);
    }
    forall d, i | d in dirs && 0 <= i < ENTRIES
      ensures Pde(m1, d, i) == Pde(ram.mem, d, i)
    {
      SameTables(ram, own, dirs, m1, d, i, 0);
    }
  }

  lemma FilledKeeps(r: Ram, own: map<nat, Use>, dirs: set<nat>, ram': Ram, f: nat)
    requires Separated(r, own, dirs) && (f in own ==> own[f].Page?)
    requires ram'.used == r.used && DiffersOnlyAt(r.mem, ram'.mem, f)
    ensures Separated(ram', own, dirs) && SameEntries(r.mem, ram'.mem, dirs)
    ensures forall d, i :: d in dirs && 0 <= i < ENTRIES ==> Pde(ram'.mem, d, i) == Pde(r.mem, d, i)
  {
    hide Present, FrameOf, LargePage, Pde, Pte;
    SameTablesKeep(r, own, dirs, ram');
    forall d, i, j {:trigger Pte(ram'.mem, d, i, j)} | d in dirs && 0 <= i < KERNEL_PDT_IDX && 0 <= j < ENTRIES
      ensures Pte(ram'.mem, d, i, j) == Pte(r.mem, d, i, j)
    {
      SameTables(r, own, dirs, ram'.mem, d, i, j);
    }
    forall d, i | d in dirs && 0 <= i < ENTRIES
      ensures Pde(ram'.mem, d, i) == Pde(r.mem, d, i)
    {
      SameTables(r, own, dirs, ram'.mem, d, i, 0);
    }
  }

  function AddOwn(ram: Ram, own: map<nat, Use>, d: nat, i: nat, j: nat, m1: Memory): map<nat, Use> {
    OwnPage(Allocated(ram, m1), own, d, i, j, Alloc(ram.used).0)
  }

  /** The frame taken is mapped at page (i, j), or nowhere if its table cannot be had; everything stays apart and no
      other entry changes. */
  lemma AddPageKeeps(ram: Ram, own: map<nat, Use>, dirs: set<nat>, d: nat, i: nat, j: nat, flags: Word,
                     m1: Memory, ram': Ram)
    requires Separated(ram, own, dirs) && d in dirs && i < KERNEL_PDT_IDX && j < ENTRIES
    requires AddsPage(ram, d, i, j, flags, m1, ram')
    ensures Separated(ram', AddOwn(ram, own, d, i, j, m1), dirs)
    ensures if HasTable(Allocated(ram, m1), d, i)
            then OnlyEntry(ram.mem, ram'.mem, dirs, d, i, j, Entry(Alloc(ram.used).0, flags))
            else SameEntries(ram.mem, ram'.mem, dirs)
    ensures Present(Pde(ram'.mem, d, i)) == HasTable(Allocated(ram, m1), d, i)
    ensures forall i' :: 0 <= i' < ENTRIES && i' != i ==> Pde(ram'.mem, d, i') == Pde(ram.mem, d, i')
  {
    hide Present, FrameOf, LargePage, Pde, Pte, Alloc, MapPage, HasTable, OwnTable, EnsureTable, Separated, Entry;
    var f, ram1 := Alloc(ram.used).0, Allocated(ram, m1);
    SeparatedFrames(ram, own, dirs, f);
    AllocTakesLowest(ram.used);
    TakenKeeps(ram, own, dirs, m1);
    MapPageKeeps(ram1, own, dirs, d, i, j, f, flags);
    var r, own' := MapPage(ram1, d, i, j, Entry(f, flags)), AddOwn(ram, own, d, i, j, m1);
    OwnedAsPage(ram1, own, d, i, j, f);
    FilledKeeps(r, own', dirs, ram', f);
    forall i' | 0 <= i' < ENTRIES
      ensures i' == i ==> Present(Pde(ram'.mem, d, i')) == HasTable(ram1, d, i)
      ensures i' != i ==> Pde(ram'.mem, d, i') == Pde(ram.mem, d, i')
    {
      MapPagePdes(ram1, own, dirs, d, i, j, Entry(f, flags), i');
    }
  }

  lemma SeparatedFrames(ram: Ram, own: map<nat, Use>, dirs: set<nat>, f: nat)
    requires Separated(ram, own, dirs)
    ensures ram.used[0] && (f in own ==> 0 < f < TOTAL_FRAMES && ram.used[f])
  {
  }

  lemma OwnedAsPage(ram: Ram, own: map<nat, Use>, d: nat, i: nat, j: nat, f: nat)
    requires ram.used[0] && 0 < f < TOTAL_FRAMES && ram.used[f] && f !in own
    ensures var own' := OwnPage(ram, own, d, i, j, f); f in own' ==> own'[f].Page?
  {
    AllocTakesLowest(ram.used);
  }

  lemma MapPagePdes(ram: Ram, own: map<nat, Use>, dirs: set<nat>, d: nat, i: nat, j: nat, e: Word, i': nat)
    requires Separated(ram, own, dirs) && d in dirs && i < KERNEL_PDT_IDX && j < ENTRIES && i' < ENTRIES
    ensures i' == i ==> Present(Pde(MapPage(ram, d, i, j, e).mem, d, i')) == HasTable(ram, d, i)
    ensures i' != i ==> Pde(MapPage(ram, d, i, j, e).mem, d, i') == Pde(ram.mem, d, i')
  {
    hide Present, FrameOf, LargePage, Pde, Pte, Alloc, MapPage, Entry;
    AllocTakesLowest(ram.used);
    TableEntry(Alloc(ram.used).0);
    MapPageAt(ram, own, dirs, d, i, j, e, d, i', 0);
  }

  /** What the step may write: the frame taken, and directory and tables of d. */
  lemma AddPageWrites(ram: Ram, own: map<nat, Use>, dirs: set<nat>, d: nat, i: nat, j: nat, flags: Word,
                      m1: Memory, ram': Ram, g: nat)
    requires Separated(ram, own, dirs) && d in dirs && i < KERNEL_PDT_IDX && j < ENTRIES
    requires AddsPage(ram, d, i, j, flags, m1, ram') && g < TOTAL_FRAMES
    ensures ram.used[g] || g == Alloc(ram.used).0 ==> ram'.used[g]
    ensures ram.used[g] ==> (g in own && own[g].d == d && !own[g].Page?) || ram'.mem[g] == ram.mem[g]
    ensures g == Alloc(ram.used).0 ==>
              MapPage(Allocated(ram, m1), d, i, j, Entry(Alloc(ram.used).0, flags)).mem[g] == m1[g]
  {
    hide Present, FrameOf, LargePage, Pde, Pte, Alloc, MapPage, EnsureTable, Entry, PagesApart;
    AllocTakesLowest(ram.used);
    TakenKeeps(ram, own, dirs, m1);
    if ram.used[g] || g == Alloc(ram.used).0 {
      MapPageWrites(Allocated(ram, m1), own, dirs, d, i, j, Entry(Alloc(ram.used).0, flags), g);
    }
  }

  lemma OwnTableGrows(ram: Ram, own: map<nat, Use>, d: nat, i: nat, m1: Memory)
    requires ram.used[0] && Alloc(ram.used).0 != 0
    requires forall g :: g in own ==> g < TOTAL_FRAMES && ram.used[g]
    ensures Grown(ram, own, OwnTable(Allocated(ram, m1), own, d, i), d)
    ensures Alloc(ram.used).0 !in OwnTable(Allocated(ram, m1), own, d, i)
  {
    hide Present, Alloc, Pde, FreeCount;
    AllocTakesLowest(ram.used);
    AllocTakesLowest(Alloc(ram.used).1);
  }

  lemma AddPageGrows(ram: Ram, own: map<nat, Use>, d: nat, i: nat, j: nat, m1: Memory)
    requires ram.used[0] && Alloc(ram.used).0 != 0
    requires forall g :: g in own ==> g < TOTAL_FRAMES && ram.used[g]
    ensures Grown(ram, own, AddOwn(ram, own, d, i, j, m1), d)
  {
    hide OwnTable, HasTable, Alloc, FreeCount;
    AllocTakesLowest(ram.used);
    OwnTableGrows(ram, own, d, i, m1);
  }

  lemma AddPageAdvances(ram: Ram, own: map<nat, Use>, dirs: set<nat>, d: nat, i: nat, j: nat, flags: Word,
                        m1: Memory, ram': Ram)
    requires Separated(ram, own, dirs) && d in dirs && i < KERNEL_PDT_IDX && j < ENTRIES
    requires AddsPage(ram, d, i, j, flags, m1, ram')
    ensures Advances(ram, own, ram', AddOwn(ram, own, d, i, j, m1), d)
  {
    hide Present, FrameOf, LargePage, Pde, Pte, Alloc, MapPage, Entry, AddsPage, AddOwn, Grown, PagesApart;
    AddsAFrame(ram, d, i, j, flags, m1, ram');
    AddPageGrows(ram, own, d, i, j, m1);
    forall g | 0 <= g < TOTAL_FRAMES && ram.used[g]
      ensures ram'.used[g] && ((g in own && own[g].d == d && !own[g].Page?) || ram'.mem[g] == ram.mem[g])
    {
      AddPageWrites(ram, own, dirs, d, i, j, flags, m1, ram', g);
    }
    AddPageLeavesFree(ram, own, dirs, d, i, j, flags, m1, ram');
  }

  lemma AddPageLeavesFree(ram: Ram, own: map<nat, Use>, dirs: set<nat>, d: nat, i: nat, j: nat, flags: Word,
                          m1: Memory, ram': Ram)
    requires Separated(ram, own, dirs) && d in dirs && i < KERNEL_PDT_IDX && j < ENTRIES
    requires AddsPage(ram, d, i, j, flags, m1, ram')
    ensures LeavesFree(ram, ram')
  {
    hide Present, FrameOf, LargePage, Pde, Pte, Alloc, MapPage, Entry, EnsureTable, PagesApart;
    AllocTakesLowest(ram.used);
    TakenKeeps(ram, own, dirs, m1);
    var f, r := Alloc(ram.used).0, Allocated(ram, m1);
    forall g | 0 <= g < TOTAL_FRAMES
      ensures (ram.used[g] ==> ram'.used[g]) && (!ram'.used[g] ==> ram'.mem[g] == ram.mem[g])
    {
      if r.used[g] {
        MapPageWrites(r, own, dirs, d, i, j, Entry(f, flags), g);
      } else if !ram'.used[g] {
        TakesItsTable(r, d, i, j, Entry(f, flags));
        MapPageLeaves(r, own, dirs, d, i, j, Entry(f, flags), g);
      }
    }
  }

  lemma TakesItsTable(ram: Ram, d: nat, i: nat, j: nat, e: Word)
    requires ram.used[0]
    ensures !Present(Pde(ram.mem, d, i)) && Alloc(ram.used).0 != 0 ==> MapPage(ram, d, i, j, e).used[Alloc(ram.used).0]
  {
    hide Present, FrameOf, Pde, Entry, InstallTable, Alloc, FreeCount;
    AllocTakesLowest(ram.used);
  }

  lemma AddsAFrame(ram: Ram, d: nat, i: nat, j: nat, flags: Word, m1: Memory, ram': Ram)
    requires AddsPage(ram, d, i, j, flags, m1, ram')
    ensures Alloc(ram.used).0 != 0 && DiffersOnlyAt(ram.mem, m1, Alloc(ram.used).0) && flags < FRAME_SIZE
  {
  }

  /** Frames used up: one for the page, one more when its table is new and can be had. */
  lemma AddPageCost(ram: Ram, own: map<nat, Use>, dirs: set<nat>, d: nat, i: nat, j: nat, flags: Word,
                    m1: Memory, ram': Ram)
    requires Separated(ram, own, dirs) && d in dirs && i < KERNEL_PDT_IDX && j < ENTRIES
    requires AddsPage(ram, d, i, j, flags, m1, ram')
    ensures HasTable(Allocated(ram, m1), d, i) <==> Present(Pde(ram.mem, d, i)) || FreeCount(ram.used) >= 2
    ensures FreeCount(ram'.used) == FreeCount(ram.used) - 1 -
              (if !Present(Pde(ram.mem, d, i)) && FreeCount(ram.used) >= 2 then 1 else 0)
  {
    hide Present, FrameOf, LargePage, Pde, Pte, Alloc, Entry, InstallTable, FreeCount, PagesApart;
    AllocTakesLowest(ram.used);
    AllocTakesLowest(Alloc(ram.used).1);
    TakenKeeps(ram, own, dirs, m1);
  }
}

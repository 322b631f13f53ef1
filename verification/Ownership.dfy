/** Who owns which frame. Directories, tables and user pages of all processes live in
    one physical memory; the ledger own records the single use of each frame handed
    out, and everything map_page does is judged against it. */
module Ownership {
  import opened Machine
  import opened FramePool
  import opened PageTables

  lemma TableEntry(t: nat)
    requires t < TOTAL_FRAMES
    ensures FrameOf(Entry(t, 7)) == t && Present(Entry(t, 7)) && !LargePage(Entry(t, 7))
  {
    EntryFields(t, 7);
  }

  datatype Use = Directory(d: nat) | Table(d: nat, i: nat) | Page(d: nat, i: nat, j: nat)

  /** Directories dirs and their user tables lie in allocated frames of their own. */
  ghost predicate TablesApart(ram: Ram, own: map<nat, Use>, dirs: set<nat>) {
    && ram.used[0] && 0 !in own
    && (forall g :: g in own ==> g < TOTAL_FRAMES && ram.used[g])
    && (forall d :: d in dirs ==> d in own && own[d] == Directory(d))
    && (forall d, i :: d in dirs && 0 <= i < KERNEL_PDT_IDX && Present(Pde(ram.mem, d, i)) ==>
          TableApart(ram.mem, own, d, i))
  }

  ghost predicate TableApart(mem: Memory, own: map<nat, Use>, d: nat, i: nat) {
    var pde := Pde(mem, d, i);
    FrameOf(pde) in own && own[FrameOf(pde)] == Table(d, i) && !LargePage(pde)
  }

  /** ... and so does every user page they map. */
  ghost predicate PagesApart(mem: Memory, own: map<nat, Use>, dirs: set<nat>) {
    forall d, i, j :: d in dirs && 0 <= i < KERNEL_PDT_IDX && 0 <= j < ENTRIES && Present(Pte(mem, d, i, j)) ==>
      PageApart(mem, own, d, i, j)
  }

  ghost predicate PageApart(mem: Memory, own: map<nat, Use>, d: nat, i: nat, j: nat) {
    var f := FrameOf(Pte(mem, d, i, j));
    f in own && own[f] == Page(d, i, j)
  }

  /** map_page reaches a table: one is there, or a frame for it is free. */
  predicate HasTable(ram: Ram, d: nat, i: nat) {
    Present(Pde(ram.mem, d, i)) || Alloc(ram.used).0 != 0
  }

  function OwnTable(ram: Ram, own: map<nat, Use>, d: nat, i: nat): map<nat, Use> {
    if Present(Pde(ram.mem, d, i)) || Alloc(ram.used).0 == 0 then own else own[Alloc(ram.used).0 := Table(d, i)]
  }

  lemma InstallTableAt(mem: Memory, t: nat, d: nat, i: nat, f: nat, k: nat)
    requires t < TOTAL_FRAMES && d < TOTAL_FRAMES && t != d && i < ENTRIES && f < TOTAL_FRAMES && k < ENTRIES
    ensures ReadWord(InstallTable(mem, t, d, i), f, k) ==
            if (f, k) == (d, i) then Entry(t, 7) else if f == t then 0 else ReadWord(mem, f, k)
  {
  }

  lemma EnsureTableAt(ram: Ram, own: map<nat, Use>, dirs: set<nat>, d: nat, i: nat, d': nat, i': nat, j': nat)
    requires TablesApart(ram, own, dirs) && d in dirs && i < KERNEL_PDT_IDX
    requires d' in dirs && i' < ENTRIES && j' < ENTRIES
    ensures var m' := EnsureTable(ram, d, i).mem;
            && Pde(m', d', i') == (if (d', i') == (d, i) && !Present(Pde(ram.mem, d, i)) && HasTable(ram, d, i)
                                   then Entry(Alloc(ram.used).0, 7) else Pde(ram.mem, d', i'))
            && (i' < KERNEL_PDT_IDX ==> Pte(m', d', i', j') == Pte(ram.mem, d', i', j'))
  {
    hide Present, FrameOf, LargePage, Alloc, Entry, ReadWord, InstallTable;
    AllocTakesLowest(ram.used);
    var t := Alloc(ram.used).0;
    if !Present(Pde(ram.mem, d, i)) && t != 0 {
      TableEntry(t);
      InstallTableAt(ram.mem, t, d, i, d', i');
      if (d', i') == (d, i) {
        InstallTableAt(ram.mem, t, d, i, t, j');
      } else if i' < KERNEL_PDT_IDX && Present(Pde(ram.mem, d', i')) {
        assert TableApart(ram.mem, own, d', i');
        InstallTableAt(ram.mem, t, d, i, FrameOf(Pde(ram.mem, d', i')), j');
      }
    }
  }

  lemma EnsureTableApart(ram: Ram, own: map<nat, Use>, dirs: set<nat>, d: nat, i: nat, d': nat, i': nat)
    requires TablesApart(ram, own, dirs) && d in dirs && i < KERNEL_PDT_IDX
    requires d' in dirs && i' < KERNEL_PDT_IDX && Present(Pde(EnsureTable(ram, d, i).mem, d', i'))
    ensures TableApart(EnsureTable(ram, d, i).mem, OwnTable(ram, own, d, i), d', i')
  {
    hide Present, FrameOf, LargePage, Alloc, Entry, Pde, Pte, EnsureTable;
    AllocTakesLowest(ram.used);
    TableEntry(Alloc(ram.used).0);
    EnsureTableAt(ram, own, dirs, d, i, d', i', 0);
    assert Present(Pde(ram.mem, d', i')) ==> TableApart(ram.mem, own, d', i');
  }

  lemma EnsureTableUsed(ram: Ram, own: map<nat, Use>, d: nat, i: nat)
    requires ram.used[0] && 0 !in own && forall g :: g in own ==> g < TOTAL_FRAMES && ram.used[g]
    ensures var own' := OwnTable(ram, own, d, i);
            && EnsureTable(ram, d, i).used[0] && 0 !in own'
            && (forall g :: g in own' ==> g < TOTAL_FRAMES && EnsureTable(ram, d, i).used[g])
            && (forall g :: g in own ==> g in own' && own'[g] == own[g])
  {
    hide Present, Alloc, Entry, Pde, InstallTable;
    AllocTakesLowest(ram.used);
  }

  lemma EnsureTableKeeps(ram: Ram, own: map<nat, Use>, dirs: set<nat>, d: nat, i: nat)
    requires TablesApart(ram, own, dirs) && d in dirs && i < KERNEL_PDT_IDX
    ensures TablesApart(EnsureTable(ram, d, i), OwnTable(ram, own, d, i), dirs)
    ensures Present(Pde(EnsureTable(ram, d, i).mem, d, i)) == HasTable(ram, d, i)
  {
    hide Present, FrameOf, LargePage, Alloc, Entry, Pde, Pte, EnsureTable, TableApart, OwnTable;
    AllocTakesLowest(ram.used);
    TableEntry(Alloc(ram.used).0);
    EnsureTableUsed(ram, own, d, i);
    forall d', i' | d' in dirs && 0 <= i' < KERNEL_PDT_IDX && Present(Pde(EnsureTable(ram, d, i).mem, d', i'))
      ensures TableApart(EnsureTable(ram, d, i).mem, OwnTable(ram, own, d, i), d', i')
    {
      EnsureTableApart(ram, own, dirs, d, i, d', i');
    }
    EnsureTableAt(ram, own, dirs, d, i, d, i, 0);
  }

  /** What map_page does to any entry of any directory. */
  lemma MapPageAt(ram: Ram, own: map<nat, Use>, dirs: set<nat>, d: nat, i: nat, j: nat, e: Word,
                  d': nat, i': nat, j': nat)
    requires TablesApart(ram, own, dirs) && d in dirs && i < KERNEL_PDT_IDX && j < ENTRIES
    requires d' in dirs && i' < ENTRIES && j' < ENTRIES
    ensures var m' := MapPage(ram, d, i, j, e).mem;
            && Pde(m', d', i') == (if (d', i') == (d, i) && !Present(Pde(ram.mem, d, i)) && HasTable(ram, d, i)
                                   then Entry(Alloc(ram.used).0, 7) else Pde(ram.mem, d', i'))
            && (i' < KERNEL_PDT_IDX ==>
               Pte(m', d', i', j') == if (d', i', j') == (d, i, j) && HasTable(ram, d, i) then e
                                      else Pte(ram.mem, d', i', j'))
  {
    var r, own' := EnsureTable(ram, d, i), OwnTable(ram, own, d, i);
    EnsureTableKeeps(ram, own, dirs, d, i);
    EnsureTableAt(ram, own, dirs, d, i, d', i', j');
    if Present(Pde(r.mem, d, i)) {
      assert TableApart(r.mem, own', d, i);
      var m' := MapPage(ram, d, i, j, e).mem;
      assert Pde(m', d', i') == Pde(r.mem, d', i');
      if i' < KERNEL_PDT_IDX && Present(Pde(r.mem, d', i')) {
        assert TableApart(r.mem, own', d', i');
      }
    }
  }

  ghost predicate Separated(ram: Ram, own: map<nat, Use>, dirs: set<nat>) {
    TablesApart(ram, own, dirs) && PagesApart(ram.mem, own, dirs)
  }

  ghost predicate AgreeOffPages(m: Memory, m': Memory, own: map<nat, Use>) {
    forall g :: g in own && g < TOTAL_FRAMES && !own[g].Page? ==> m'[g] == m[g]
  }

  /** Stores into frames that are not directories or tables change no translation. */
  lemma SameTables(ram: Ram, own: map<nat, Use>, dirs: set<nat>, m': Memory, d: nat, i: nat, j: nat)
    requires TablesApart(ram, own, dirs) && AgreeOffPages(ram.mem, m', own)
    requires d in dirs && i < ENTRIES && j < ENTRIES
    ensures Pde(m', d, i) == Pde(ram.mem, d, i)
    ensures i < KERNEL_PDT_IDX ==> Pte(m', d, i, j) == Pte(ram.mem, d, i, j)
  {
    hide Present, FrameOf, LargePage;
    if i < KERNEL_PDT_IDX && Present(Pde(ram.mem, d, i)) {
      assert TableApart(ram.mem, own, d, i);
    }
  }

  lemma SameTablesKeep(ram: Ram, own: map<nat, Use>, dirs: set<nat>, ram': Ram)
    requires Separated(ram, own, dirs) && AgreeOffPages(ram.mem, ram'.mem, own)
    requires forall g :: 0 <= g < TOTAL_FRAMES && ram.used[g] ==> ram'.used[g]
    ensures Separated(ram', own, dirs)
  {
    hide Present, FrameOf, LargePage, Pde, Pte;
    forall d, i | d in dirs && 0 <= i < KERNEL_PDT_IDX && Present(Pde(ram'.mem, d, i))
      ensures TableApart(ram'.mem, own, d, i)
    {
      SameTables(ram, own, dirs, ram'.mem, d, i, 0);
      assert TableApart(ram.mem, own, d, i);
    }
    forall d, i, j | d in dirs && 0 <= i < KERNEL_PDT_IDX && 0 <= j < ENTRIES && Present(Pte(ram'.mem, d, i, j))
      ensures PageApart(ram'.mem, own, d, i, j)
    {
      SameTables(ram, own, dirs, ram'.mem, d, i, j);
      assert PageApart(ram.mem, own, d, i, j);
    }
  }

  // ---- What work on the address space of directory c may change ----

  /** Frames stay taken, and only c's own directory and tables are written. */
  ghost predicate Preserved(ram: Ram, own: map<nat, Use>, ram': Ram, c: nat) {
    forall g {:trigger ram.used[g]} {:trigger ram'.mem[g]} :: 0 <= g < TOTAL_FRAMES && ram.used[g] ==>
      ram'.used[g] && ((g in own && own[g].d == c && !own[g].Page?) || ram'.mem[g] == ram.mem[g])
  }

  /** The ledger keeps every line and gains lines only for c and only for frames that were free. */
  ghost predicate Grown(ram: Ram, own: map<nat, Use>, own': map<nat, Use>, c: nat) {
    && (forall g :: g in own ==> g in own' && own'[g] == own[g])
    && (forall g :: g in own' && g !in own ==> own'[g].d == c && g < TOTAL_FRAMES && !ram.used[g])
  }

  /** Frames taken stay taken, and those that are free afterwards have not been written. */
  ghost predicate LeavesFree(ram: Ram, ram': Ram) {
    forall g {:trigger ram'.used[g]} {:trigger ram'.mem[g]} :: 0 <= g < TOTAL_FRAMES ==>
      (ram.used[g] ==> ram'.used[g]) && (!ram'.used[g] ==> ram'.mem[g] == ram.mem[g])
  }

  lemma LeavesFreeTransitive(r0: Ram, r1: Ram, r2: Ram)
    requires LeavesFree(r0, r1) && LeavesFree(r1, r2)
    ensures LeavesFree(r0, r2)
  {
    forall g | 0 <= g < TOTAL_FRAMES
      ensures (r0.used[g] ==> r2.used[g]) && (!r2.used[g] ==> r2.mem[g] == r0.mem[g])
    {
      assert (r0.used[g] ==> r1.used[g]) && (!r1.used[g] ==> r1.mem[g] == r0.mem[g]);
    }
  }

  ghost predicate Advances(ram: Ram, own: map<nat, Use>, ram': Ram, own': map<nat, Use>, c: nat) {
    Preserved(ram, own, ram', c) && Grown(ram, own, own', c) && LeavesFree(ram, ram')
  }

  lemma AdvancesTransitive(r0: Ram, o0: map<nat, Use>, r1: Ram, o1: map<nat, Use>, r2: Ram, o2: map<nat, Use>, c: nat)
    requires Advances(r0, o0, r1, o1, c) && Advances(r1, o1, r2, o2, c)
    ensures Advances(r0, o0, r2, o2, c)
  {
    LeavesFreeTransitive(r0, r1, r2);
    forall g | 0 <= g < TOTAL_FRAMES && r0.used[g]
      ensures r2.used[g] && ((g in o0 && o0[g].d == c && !o0[g].Page?) || r2.mem[g] == r0.mem[g])
    {
      assert r1.used[g];
    }
  }

  lemma EnsureTableWrites(ram: Ram, d: nat, i: nat, g: nat)
    requires ram.used[0] && d < TOTAL_FRAMES && ram.used[d] && g < TOTAL_FRAMES && ram.used[g]
    ensures EnsureTable(ram, d, i).used[g]
    ensures g == d || EnsureTable(ram, d, i).mem[g] == ram.mem[g]
  {
    hide Present, Alloc, Entry, Pde;
    AllocTakesLowest(ram.used);
  }

  lemma MapPageWrites(ram: Ram, own: map<nat, Use>, dirs: set<nat>, d: nat, i: nat, j: nat, e: Word, g: nat)
    requires TablesApart(ram, own, dirs) && d in dirs && i < KERNEL_PDT_IDX && j < ENTRIES
    requires g < TOTAL_FRAMES && ram.used[g]
    ensures MapPage(ram, d, i, j, e).used[g]
    ensures (g in own && own[g].d == d && !own[g].Page?) || MapPage(ram, d, i, j, e).mem[g] == ram.mem[g]
  {
    hide Present, FrameOf, LargePage, Alloc, Entry, Pde, Pte, EnsureTable;
    AllocTakesLowest(ram.used);
    EnsureTableKeeps(ram, own, dirs, d, i);
    EnsureTableWrites(ram, d, i, g);
    var r := EnsureTable(ram, d, i);
    if Present(Pde(r.mem, d, i)) {
      assert TableApart(r.mem, OwnTable(ram, own, d, i), d, i);
    }
  }

  /** map_page writes directory d and its tables, a new one included. */
  lemma MapPageLeaves(ram: Ram, own: map<nat, Use>, dirs: set<nat>, d: nat, i: nat, j: nat, e: Word, g: nat)
    requires TablesApart(ram, own, dirs) && d in dirs && i < KERNEL_PDT_IDX && j < ENTRIES && g < TOTAL_FRAMES
    requires (g in own ==> own[g].d != d) && (!Present(Pde(ram.mem, d, i)) ==> g != Alloc(ram.used).0)
    ensures MapPage(ram, d, i, j, e).mem[g] == ram.mem[g]
  {
    hide Present, FrameOf, LargePage, Alloc, Entry, Pde, EnsureTable, TableApart, FreeCount;
    AllocTakesLowest(ram.used);
    EnsureTableKeeps(ram, own, dirs, d, i);
    EnsureTableLeaves(ram, d, i, g);
    var r := EnsureTable(ram, d, i);
    if Present(Pde(r.mem, d, i)) {
      TableOf(r, OwnTable(ram, own, d, i), dirs, d, i);
    }
  }

  lemma TableOf(ram: Ram, own: map<nat, Use>, dirs: set<nat>, d: nat, i: nat)
    requires TablesApart(ram, own, dirs) && d in dirs && i < KERNEL_PDT_IDX && Present(Pde(ram.mem, d, i))
    ensures FrameOf(Pde(ram.mem, d, i)) in own && own[FrameOf(Pde(ram.mem, d, i))] == Table(d, i)
  {
    hide Present, FrameOf, LargePage, Pde;
    assert TableApart(ram.mem, own, d, i);
  }

  lemma EnsureTableLeaves(ram: Ram, d: nat, i: nat, g: nat)
    requires g < TOTAL_FRAMES && g != d && (!Present(Pde(ram.mem, d, i)) ==> g != Alloc(ram.used).0)
    ensures EnsureTable(ram, d, i).mem[g] == ram.mem[g]
  {
    hide Present, Alloc, Entry, Pde;
  }

  ghost predicate DiffersOnlyAt(m: Memory, m': Memory, f: nat) {
    forall g :: 0 <= g < TOTAL_FRAMES && g != f ==> m'[g] == m[g]
  }

  /** Every entry reads as before, except that page (i, j) of directory d now reads e. */
  ghost predicate OnlyEntry(m: Memory, m': Memory, dirs: set<nat>, d: nat, i: nat, j: nat, e: Word) {
    forall d', i', j' {:trigger Pte(m', d', i', j')} :: d' in dirs && 0 <= i' < KERNEL_PDT_IDX && 0 <= j' < ENTRIES ==>
      Pte(m', d', i', j') == if (d', i', j') == (d, i, j) then e else Pte(m, d', i', j')
  }

  ghost predicate SameEntries(m: Memory, m': Memory, dirs: set<nat>) {
    forall d', i', j' {:trigger Pte(m', d', i', j')} :: d' in dirs && 0 <= i' < KERNEL_PDT_IDX && 0 <= j' < ENTRIES ==>
      Pte(m', d', i', j') == Pte(m, d', i', j')
  }

  function OwnPage(ram: Ram, own: map<nat, Use>, d: nat, i: nat, j: nat, f: nat): map<nat, Use> {
    if HasTable(ram, d, i) then OwnTable(ram, own, d, i)[f := Page(d, i, j)] else OwnTable(ram, own, d, i)
  }

  /** map_page of a frame nobody uses yet keeps everything apart. */
  lemma MapPageKeeps(ram: Ram, own: map<nat, Use>, dirs: set<nat>, d: nat, i: nat, j: nat, f: nat, flags: Word)
    requires Separated(ram, own, dirs) && d in dirs && i < KERNEL_PDT_IDX && j < ENTRIES
    requires 0 < f < TOTAL_FRAMES && ram.used[f] && f !in own && flags < FRAME_SIZE
    ensures var ram' := MapPage(ram, d, i, j, Entry(f, flags));
            && Separated(ram', OwnPage(ram, own, d, i, j, f), dirs)
            && (if HasTable(ram, d, i) then OnlyEntry(ram.mem, ram'.mem, dirs, d, i, j, Entry(f, flags))
                else SameEntries(ram.mem, ram'.mem, dirs))
  {
    hide Present, FrameOf, LargePage, Alloc, Entry, Pde, Pte, EnsureTable, MapPage, HasTable, TableApart, PageApart;
    var e := Entry(f, flags);
    var ram', own' := MapPage(ram, d, i, j, e), OwnPage(ram, own, d, i, j, f);
    MapPageTables(ram, own, dirs, d, i, j, f, e);
    forall d', i', j' {:trigger Pte(ram'.mem, d', i', j')} | d' in dirs && 0 <= i' < KERNEL_PDT_IDX && 0 <= j' < ENTRIES
      ensures Pte(ram'.mem, d', i', j') == if (d', i', j') == (d, i, j) && HasTable(ram, d, i) then e
                                           else Pte(ram.mem, d', i', j')
    {
      MapPageAt(ram, own, dirs, d, i, j, e, d', i', j');
    }
    forall d', i', j' | d' in dirs && 0 <= i' < KERNEL_PDT_IDX && 0 <= j' < ENTRIES
      && Present(Pte(ram'.mem, d', i', j'))
      ensures PageApart(ram'.mem, own', d', i', j')
    {
      MapPagePageApart(ram, own, dirs, d, i, j, f, flags, d', i', j');
    }
  }

  lemma MapPagePageApart(ram: Ram, own: map<nat, Use>, dirs: set<nat>, d: nat, i: nat, j: nat, f: nat, flags: Word,
                         d': nat, i': nat, j': nat)
    requires Separated(ram, own, dirs) && d in dirs && i < KERNEL_PDT_IDX && j < ENTRIES
    requires 0 < f < TOTAL_FRAMES && ram.used[f] && f !in own && flags < FRAME_SIZE
    requires d' in dirs && i' < KERNEL_PDT_IDX && j' < ENTRIES
    requires Present(Pte(MapPage(ram, d, i, j, Entry(f, flags)).mem, d', i', j'))
    ensures PageApart(MapPage(ram, d, i, j, Entry(f, flags)).mem, OwnPage(ram, own, d, i, j, f), d', i', j')
  {
    hide Present, FrameOf, LargePage, Alloc, Entry, Pde, Pte, EnsureTable, MapPage;
    AllocTakesLowest(ram.used);
    EntryFields(f, flags);
    MapPageAt(ram, own, dirs, d, i, j, Entry(f, flags), d', i', j');
    assert Present(Pte(ram.mem, d', i', j')) ==> PageApart(ram.mem, own, d', i', j');
  }

  lemma MapPageTableApart(ram: Ram, own: map<nat, Use>, dirs: set<nat>, d: nat, i: nat, j: nat, f: nat, e: Word,
                          d': nat, i': nat)
    requires TablesApart(ram, own, dirs) && d in dirs && i < KERNEL_PDT_IDX && j < ENTRIES
    requires 0 < f < TOTAL_FRAMES && ram.used[f] && f !in own
    requires d' in dirs && i' < KERNEL_PDT_IDX && Present(Pde(MapPage(ram, d, i, j, e).mem, d', i'))
    ensures TableApart(MapPage(ram, d, i, j, e).mem, OwnPage(ram, own, d, i, j, f), d', i')
  {
    hide Present, FrameOf, LargePage, Alloc, Entry, Pde, Pte, EnsureTable, MapPage;
    AllocTakesLowest(ram.used);
    EnsureTableKeeps(ram, own, dirs, d, i);
    MapPageAt(ram, own, dirs, d, i, j, e, d', i', 0);
    EnsureTableAt(ram, own, dirs, d, i, d', i', 0);
    assert TableApart(EnsureTable(ram, d, i).mem, OwnTable(ram, own, d, i), d', i');
  }

  lemma MapPageTables(ram: Ram, own: map<nat, Use>, dirs: set<nat>, d: nat, i: nat, j: nat, f: nat, e: Word)
    requires TablesApart(ram, own, dirs) && d in dirs && i < KERNEL_PDT_IDX && j < ENTRIES
    requires 0 < f < TOTAL_FRAMES && ram.used[f] && f !in own
    ensures TablesApart(MapPage(ram, d, i, j, e), OwnPage(ram, own, d, i, j, f), dirs)
  {
    hide Present, FrameOf, LargePage, Alloc, Entry, Pde, Pte, EnsureTable, TableApart, HasTable;
    var ram' := MapPage(ram, d, i, j, e);
    AllocTakesLowest(ram.used);
    EnsureTableKeeps(ram, own, dirs, d, i);
    EnsureTableWrites(ram, d, i, f);
    forall d', i' | d' in dirs && 0 <= i' < KERNEL_PDT_IDX && Present(Pde(ram'.mem, d', i'))
      ensures TableApart(ram'.mem, OwnPage(ram, own, d, i, j, f), d', i')
    {
      MapPageTableApart(ram, own, dirs, d, i, j, f, e, d', i');
    }
  }

  // ---- Address spaces compared ----

  /** Directory d translates every user page the same way to the same contents, and has the same entries. */
  ghost predicate SameSpace(m: Memory, m': Memory, d: nat) {
    && (forall i {:trigger Pde(m', d, i)} :: 0 <= i < ENTRIES ==> Pde(m', d, i) == Pde(m, d, i))
    && (forall i, j {:trigger SamePage(m, m', d, i, j)} {:trigger Pte(m', d, i, j)} ::
          0 <= i < KERNEL_PDT_IDX && 0 <= j < ENTRIES ==> SamePage(m, m', d, i, j))
  }

  ghost predicate SamePage(m: Memory, m': Memory, d: nat, i: nat, j: nat) {
    && Pte(m', d, i, j) == Pte(m, d, i, j)
    && (Present(Pte(m, d, i, j)) ==> ReadFrame(m', FrameOf(Pte(m, d, i, j))) == ReadFrame(m, FrameOf(Pte(m, d, i, j))))
  }

  /** Frames taken stay taken, and of these none but d's own is written; free ones that are written are taken. */
  ghost predicate Confined(ram: Ram, own: map<nat, Use>, ram': Ram, d: nat) {
    && LeavesFree(ram, ram')
    && forall g {:trigger ram.used[g]} {:trigger ram'.mem[g]} :: 0 <= g < TOTAL_FRAMES && ram.used[g] ==>
         ram'.used[g] && ((g in own && own[g].d == d) || ram'.mem[g] == ram.mem[g])
  }

  lemma SamePageOfOthers(ram: Ram, own: map<nat, Use>, ram': Ram, dirs: set<nat>, c: nat, d: nat, i: nat, j: nat)
    requires Separated(ram, own, dirs) && Confined(ram, own, ram', c)
    requires d in dirs && d != c && i < KERNEL_PDT_IDX && j < ENTRIES
    ensures SamePage(ram.mem, ram'.mem, d, i, j)
  {
    hide Present, LargePage, FrameOf;
    assert ram.used[d];
    if Present(Pde(ram.mem, d, i)) {
      assert TableApart(ram.mem, own, d, i);
      assert ram.used[FrameOf(Pde(ram.mem, d, i))];
      if Present(Pte(ram.mem, d, i, j)) {
        assert PageApart(ram.mem, own, d, i, j);
        assert ram.used[FrameOf(Pte(ram.mem, d, i, j))];
      }
    }
  }

  /** Work on c's address space leaves every other one as it was. */
  lemma OthersUntouched(ram: Ram, own: map<nat, Use>, ram': Ram, dirs: set<nat>, c: nat, d: nat)
    requires Separated(ram, own, dirs) && Confined(ram, own, ram', c)
    requires d in dirs && d != c
    ensures SameSpace(ram.mem, ram'.mem, d)
  {
    hide Pte, SamePage, PagesApart;
    assert ram.used[d];
    forall i, j | 0 <= i < KERNEL_PDT_IDX && 0 <= j < ENTRIES
      ensures SamePage(ram.mem, ram'.mem, d, i, j)
    {
      SamePageOfOthers(ram, own, ram', dirs, c, d, i, j);
    }
  }

  /** A page once mapped keeps its contents while more is added to its address space. */
  lemma PageStays(ram: Ram, own: map<nat, Use>, ram': Ram, dirs: set<nat>, c: nat, i: nat, j: nat)
    requires Separated(ram, own, dirs) && Preserved(ram, own, ram', c)
    requires c in dirs && i < KERNEL_PDT_IDX && j < ENTRIES && Present(Pte(ram.mem, c, i, j))
    ensures ReadFrame(ram'.mem, FrameOf(Pte(ram.mem, c, i, j))) == ReadFrame(ram.mem, FrameOf(Pte(ram.mem, c, i, j)))
  {
    hide Present, FrameOf, LargePage, Pde, Pte, TableApart;
    assert PageApart(ram.mem, own, c, i, j);
    assert ram.used[FrameOf(Pte(ram.mem, c, i, j))];
  }
}

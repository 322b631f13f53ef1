/** map_page, unmap_page and get_physical_address (mem/paging.c) implement a finite map from
    user pages to entries, and agree with the walk the processor does. */
module Translation {
  import opened Machine
  import opened PageTables
  import opened Ownership

  const KERNEL_VIRTUAL_START: Word := 0xC000_0000

  function DirIndex(v: Word): (i: nat)
    ensures i < ENTRIES
  {
    v / 0x40_0000
  }

  function TabIndex(v: Word): (j: nat)
    ensures j < ENTRIES
  {
    v / 0x1000 % 0x400
  }

  function Offset(v: Word): nat { v % 0x1000 }

  lemma DirFromPage(v: Word)
    ensures DirIndex(v) == v / 0x1000 / 0x400
  {
  }

  function GetPhysicalAddress(m: Memory, d: nat, v: Word): Word {
    var pde := Pde(m, d, DirIndex(v));
    if !Present(pde) then 0
    else
      var pte := ReadWord(m, FrameOf(pde), TabIndex(v));
      if !Present(pte) then 0 else FrameOf(pte) * FRAME_SIZE + Offset(v)
  }

  function UnmapPage(m: Memory, d: nat, i: nat, j: nat): Memory {
    if Present(Pde(m, d, i)) then WriteWord(m, FrameOf(Pde(m, d, i)), j, 0) else m
  }

  // ---- The processor's side: 32-bit paging with CR4.PSE set, section 4.3 of the
  //      Intel SDM, volume 3A ----

  datatype Walk = PageFault | Reached(address: Word)

  function HardwareWalk(m: Memory, d: nat, v: Word): Walk {
    var pde := ReadWord(m, d, v / 0x40_0000);
    if pde % 2 == 0 then PageFault
    else if pde / 0x80 % 2 == 1 then Reached(pde / 0x40_0000 * 0x40_0000 + v % 0x40_0000)
    else
      var pte := ReadWord(m, pde / 0x1000, v / 0x1000 % 0x400);
      if pte % 2 == 0 then PageFault else Reached(pte / 0x1000 * 0x1000 + v % 0x1000)
  }

  /** get_physical_address answers what the hardware does, and 0 exactly for a page fault. */
  lemma LookupIsHardwareWalk(ram: Ram, own: map<nat, Use>, dirs: set<nat>, d: nat, v: Word)
    requires Separated(ram, own, dirs) && d in dirs && v < KERNEL_VIRTUAL_START
    ensures HardwareWalk(ram.mem, d, v) ==
            if GetPhysicalAddress(ram.mem, d, v) == 0 then PageFault else Reached(GetPhysicalAddress(ram.mem, d, v))
  {
    var i, j := DirIndex(v), TabIndex(v);
    if Present(Pde(ram.mem, d, i)) {
      assert TableApart(ram.mem, own, d, i);
      if Present(Pte(ram.mem, d, i, j)) {
        assert PageApart(ram.mem, own, d, i, j);
      }
    }
  }

  // ---- The finite map ----

  /** The present user pages of directory d, with their entries. */
  function View(m: Memory, d: nat): map<(nat, nat), Word> {
    map i: nat, j: nat | i < KERNEL_PDT_IDX && j < ENTRIES && Present(Pte(m, d, i, j)) :: (i, j) := Pte(m, d, i, j)
  }

  /** get_physical_address looks the page up in that map. */
  lemma LookupReadsView(m: Memory, d: nat, v: Word)
    requires v < KERNEL_VIRTUAL_START
    ensures var page := (DirIndex(v), TabIndex(v));
            GetPhysicalAddress(m, d, v) ==
            if page in View(m, d) then FrameOf(View(m, d)[page]) * FRAME_SIZE + Offset(v) else 0
  {
    hide Present, FrameOf;
    assert Present(Pte(m, d, DirIndex(v), TabIndex(v))) ==> (DirIndex(v), TabIndex(v)) in View(m, d);
    NotPresentZero();
  }

  lemma NotPresentZero()
    ensures !Present(0)
  {
  }

  /** map_page sets one key of one directory's map; if no table can be had, no map changes. */
  lemma MapPageSetsOneKey(ram: Ram, own: map<nat, Use>, dirs: set<nat>, d: nat, i: nat, j: nat, e: Word, d': nat)
    requires TablesApart(ram, own, dirs) && d in dirs && i < KERNEL_PDT_IDX && j < ENTRIES && Present(e) && d' in dirs
    ensures View(MapPage(ram, d, i, j, e).mem, d') ==
            if d' == d && HasTable(ram, d, i) then View(ram.mem, d)[(i, j) := e] else View(ram.mem, d')
  {
    hide Present, FrameOf, LargePage, Pte, MapPage, HasTable, Pde;
    var m, m' := ram.mem, MapPage(ram, d, i, j, e).mem;
    forall i': nat, j': nat | i' < KERNEL_PDT_IDX && j' < ENTRIES
      ensures Pte(m', d', i', j') == if (d', i', j') == (d, i, j) && HasTable(ram, d, i) then e else Pte(m, d', i', j')
    {
      MapPageAt(ram, own, dirs, d, i, j, e, d', i', j');
    }
  }

  lemma UnmapPageAt(ram: Ram, own: map<nat, Use>, dirs: set<nat>, d: nat, i: nat, j: nat, d': nat, i': nat, j': nat)
    requires TablesApart(ram, own, dirs) && d in dirs && i < KERNEL_PDT_IDX && j < ENTRIES
    requires d' in dirs && i' < KERNEL_PDT_IDX && j' < ENTRIES
    ensures Pte(UnmapPage(ram.mem, d, i, j), d', i', j') == if (d', i', j') == (d, i, j) then 0
              else Pte(ram.mem, d', i', j')
  {
    hide Present, FrameOf, LargePage;
    assert Present(Pde(ram.mem, d, i)) ==> TableApart(ram.mem, own, d, i);
    assert Present(Pde(ram.mem, d', i')) ==> TableApart(ram.mem, own, d', i');
  }

  /** unmap_page removes one key. */
  lemma UnmapPageRemovesOneKey(ram: Ram, own: map<nat, Use>, dirs: set<nat>, d: nat, i: nat, j: nat, d': nat)
    requires TablesApart(ram, own, dirs) && d in dirs && i < KERNEL_PDT_IDX && j < ENTRIES && d' in dirs
    ensures View(UnmapPage(ram.mem, d, i, j), d') == if d' == d then View(ram.mem, d) - {(i, j)} else View(ram.mem, d')
  {
    hide Present, FrameOf, LargePage, Pte, UnmapPage, Pde;
    NotPresentZero();
    forall i': nat, j': nat | i' < KERNEL_PDT_IDX && j' < ENTRIES
      ensures Pte(UnmapPage(ram.mem, d, i, j), d', i', j') == if (d', i', j') == (d, i, j) then 0
                else Pte(ram.mem, d', i', j')
    {
      UnmapPageAt(ram, own, dirs, d, i, j, d', i', j');
    }
  }

  /** map_page then unmap_page of a page that was absent restores the map. */
  lemma UnmapUndoesMap(ram: Ram, own: map<nat, Use>, dirs: set<nat>, d: nat, i: nat, j: nat, f: nat, flags: Word)
    requires Separated(ram, own, dirs) && d in dirs && i < KERNEL_PDT_IDX && j < ENTRIES && (i, j) !in View(ram.mem, d)
    requires 0 < f < TOTAL_FRAMES && ram.used[f] && f !in own && flags < FRAME_SIZE && Present(flags)
    ensures View(UnmapPage(MapPage(ram, d, i, j, Entry(f, flags)).mem, d, i, j), d) == View(ram.mem, d)
  {
    hide Present, FrameOf, LargePage, Pte, UnmapPage, Pde, MapPage, View, HasTable;
    EntryFields(f, flags);
    var ram' := MapPage(ram, d, i, j, Entry(f, flags));
    MapPageSetsOneKey(ram, own, dirs, d, i, j, Entry(f, flags), d);
    MapPageKeeps(ram, own, dirs, d, i, j, f, flags);
    UnmapPageRemovesOneKey(ram', OwnPage(ram, own, d, i, j, f), dirs, d, i, j, d);
  }
}

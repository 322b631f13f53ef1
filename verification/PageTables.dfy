/** Two-level page tables (mem/paging.c) as functions on physical memory.
    A directory d is named by its frame number, a user page by its directory
    index i and table index j. */
module PageTables {
  import opened Machine
  import opened FramePool

  const ENTRIES := 1024
  const KERNEL_PDT_IDX := 768
  const PAGE_PRESENT := 0x1
  const PAGE_RW := 0x2
  const PAGE_USER := 0x4

  datatype Ram = Ram(mem: Memory, used: Used)

  predicate Present(w: Word) { w % 2 == 1 }
  predicate LargePage(w: Word) { w / 0x80 % 2 == 1 }
  function FrameOf(w: Word): nat { w / FRAME_SIZE }
  function FlagsOf(w: Word): Word { w % FRAME_SIZE }

  function Entry(f: nat, flags: Word): Word
    requires f < 0x10_0000 && flags < FRAME_SIZE
  {
    f * FRAME_SIZE + flags
  }

  function Pde(mem: Memory, d: nat, i: nat): Word {
    ReadWord(mem, d, i)
  }

  /** The table entry of page (i, j), 0 if directory d has no table there. */
  function Pte(mem: Memory, d: nat, i: nat, j: nat): Word {
    if Present(Pde(mem, d, i)) then ReadWord(mem, FrameOf(Pde(mem, d, i)), j) else 0
  }

  /** create_page_directory: no user entries, and the kernel's in the upper quarter; 0 stands for failure. */
  function CreateDirectory(ram: Ram, kdir: Frame): (r: (nat, Ram))
    ensures r.0 < TOTAL_FRAMES
  {
    var (d, used) := Alloc(ram.used);
    if d == 0 then (0, ram.(used := used))
    else (d, Ram(WriteFrame(ram.mem, d, ZeroFrame()[..KERNEL_PDT_IDX] + kdir[KERNEL_PDT_IDX..]), used))
  }

  /** The first half of map_page: make sure entry i of directory d has a table. */
  function EnsureTable(ram: Ram, d: nat, i: nat): Ram {
    if Present(Pde(ram.mem, d, i)) then ram
    else
      var (t, used) := Alloc(ram.used);
      if t == 0 then ram.(used := used)
      else Ram(InstallTable(ram.mem, t, d, i), used)
  }

  /** Clears frame t and points entry i of directory d at it. */
  function InstallTable(mem: Memory, t: nat, d: nat, i: nat): Memory
    requires t < TOTAL_FRAMES
  {
    WriteWord(WriteFrame(mem, t, ZeroFrame()), d, i, Entry(t, PAGE_PRESENT + PAGE_RW + PAGE_USER))
  }

  /** map_page: when no frame is left for a table, the mapping is silently dropped. */
  function MapPage(ram: Ram, d: nat, i: nat, j: nat, e: Word): Ram {
    var r := EnsureTable(ram, d, i);
    if Present(Pde(r.mem, d, i)) then r.(mem := WriteWord(r.mem, FrameOf(Pde(r.mem, d, i)), j, e)) else r
  }

  lemma EntryFields(f: nat, flags: Word)
    requires f < 0x10_0000 && flags < FRAME_SIZE
    ensures FrameOf(Entry(f, flags)) == f && FlagsOf(Entry(f, flags)) == flags
    ensures Present(Entry(f, flags)) == Present(flags) && LargePage(Entry(f, flags)) == LargePage(flags)
  {
    var q := flags / 0x80;
    assert Entry(f, flags) == 0x80 * (32 * f + q) + flags % 0x80;
    Quotient(Entry(f, flags), 32 * f + q, flags % 0x80);
    SameParity(2048 * f, flags);
    SameParity(16 * f, q);
  }

  lemma Quotient(e: nat, q: nat, r: nat)
    requires e == 0x80 * q + r && r < 0x80
    ensures e / 0x80 == q
  {
  }

  lemma SameParity(a: nat, b: nat)
    ensures (2 * a + b) % 2 == b % 2
  {
  }
}

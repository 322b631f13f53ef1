/** The not-present branch of page_fault_handler (mem/page_frame_allocator.c). */
module DemandPaging {
  import opened Machine
  import opened FramePool
  import opened PageTables
  import opened Ownership
  import opened AddingPages
  import opened Translation

  datatype Handled = Halted | Resumed(ram: Ram)

  /** Bits of the error code, section 4.7 of the Intel SDM, volume 3A. */
  datatype ErrorCode = ErrorCode(present: bool, write: bool, user: bool)

  function FaultFlags(v: Word, error: ErrorCode): Word {
    PAGE_PRESENT + PAGE_USER + if error.write || v / 0x1000 * 0x1000 < KERNEL_VIRTUAL_START then PAGE_RW else 0
  }

  /** Kernel addresses, protection violations and an empty pool stop the machine for good. */
  function HandleFault(ram: Ram, d: nat, v: Word, error: ErrorCode): Handled {
    if v >= KERNEL_VIRTUAL_START || error.present then Halted
    else
      var f := Alloc(ram.used).0;
      if f == 0 then Halted
      else
        var r := MapPage(Allocated(ram, ram.mem), d, DirIndex(v), TabIndex(v), Entry(f, FaultFlags(v, error)));
        Resumed(r.(mem := WriteFrame(r.mem, f, ZeroFrame())))
  }

  /** The handler resumes exactly for an absent page of the user half while a frame is free. */
  lemma HandlesIff(ram: Ram, d: nat, v: Word, error: ErrorCode)
    requires ram.used[0]
    ensures HandleFault(ram, d, v, error).Resumed? <==> v < 0xC000_0000 && !error.present && FreeCount(ram.used) > 0
  {
    hide Alloc, MapPage, Entry;
    AllocTakesLowest(ram.used);
  }

  /** Word k of user page (i, j) of directory d; a page that is not there reads as zero. */
  function UserWord(m: Memory, d: nat, i: nat, j: nat, k: nat): Word {
    if Present(Pte(m, d, i, j)) then ReadWord(m, FrameOf(Pte(m, d, i, j)), k) else 0
  }

  lemma FaultAdds(ram: Ram, d: nat, v: Word, error: ErrorCode)
    requires HandleFault(ram, d, v, error).Resumed? && ram.used[0]
    ensures AddsPage(ram, d, DirIndex(v), TabIndex(v), 7, ram.mem, HandleFault(ram, d, v, error).ram)
    ensures Alloc(ram.used).0 < TOTAL_FRAMES
    ensures HandleFault(ram, d, v, error).ram.mem[Alloc(ram.used).0] == ZeroFrame()
  {
    hide Present, MapPage, Alloc, Entry;
    AllocTakesLowest(ram.used);
  }

  /** A handled fault maps at most the faulting page, to a zeroed frame of its own. It changes no other
      translation, and no word that any process can read. */
  lemma FaultIsInvisible(ram: Ram, own: map<nat, Use>, dirs: set<nat>, d: nat, v: Word, error: ErrorCode)
    returns (own': map<nat, Use>)
    requires Separated(ram, own, dirs) && d in dirs && !Present(Pte(ram.mem, d, DirIndex(v), TabIndex(v)))
    requires HandleFault(ram, d, v, error).Resumed?
    ensures var ram' := HandleFault(ram, d, v, error).ram;
            && Separated(ram', own', dirs) && Advances(ram, own, ram', own', d)
            && (if Present(Pde(ram.mem, d, DirIndex(v))) || FreeCount(ram.used) >= 2
                then OnlyEntry(ram.mem, ram'.mem, dirs, d, DirIndex(v), TabIndex(v), Entry(Alloc(ram.used).0, 7))
                else SameEntries(ram.mem, ram'.mem, dirs))
            && (forall d', i, j, k {:trigger UserWord(ram'.mem, d', i, j, k)} ::
                  d' in dirs && 0 <= i < KERNEL_PDT_IDX && 0 <= j < ENTRIES && 0 <= k < FRAME_WORDS ==>
                  UserWord(ram'.mem, d', i, j, k) == UserWord(ram.mem, d', i, j, k))
            && (forall i {:trigger Pde(ram'.mem, d, i)} :: KERNEL_PDT_IDX <= i < ENTRIES ==>
                 Pde(ram'.mem, d, i) == Pde(ram.mem, d, i))
  {
    hide Present, FreeCount, LargePage, FrameOf, Pde, Pte, HandleFault, AddsPage, Separated, Alloc, Entry, HasTable;
    hide AddOwn, UserWord;
    var i, j, ram' := DirIndex(v), TabIndex(v), HandleFault(ram, d, v, error).ram;
    SeparatedFrames(ram, own, dirs, 0);
    HandledIsUser(ram, d, v, error);
    FaultAdds(ram, d, v, error);
    own' := AddOwn(ram, own, d, i, j, ram.mem);
    AddPageKeeps(ram, own, dirs, d, i, j, 7, ram.mem, ram');
    AddPageAdvances(ram, own, dirs, d, i, j, 7, ram.mem, ram');
    AddPageCost(ram, own, dirs, d, i, j, 7, ram.mem, ram');
    forall d', i', j', k {:trigger UserWord(ram'.mem, d', i', j', k)} |
      d' in dirs && 0 <= i' < KERNEL_PDT_IDX && 0 <= j' < ENTRIES && 0 <= k < FRAME_WORDS
      ensures UserWord(ram'.mem, d', i', j', k) == UserWord(ram.mem, d', i', j', k)
    {
      FaultKeepsWord(ram, own, dirs, d, v, error, d', i', j', k);
    }
  }

  lemma HandledIsUser(ram: Ram, d: nat, v: Word, error: ErrorCode)
    requires HandleFault(ram, d, v, error).Resumed?
    ensures v < KERNEL_VIRTUAL_START && DirIndex(v) < KERNEL_PDT_IDX
  {
  }

  lemma FaultKeepsWord(ram: Ram, own: map<nat, Use>, dirs: set<nat>, d: nat, v: Word, error: ErrorCode,
                       d': nat, i: nat, j: nat, k: nat)
    requires Separated(ram, own, dirs) && d in dirs && !Present(Pte(ram.mem, d, DirIndex(v), TabIndex(v)))
    requires HandleFault(ram, d, v, error).Resumed?
    requires d' in dirs && i < KERNEL_PDT_IDX && j < ENTRIES && k < FRAME_WORDS
    ensures UserWord(HandleFault(ram, d, v, error).ram.mem, d', i, j, k) == UserWord(ram.mem, d', i, j, k)
  {
    hide Present, FreeCount, LargePage, FrameOf, Pde, Pte, HandleFault, AddsPage, TablesApart, Alloc, Entry, HasTable;
    hide AddOwn;
    var i0, j0, ram' := DirIndex(v), TabIndex(v), HandleFault(ram, d, v, error).ram;
    var f := Alloc(ram.used).0;
    SeparatedFrames(ram, own, dirs, 0);
    AllocTakesLowest(ram.used);
    HandledIsUser(ram, d, v, error);
    FaultAdds(ram, d, v, error);
    AddPageKeeps(ram, own, dirs, d, i0, j0, 7, ram.mem, ram');
    AddPageAdvances(ram, own, dirs, d, i0, j0, 7, ram.mem, ram');
    EntryFields(f, 7);
    if Present(Pte(ram.mem, d', i, j)) {
      var g := FrameOf(Pte(ram.mem, d', i, j));
      assert PageApart(ram.mem, own, d', i, j);
      SeparatedFrames(ram, own, dirs, g);
      assert ram.used[g];
      assert ram'.mem[g] == ram.mem[g];
    }
  }
}

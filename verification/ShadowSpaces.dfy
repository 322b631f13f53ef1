/** Copying address spaces, page faults and user stores with the bitmap in memory. */
module ShadowSpaces {
  import opened Machine
  import opened Bytes
  import opened FramePool
  import opened PageTables
  import opened Ownership
  import opened AddingPages
  import opened ForkCopy
  import opened ImageContents
  import opened Translation
  import opened DemandPaging
  import opened Processes
  import opened Stores
  import opened BitmapInMemory
  import opened KernelInMemory
  import opened BitmapShadow

  // ---- The copy loops of sys_fork ----

  lemma PageOf(ram: Ram, own: map<nat, Use>, dirs: set<nat>, d: nat, i: nat, j: nat)
    requires Separated(ram, own, dirs) && d in dirs && i < KERNEL_PDT_IDX && j < ENTRIES
    requires Present(Pte(ram.mem, d, i, j))
    ensures FrameOf(Pte(ram.mem, d, i, j)) in own
  {
    hide Present, FrameOf, LargePage, Pte, Pde;
    assert PageApart(ram.mem, own, d, i, j);
  }

  lemma CopyFrameShadow(m: Memory, base: nat, kept: nat, ram: Ram, t: nat, j: nat, f: nat)
    requires Shadows(m, base, kept, ram) && t != base && f != base && FrameOf(ReadWord(ram.mem, t, j)) != base
    ensures Shadows(CopyFrame(m, t, j, f), base, kept, Ram(CopyFrame(ram.mem, t, j, f), ram.used))
    ensures ReadWord(CopyFrame(m, t, j, f), t, j) == ReadWord(CopyFrame(ram.mem, t, j, f), t, j)
  {
    hide FrameOf, Agrees;
    SameReads(ram.mem, m, base, t, j);
    SameReads(ram.mem, m, base, FrameOf(ReadWord(ram.mem, t, j)), 0);
    WriteShadow(m, base, kept, ram, CopyFrame(m, t, j, f), CopyFrame(ram.mem, t, j, f));
  }

  lemma CopyPageShadow(m: Memory, base: nat, kept: nat, ram: Ram, own: map<nat, Use>, dirs: set<nat>, p: nat, c: nat,
                       i: nat, j: nat)
    requires Shadowing(m, base, kept, ram, own, dirs) && CopyingAt(ram, own, dirs, p, c, i) && j < ENTRIES
    requires Present(Pte(ram.mem, p, i, j)) && CoveredFree(ram.used) && CoveredFree(Alloc(ram.used).1)
    ensures var t := FrameOf(Pde(ram.mem, p, i));
            && CopyPage(ram, t, c, i, j).Copied? && CopyPageIn(m, base, t, c, i, j).Done?
            && Shadows(CopyPageIn(m, base, t, c, i, j).mem, base, kept, CopyPage(ram, t, c, i, j).ram)
  {
    hide Present, Alloc, AllocInMemory, MapPage, MapPageIn, Entry, CoveredFree, TablesApart, PagesApart, FrameOf;
    hide FreeCount, Shadows, CopyFrame, FlagsOf, AddsPage, Pde;
    var t := FrameOf(Pde(ram.mem, p, i));
    SeparatedTables(ram, own, dirs);
    TableOf(ram, own, dirs, p, i);
    PageOf(ram, own, dirs, p, i, j);
    AllocShadow(m, base, kept, ram);
    CopyPageAdds(ram, own, dirs, p, c, i, j);
    var (f, m1) := AllocInMemory(m, base);
    CopyFrameShadow(m1, base, kept, Allocated(ram, ram.mem), t, j, f);
    AddsAFrame(ram, c, i, j, FlagsOf(Pte(ram.mem, p, i, j)), CopyFrame(ram.mem, t, j, f),
               CopyPage(ram, t, c, i, j).ram);
    TakenKeeps(ram, own, dirs, CopyFrame(ram.mem, t, j, f));
    SeparatedTables(Allocated(ram, CopyFrame(ram.mem, t, j, f)), own, dirs);
    FlagsBound(ReadWord(CopyFrame(m1, t, j, f), t, j));
    MapPageShadow(CopyFrame(m1, t, j, f), base, kept, Allocated(ram, CopyFrame(ram.mem, t, j, f)), own, dirs, c, i, j,
                  Entry(f, FlagsOf(ReadWord(CopyFrame(m1, t, j, f), t, j))));
  }

  lemma FlagsBound(w: Word)
    ensures FlagsOf(w) < FRAME_SIZE
  {
  }

  lemma CopyPageCovered(ram: Ram, t: nat, c: nat, i: nat, j: nat)
    requires CoveredFree(CopyPage(ram, t, c, i, j).ram.used)
    ensures CoveredFree(ram.used) && CoveredFree(Alloc(ram.used).1)
  {
    hide CoveredFree, CopyPage, StaysTaken;
    CopyPageTakes(ram, t, c, i, j);
    StillCovered(Alloc(ram.used).1, CopyPage(ram, t, c, i, j).ram.used);
    StillCovered(ram.used, Alloc(ram.used).1);
  }

  lemma {:induction false} CopyTableShadow(m: Memory, base: nat, kept: nat, ram: Ram, own: map<nat, Use>,
                                           dirs: set<nat>, p: nat, c: nat, i: nat, j: nat)
    requires Shadowing(m, base, kept, ram, own, dirs) && CopyingAt(ram, own, dirs, p, c, i) && j <= ENTRIES
    requires CoveredFree(CopyTable(ram, FrameOf(Pde(ram.mem, p, i)), c, i, j).ram.used)
    ensures var t := FrameOf(Pde(ram.mem, p, i));
            && CopyTable(ram, t, c, i, j).Copied? && CopyTableIn(m, base, t, c, i, j).Done?
            && Shadows(CopyTableIn(m, base, t, c, i, j).mem, base, kept, CopyTable(ram, t, c, i, j).ram)
    decreases ENTRIES - j
  {
    hide Present, FrameOf, CopyPage, CopyPageIn, Separated, CoveredFree, Pde, Agrees, SamePage, StaysTaken;
    var t := FrameOf(Pde(ram.mem, p, i));
    if j < ENTRIES {
      SeparatedTables(ram, own, dirs);
      TableOf(ram, own, dirs, p, i);
      SameReads(ram.mem, m, base, t, j);
      if Present(ReadWord(ram.mem, t, j)) {
        assert Pte(ram.mem, p, i, j) == ReadWord(ram.mem, t, j);
        CopyTableTakes(CopyPage(ram, t, c, i, j).ram, t, c, i, j + 1);
        CopyPageFirst(ram, t, c, i, j);
        CopyPageCovered(ram, t, c, i, j);
        CopyPageShadow(m, base, kept, ram, own, dirs, p, c, i, j);
        var own1 := CopyPageKeeps(ram, own, dirs, p, c, i, j);
        var (r1, m1) := (CopyPage(ram, t, c, i, j).ram, CopyPageIn(m, base, t, c, i, j).mem);
        StillNobodys(ram, own, r1, own1, c, base);
        assert Pde(r1.mem, p, i) == Pde(ram.mem, p, i);
        CopyTableShadow(m1, base, kept, r1, own1, dirs, p, c, i, j + 1);
      } else {
        CopyTableShadow(m, base, kept, ram, own, dirs, p, c, i, j + 1);
      }
    }
  }

  lemma CopyPageFirst(ram: Ram, t: nat, c: nat, i: nat, j: nat)
    requires j < ENTRIES && Present(ReadWord(ram.mem, t, j)) && CoveredFree(CopyTable(ram, t, c, i, j).ram.used)
    ensures CoveredFree(CopyPage(ram, t, c, i, j).ram.used)
  {
    hide Present, CopyPage, CoveredFree, StaysTaken;
    var r := CopyPage(ram, t, c, i, j);
    if r.Copied? {
      CopyTableTakes(r.ram, t, c, i, j + 1);
      StillCovered(r.ram.used, CopyTable(ram, t, c, i, j).ram.used);
    }
  }

  lemma CopyTableFirst(ram: Ram, p: nat, c: nat, i: nat)
    requires i < KERNEL_PDT_IDX && Present(Pde(ram.mem, p, i)) && CoveredFree(CopySpace(ram, p, c, i).ram.used)
    ensures CoveredFree(CopyTable(ram, FrameOf(Pde(ram.mem, p, i)), c, i, 0).ram.used)
  {
    hide Present, CopyTable, CoveredFree, StaysTaken, Pde, FrameOf;
    var r := CopyTable(ram, FrameOf(Pde(ram.mem, p, i)), c, i, 0);
    if r.Copied? {
      CopySpaceTakes(r.ram, p, c, i + 1);
      StillCovered(r.ram.used, CopySpace(ram, p, c, i).ram.used);
    }
  }

  lemma {:induction false} CopySpaceShadow(m: Memory, base: nat, kept: nat, ram: Ram, own: map<nat, Use>,
                                           dirs: set<nat>, p: nat, c: nat, i: nat)
    requires Shadowing(m, base, kept, ram, own, dirs) && p in dirs && c in dirs && p != c && i <= KERNEL_PDT_IDX
    requires CoveredFree(CopySpace(ram, p, c, i).ram.used)
    ensures CopySpace(ram, p, c, i).Copied? && CopySpaceIn(m, base, p, c, i).Done?
    ensures Shadows(CopySpaceIn(m, base, p, c, i).mem, base, kept, CopySpace(ram, p, c, i).ram)
    decreases KERNEL_PDT_IDX - i
  {
    hide Present, FrameOf, CopyTable, CopyTableIn, Separated, CoveredFree, Pde, Agrees, SamePage, StaysTaken;
    if i < KERNEL_PDT_IDX {
      DirsInLedgerToo(ram, own, dirs, p);
      SamePde(ram.mem, m, base, p, i);
      if Present(Pde(ram.mem, p, i)) {
        var t := FrameOf(Pde(ram.mem, p, i));
        CopyTableFirst(ram, p, c, i);
        CopyTableShadow(m, base, kept, ram, own, dirs, p, c, i, 0);
        var own1 := CopyTableKeeps(ram, own, dirs, p, c, i, 0);
        var (r1, m1) := (CopyTable(ram, t, c, i, 0).ram, CopyTableIn(m, base, t, c, i, 0).mem);
        StillNobodys(ram, own, r1, own1, c, base);
        CopySpaceShadow(m1, base, kept, r1, own1, dirs, p, c, i + 1);
      } else {
        CopySpaceShadow(m, base, kept, ram, own, dirs, p, c, i + 1);
      }
    }
  }

  lemma DirsInLedgerToo(ram: Ram, own: map<nat, Use>, dirs: set<nat>, d: nat)
    requires Separated(ram, own, dirs) && d in dirs
    ensures d in own && d < TOTAL_FRAMES
  {
    hide PagesApart;
  }

  // ---- Faults and stores ----

  /** Two frames whose bits lie in the reserved frame are free: enough for a page and its table. */
  ghost predicate Spare(used: Used) {
    exists f, g :: 0 <= f < g < COVERED && !used[f] && !used[g]
  }

  lemma SpareLasts(used: Used, used': Used)
    requires StaysTaken(used, used') && Spare(used')
    ensures Spare(used)
  {
    var f, g :| 0 <= f < g < COVERED && !used'[f] && !used'[g];
    assert !used[f] && !used[g];
  }

  lemma SpareCovers(used: Used)
    requires Spare(used)
    ensures CoveredFree(used) && CoveredFree(Alloc(used).1)
  {
    var f, g :| 0 <= f < g < COVERED && !used[f] && !used[g];
    assert LowestFree(used, 0) <= f;
    assert !Alloc(used).1[g];
  }

  lemma FaultShadow(m: Memory, base: nat, kept: nat, ram: Ram, own: map<nat, Use>, dirs: set<nat>, d: nat, v: Word,
                    error: ErrorCode)
    requires Shadowing(m, base, kept, ram, own, dirs) && d in dirs && Spare(ram.used)
    ensures HandleFaultIn(m, base, d, v, error).Goes? <==> HandleFault(ram, d, v, error).Resumed?
    ensures HandleFault(ram, d, v, error).Resumed? ==>
              Shadows(HandleFaultIn(m, base, d, v, error).result, base, kept, HandleFault(ram, d, v, error).ram)
  {
    hide Present, Alloc, AllocInMemory, MapPage, MapPageIn, Entry, CoveredFree, TablesApart, PagesApart;
    hide FreeCount, Shadows, FaultFlags;
    if v < KERNEL_VIRTUAL_START && !error.present {
      SeparatedFrames(ram, own, dirs, 0);
      SpareCovers(ram.used);
      AllocShadow(m, base, kept, ram);
      TakenKeeps(ram, own, dirs, ram.mem);
      FlagsSmall(v, error);
      var (f, m1) := AllocInMemory(m, base);
      var e := Entry(f, FaultFlags(v, error));
      UserIndices(v);
      MapPageShadow(m1, base, kept, Allocated(ram, ram.mem), own, dirs, d, DirIndex(v), TabIndex(v), e);
      var (m2, r) := (MapPageIn(m1, base, d, DirIndex(v), TabIndex(v), e),
                      MapPage(Allocated(ram, ram.mem), d, DirIndex(v), TabIndex(v), e));
      ClearShadow(m2, base, kept, r, f);
    }
  }

  lemma ClearShadow(m: Memory, base: nat, kept: nat, ram: Ram, f: nat)
    requires Shadows(m, base, kept, ram) && f != base
    ensures Shadows(WriteFrame(m, f, ZeroFrame()), base, kept, ram.(mem := WriteFrame(ram.mem, f, ZeroFrame())))
  {
    hide Agrees;
    WriteShadow(m, base, kept, ram, WriteFrame(m, f, ZeroFrame()), WriteFrame(ram.mem, f, ZeroFrame()));
  }

  lemma FlagsSmall(v: Word, error: ErrorCode)
    ensures FaultFlags(v, error) < FRAME_SIZE
  {
  }

  /** Directories, tables and pages are in other frames than the bitmap. */
  lemma PteShadow(m: Memory, base: nat, kept: nat, ram: Ram, own: map<nat, Use>, dirs: set<nat>, d: nat, i: nat, j: nat)
    requires Shadowing(m, base, kept, ram, own, dirs) && d in dirs && i < KERNEL_PDT_IDX && j < ENTRIES
    ensures Pte(m, d, i, j) == Pte(ram.mem, d, i, j) && Pde(m, d, i) == Pde(ram.mem, d, i)
    ensures Present(Pte(ram.mem, d, i, j)) ==>
              var f := FrameOf(Pte(ram.mem, d, i, j)); f != base && ReadFrame(m, f) == ReadFrame(ram.mem, f)
  {
    hide Present, FrameOf, Pte, Pde, Separated, Agrees;
    DirsInLedgerToo(ram, own, dirs, d);
    SeparatedTables(ram, own, dirs);
    if Present(Pde(ram.mem, d, i)) {
      TableOf(ram, own, dirs, d, i);
    }
    SamePtes(ram.mem, m, base, d, i, j);
    if Present(Pte(ram.mem, d, i, j)) {
      PageOf(ram, own, dirs, d, i, j);
      SameReads(ram.mem, m, base, FrameOf(Pte(ram.mem, d, i, j)), 0);
    }
  }

  lemma TouchShadow(m: Memory, base: nat, kept: nat, ram: Ram, own: map<nat, Use>, dirs: set<nat>, d: nat, v: Word)
    returns (own': map<nat, Use>)
    requires Shadowing(m, base, kept, ram, own, dirs) && d in dirs && v < KERNEL_VIRTUAL_START && Spare(ram.used)
    ensures TouchIn(m, base, d, v).Goes? <==> Touch(ram, d, v).Goes?
    ensures Touch(ram, d, v).Goes? ==>
              && Shadowing(TouchIn(m, base, d, v).result, base, kept, Touch(ram, d, v).result, own', dirs)
              && Present(Pte(Touch(ram, d, v).result.mem, d, DirIndex(v), TabIndex(v)))
  {
    hide Present, Pte, Pde, Separated, Shadows, HandleFault, HandleFaultIn, DirIndex, TabIndex, Spare, UserWord;
    hide FreeCount, Preserved, Grown, LeavesFree, FrameOf;
    own' := own;
    UserIndices(v);
    PteShadow(m, base, kept, ram, own, dirs, d, DirIndex(v), TabIndex(v));
    var error := ErrorCode(false, true, true);
    FaultShadow(m, base, kept, ram, own, dirs, d, v, error);
    if !Present(Pte(ram.mem, d, DirIndex(v), TabIndex(v))) && HandleFault(ram, d, v, error).Resumed? {
      own' := FaultIsInvisible(ram, own, dirs, d, v, error);
      var r := HandleFault(ram, d, v, error).ram;
      ShadowsTaken(m, base, kept, ram);
      StillNobodys(ram, own, r, own', d, base);
      PteShadow(HandleFaultIn(m, base, d, v, error).result, base, kept, r, own', dirs, d, DirIndex(v), TabIndex(v));
    }
  }

  lemma ShadowsTaken(m: Memory, base: nat, kept: nat, ram: Ram)
    requires Shadows(m, base, kept, ram)
    ensures base < TOTAL_FRAMES && ram.used[base]
  {
  }

  lemma PutByteShadow(m: Memory, base: nat, kept: nat, ram: Ram, own: map<nat, Use>, dirs: set<nat>, d: nat, v: Word,
                      b: Byte)
    requires Shadowing(m, base, kept, ram, own, dirs) && d in dirs && v < KERNEL_VIRTUAL_START && Spare(ram.used)
    ensures PutByteIn(m, base, d, v, b).Goes? <==> PutByte(ram, d, v, b).Goes?
    ensures PutByte(ram, d, v, b).Goes? ==>
              Shadows(PutByteIn(m, base, d, v, b).result, base, kept, PutByte(ram, d, v, b).result)
  {
    hide Present, Pte, Pde, Separated, Shadows, Touch, TouchIn, DirIndex, TabIndex, Spare, StoreMapped, StoreMappedIn;
    hide ByteOf, WithByte, Offset, FrameOf, WordAt;
    var own' := TouchShadow(m, base, kept, ram, own, dirs, d, v);
    if Touch(ram, d, v).Goes? {
      var (r, m1) := (Touch(ram, d, v).result, TouchIn(m, base, d, v).result);
      StoreShadow(m1, base, kept, r, own', dirs, d, v, WithByte(WordAt(r.mem, d, v), v % 4, b));
    }
  }

  lemma StoreShadow(m: Memory, base: nat, kept: nat, ram: Ram, own: map<nat, Use>, dirs: set<nat>, d: nat, v: Word,
                    w: Word)
    requires Shadowing(m, base, kept, ram, own, dirs) && d in dirs && v < KERNEL_VIRTUAL_START
    requires Present(Pte(ram.mem, d, DirIndex(v), TabIndex(v)))
    ensures WordAt(m, d, v) == WordAt(ram.mem, d, v)
    ensures Shadows(StoreMappedIn(m, d, v, w), base, kept, StoreMapped(ram, d, v, w))
  {
    hide Present, Pte, Pde, Separated, DirIndex, TabIndex, Offset, FrameOf, Agrees;
    UserIndices(v);
    PteShadow(m, base, kept, ram, own, dirs, d, DirIndex(v), TabIndex(v));
    var f := FrameOf(Pte(ram.mem, d, DirIndex(v), TabIndex(v)));
    SameReads(ram.mem, m, base, f, Offset(v) / 4);
    WriteShadow(m, base, kept, ram, StoreMappedIn(m, d, v, w), StoreMapped(ram, d, v, w).mem);
  }
}

/** The deep copy of an address space in sys_fork (arch/x86/syscall.c). */
module ForkCopy {
  import opened Machine
  import opened FramePool
  import opened PageTables
  import opened Ownership
  import opened AddingPages

  datatype Copying = Copied(ram: Ram) | OutOfFrames(ram: Ram)

  /** Memory after frame f received the contents of the page that entry j of table t names. */
  function CopyFrame(mem: Memory, t: nat, j: nat, f: nat): Memory {
    WriteFrame(mem, f, ReadFrame(mem, FrameOf(ReadWord(mem, t, j))))
  }

  /** One round of the inner loop: copy the page in entry j of the parent's table t
      to page (i, j) of the child's directory c. */
  function CopyPage(ram: Ram, t: nat, c: nat, i: nat, j: nat): Copying {
    var f := Alloc(ram.used).0;
    if f == 0 then OutOfFrames(ram.(used := Alloc(ram.used).1))
    else
      var m1 := CopyFrame(ram.mem, t, j, f);
      Copied(MapPage(Allocated(ram, m1), c, i, j, Entry(f, FlagsOf(ReadWord(m1, t, j)))))
  }

  function CopyTable(ram: Ram, t: nat, c: nat, i: nat, j: nat): Copying
    requires j <= ENTRIES
    decreases ENTRIES - j
  {
    if j == ENTRIES then Copied(ram)
    else if Present(ReadWord(ram.mem, t, j)) then
      match CopyPage(ram, t, c, i, j)
      case OutOfFrames(r) => OutOfFrames(r)
      case Copied(r) => CopyTable(r, t, c, i, j + 1)
    else CopyTable(ram, t, c, i, j + 1)
  }

  function CopySpace(ram: Ram, p: nat, c: nat, i: nat): Copying
    requires i <= KERNEL_PDT_IDX
    decreases KERNEL_PDT_IDX - i
  {
    if i == KERNEL_PDT_IDX then Copied(ram)
    else if Present(Pde(ram.mem, p, i)) then
      match CopyTable(ram, FrameOf(Pde(ram.mem, p, i)), c, i, 0)
      case OutOfFrames(r) => OutOfFrames(r)
      case Copied(r) => CopySpace(r, p, c, i + 1)
    else CopySpace(ram, p, c, i + 1)
  }

  // ---- One page ----

  /** The loop is at page (i, j): p is the parent's directory, c the child's. */
  ghost predicate CopyingAt(ram: Ram, own: map<nat, Use>, dirs: set<nat>, p: nat, c: nat, i: nat) {
    Separated(ram, own, dirs) && p in dirs && c in dirs && p != c && i < KERNEL_PDT_IDX && Present(Pde(ram.mem, p, i))
  }

  lemma CopyPageAdds(ram: Ram, own: map<nat, Use>, dirs: set<nat>, p: nat, c: nat, i: nat, j: nat)
    requires CopyingAt(ram, own, dirs, p, c, i) && j < ENTRIES && Present(Pte(ram.mem, p, i, j))
    requires Alloc(ram.used).0 != 0
    ensures var f, t, pte := Alloc(ram.used).0, FrameOf(Pde(ram.mem, p, i)), Pte(ram.mem, p, i, j);
            var m1 := CopyFrame(ram.mem, t, j, f);
            && CopyPage(ram, t, c, i, j).Copied?
            && AddsPage(ram, c, i, j, FlagsOf(pte), m1, CopyPage(ram, t, c, i, j).ram)
            && CopyPage(ram, t, c, i, j).ram == MapPage(Allocated(ram, m1), c, i, j, Entry(f, FlagsOf(pte)))
            && m1[f] == ReadFrame(ram.mem, FrameOf(pte))
  {
    hide Present, LargePage, Alloc, MapPage, Entry, FrameOf;
    var f := Alloc(ram.used).0;
    AllocTakesLowest(ram.used);
    assert TableApart(ram.mem, own, p, i);
    assert PageApart(ram.mem, own, p, i, j);
  }

  // ---- One table, one directory ----

  ghost predicate NothingFrom(m: Memory, c: nat, i: nat, j: nat) {
    forall j' {:trigger Pte(m, c, i, j')} :: j <= j' < ENTRIES ==> !Present(Pte(m, c, i, j'))
  }

  ghost predicate SameElsewhere(m: Memory, m': Memory, c: nat, i: nat, j: nat) {
    && (forall i', j' {:trigger Pte(m', c, i', j')} ::
         0 <= i' < KERNEL_PDT_IDX && 0 <= j' < ENTRIES && !(i' == i && j' >= j) ==>
         Pte(m', c, i', j') == Pte(m, c, i', j'))
    && (forall i' {:trigger Pde(m', c, i')} :: 0 <= i' < ENTRIES && i' != i ==> Pde(m', c, i') == Pde(m, c, i'))
  }

  lemma CopyPageKeeps(ram: Ram, own: map<nat, Use>, dirs: set<nat>, p: nat, c: nat, i: nat, j: nat)
    returns (own': map<nat, Use>)
    requires CopyingAt(ram, own, dirs, p, c, i) && j < ENTRIES && Present(Pte(ram.mem, p, i, j))
    ensures var r := CopyPage(ram, FrameOf(Pde(ram.mem, p, i)), c, i, j).ram;
            && CopyingAt(r, own', dirs, p, c, i) && Advances(ram, own, r, own', c)
            && SameSpace(ram.mem, r.mem, p) && SameElsewhere(ram.mem, r.mem, c, i, j)
            && (NothingFrom(ram.mem, c, i, j) ==> NothingFrom(r.mem, c, i, j + 1))
  {
    hide Present, LargePage, Alloc, MapPage, Entry, FrameOf, Pde, Pte, AddsPage, AddOwn, Separated;
    var t := FrameOf(Pde(ram.mem, p, i));
    var f := Alloc(ram.used).0;
    SeparatedFrames(ram, own, dirs, 0);
    AllocTakesLowest(ram.used);
    if f == 0 {
      own' := own;
    } else {
      CopyPageAdds(ram, own, dirs, p, c, i, j);
      var m1, flags, r := CopyFrame(ram.mem, t, j, f), FlagsOf(Pte(ram.mem, p, i, j)), CopyPage(ram, t, c, i, j).ram;
      own' := AddOwn(ram, own, c, i, j, m1);
      AddPageKeeps(ram, own, dirs, c, i, j, flags, m1, r);
      AddPageAdvances(ram, own, dirs, c, i, j, flags, m1, r);
      OthersUntouched(ram, own, r, dirs, c, p);
    }
  }

  lemma {:induction false} CopyTableKeeps(ram: Ram, own: map<nat, Use>, dirs: set<nat>, p: nat, c: nat, i: nat, j: nat)
    returns (own': map<nat, Use>)
    requires CopyingAt(ram, own, dirs, p, c, i) && j <= ENTRIES
    ensures var r := CopyTable(ram, FrameOf(Pde(ram.mem, p, i)), c, i, j).ram;
            && CopyingAt(r, own', dirs, p, c, i) && Advances(ram, own, r, own', c)
            && SameSpace(ram.mem, r.mem, p) && SameElsewhere(ram.mem, r.mem, c, i, j)
    decreases ENTRIES - j
  {
    hide Present, LargePage, Alloc, Entry, FrameOf, CopyPage, Separated, Pde, SamePage;
    var t := FrameOf(Pde(ram.mem, p, i));
    own' := own;
    SameSpaceReflexive(ram.mem, p);
    if j < ENTRIES {
      if Present(ReadWord(ram.mem, t, j)) {
        var own1 := CopyPageKeeps(ram, own, dirs, p, c, i, j);
        var r1 := CopyPage(ram, t, c, i, j).ram;
        own' := own1;
        if CopyPage(ram, t, c, i, j).Copied? {
          own' := CopyTableKeeps(r1, own1, dirs, p, c, i, j + 1);
          var r := CopyTable(r1, t, c, i, j + 1).ram;
          AdvancesTransitive(ram, own, r1, own1, r, own', c);
          SameSpaceTransitive(ram.mem, r1.mem, r.mem, p);
        }
      } else {
        own' := CopyTableKeeps(ram, own, dirs, p, c, i, j + 1);
      }
    }
  }

  lemma SameSpaceReflexive(m: Memory, d: nat)
    ensures SameSpace(m, m, d)
  {
  }

  lemma SameSpaceTransitive(m0: Memory, m1: Memory, m2: Memory, d: nat)
    requires SameSpace(m0, m1, d) && SameSpace(m1, m2, d)
    ensures SameSpace(m0, m2, d)
  {
    hide Present, FrameOf, Pde, Pte;
    forall i, j | 0 <= i < KERNEL_PDT_IDX && 0 <= j < ENTRIES
      ensures SamePage(m0, m2, d, i, j)
    {
      assert SamePage(m0, m1, d, i, j) && SamePage(m1, m2, d, i, j);
    }
  }

  ghost predicate SameBefore(m: Memory, m': Memory, c: nat, i: nat) {
    && (forall i', j' {:trigger Pte(m', c, i', j')} :: 0 <= i' < i && i' < KERNEL_PDT_IDX && 0 <= j' < ENTRIES ==>
         Pte(m', c, i', j') == Pte(m, c, i', j'))
    && (forall i' {:trigger Pde(m', c, i')} :: KERNEL_PDT_IDX <= i' < ENTRIES ==> Pde(m', c, i') == Pde(m, c, i'))
  }

  /** However far it gets, the copy only adds to the child: every frame stays apart, and the parent is untouched. */
  lemma {:induction false} CopySpaceKeeps(ram: Ram, own: map<nat, Use>, dirs: set<nat>, p: nat, c: nat, i: nat)
    returns (own': map<nat, Use>)
    requires Separated(ram, own, dirs) && p in dirs && c in dirs && p != c && i <= KERNEL_PDT_IDX
    ensures var r := CopySpace(ram, p, c, i).ram;
            && Separated(r, own', dirs) && Advances(ram, own, r, own', c)
            && SameSpace(ram.mem, r.mem, p) && SameBefore(ram.mem, r.mem, c, i)
    decreases KERNEL_PDT_IDX - i
  {
    hide Present, LargePage, Alloc, Entry, FrameOf, CopyTable, Separated, Pde, SamePage;
    own' := own;
    SameSpaceReflexive(ram.mem, p);
    if i < KERNEL_PDT_IDX {
      if Present(Pde(ram.mem, p, i)) {
        var t := FrameOf(Pde(ram.mem, p, i));
        var own1 := CopyTableKeeps(ram, own, dirs, p, c, i, 0);
        var r1 := CopyTable(ram, t, c, i, 0).ram;
        own' := own1;
        if CopyTable(ram, t, c, i, 0).Copied? {
          own' := CopySpaceKeeps(r1, own1, dirs, p, c, i + 1);
          var r := CopySpace(r1, p, c, i + 1).ram;
          AdvancesTransitive(ram, own, r1, own1, r, own', c);
          SameSpaceTransitive(ram.mem, r1.mem, r.mem, p);
        }
      } else {
        own' := CopySpaceKeeps(ram, own, dirs, p, c, i + 1);
      }
    }
  }

  // ---- What it costs ----

  /** Present entries of table t from entry j on. */
  function PagesIn(m: Memory, t: nat, j: nat): nat
    requires j <= ENTRIES
    decreases ENTRIES - j
  {
    if j == ENTRIES then 0 else (if Present(ReadWord(m, t, j)) then 1 else 0) + PagesIn(m, t, j + 1)
  }

  function PagesOf(m: Memory, d: nat, i: nat): nat
    requires i <= KERNEL_PDT_IDX
  {
    if i < KERNEL_PDT_IDX && Present(Pde(m, d, i)) then PagesIn(m, FrameOf(Pde(m, d, i)), 0) else 0
  }

  /** Present user pages of directory d from directory entry i on. */
  function PageCount(m: Memory, d: nat, i: nat): nat
    requires i <= KERNEL_PDT_IDX
    decreases KERNEL_PDT_IDX - i
  {
    if i == KERNEL_PDT_IDX then 0 else PagesOf(m, d, i) + PageCount(m, d, i + 1)
  }

  /** Tables of directory d that hold a present page, from directory entry i on. */
  function TableCount(m: Memory, d: nat, i: nat): nat
    requires i <= KERNEL_PDT_IDX
    decreases KERNEL_PDT_IDX - i
  {
    if i == KERNEL_PDT_IDX then 0 else (if PagesOf(m, d, i) > 0 then 1 else 0) + TableCount(m, d, i + 1)
  }

  lemma {:induction false} PagesInSame(m: Memory, m': Memory, t: nat, j: nat)
    requires j <= ENTRIES && forall k :: j <= k < ENTRIES ==> ReadWord(m', t, k) == ReadWord(m, t, k)
    ensures PagesIn(m', t, j) == PagesIn(m, t, j)
    decreases ENTRIES - j
  {
    if j < ENTRIES {
      PagesInSame(m, m', t, j + 1);
    }
  }

  lemma PagesOfSame(m: Memory, m': Memory, d: nat, i: nat)
    requires SameSpace(m, m', d) && i < KERNEL_PDT_IDX && Present(Pde(m, d, i))
    ensures Pde(m', d, i) == Pde(m, d, i)
    ensures forall j :: 0 <= j <= ENTRIES ==>
              PagesIn(m', FrameOf(Pde(m, d, i)), j) == PagesIn(m, FrameOf(Pde(m, d, i)), j)
  {
    hide Present, FrameOf, Pde;
    var t := FrameOf(Pde(m, d, i));
    forall k | 0 <= k < ENTRIES
      ensures ReadWord(m', t, k) == ReadWord(m, t, k)
    {
      assert SamePage(m, m', d, i, k);
    }
    forall j | 0 <= j <= ENTRIES
      ensures PagesIn(m', t, j) == PagesIn(m, t, j)
    {
      PagesInSame(m, m', t, j);
    }
  }

  lemma {:induction false} CountsSame(m: Memory, m': Memory, d: nat, i: nat)
    requires SameSpace(m, m', d) && i <= KERNEL_PDT_IDX
    ensures PageCount(m', d, i) == PageCount(m, d, i) && TableCount(m', d, i) == TableCount(m, d, i)
    decreases KERNEL_PDT_IDX - i
  {
    hide Present, FrameOf, Pde, Pte, SamePage, PagesIn;
    if i < KERNEL_PDT_IDX {
      assert Pde(m', d, i) == Pde(m, d, i);
      if Present(Pde(m, d, i)) {
        PagesOfSame(m, m', d, i);
      }
      CountsSame(m, m', d, i + 1);
    }
  }

  // ---- What it achieves ----

  /** Page (i, j) of the child in m' mirrors that of the parent in m. */
  ghost predicate Mirrors(m: Memory, m': Memory, p: nat, c: nat, i: nat, j: nat) {
    var from, to := Pte(m, p, i, j), Pte(m', c, i, j);
    && Present(to) == Present(from)
    && (Present(from) ==> FlagsOf(to) == FlagsOf(from) && ReadFrame(m', FrameOf(to)) == ReadFrame(m, FrameOf(from)))
  }

  ghost predicate Lost(m: Memory, m': Memory, p: nat, c: nat, i: nat, j: nat) {
    Present(Pte(m, p, i, j)) && !Present(Pte(m', c, i, j))
  }

  function NewTable(m: Memory, c: nat, i: nat): nat {
    if Present(Pde(m, c, i)) then 0 else 1
  }

  lemma CopyPageEffect(ram: Ram, own: map<nat, Use>, dirs: set<nat>, p: nat, c: nat, i: nat, j: nat)
    requires CopyingAt(ram, own, dirs, p, c, i) && j < ENTRIES && Present(Pte(ram.mem, p, i, j))
    ensures var r := CopyPage(ram, FrameOf(Pde(ram.mem, p, i)), c, i, j);
            && (FreeCount(ram.used) == 0 <==> r.OutOfFrames?)
            && (FreeCount(ram.used) == 1 && !Present(Pde(ram.mem, c, i)) ==>
                  FreeCount(r.ram.used) == 0 && Pte(r.ram.mem, c, i, j) == Pte(ram.mem, c, i, j)
                    && !Present(Pde(r.ram.mem, c, i)))
            && (FreeCount(ram.used) >= 1 + NewTable(ram.mem, c, i) ==>
                  && FreeCount(r.ram.used) == FreeCount(ram.used) - 1 - NewTable(ram.mem, c, i)
                  && Mirrors(ram.mem, r.ram.mem, p, c, i, j) && Present(Pde(r.ram.mem, c, i)))
  {
    hide Present, LargePage, Alloc, MapPage, Entry, FrameOf, FlagsOf, Pde, Pte, AddsPage, Separated, HasTable, AddOwn;
    hide FreeCount;
    var t, f := FrameOf(Pde(ram.mem, p, i)), Alloc(ram.used).0;
    SeparatedFrames(ram, own, dirs, 0);
    AllocTakesLowest(ram.used);
    if f != 0 {
      CopyPageAdds(ram, own, dirs, p, c, i, j);
      var pte := Pte(ram.mem, p, i, j);
      var m1, flags, r := CopyFrame(ram.mem, t, j, f), FlagsOf(pte), CopyPage(ram, t, c, i, j).ram;
      AddPageKeeps(ram, own, dirs, c, i, j, flags, m1, r);
      AddPageCost(ram, own, dirs, c, i, j, flags, m1, r);
      AddPageWrites(ram, own, dirs, c, i, j, flags, m1, r, f);
      EntryFlags(f, pte);
    }
  }

  lemma EntryFlags(f: nat, w: Word)
    requires f < TOTAL_FRAMES
    ensures FlagsOf(w) < FRAME_SIZE
    ensures FrameOf(Entry(f, FlagsOf(w))) == f && FlagsOf(Entry(f, FlagsOf(w))) == FlagsOf(w)
    ensures Present(Entry(f, FlagsOf(w))) == Present(w)
  {
    EntryFields(f, FlagsOf(w));
    SameParity(2048 * FrameOf(w), FlagsOf(w));
  }

  /** The rest of the run, from r1 on, keeps what page (i, j) of the child already mirrors. */
  lemma MirrorStays(m: Memory, r1: Ram, own1: map<nat, Use>, r: Ram, dirs: set<nat>, p: nat, c: nat, i: nat, j: nat)
    requires Separated(r1, own1, dirs) && Preserved(r1, own1, r, c) && c in dirs && i < KERNEL_PDT_IDX && j < ENTRIES
    requires Pte(r.mem, c, i, j) == Pte(r1.mem, c, i, j) && Mirrors(m, r1.mem, p, c, i, j)
    ensures Mirrors(m, r.mem, p, c, i, j)
  {
    hide Present, FrameOf, FlagsOf, Pte, Separated;
    if Present(Pte(r1.mem, c, i, j)) {
      PageStays(r1, own1, r, dirs, c, i, j);
    }
  }

  lemma MirrorFrom(m: Memory, m1: Memory, m': Memory, p: nat, c: nat, i: nat, j: nat)
    requires SamePage(m, m1, p, i, j) && Mirrors(m1, m', p, c, i, j)
    ensures Mirrors(m, m', p, c, i, j)
  {
    hide Present, FrameOf, FlagsOf, Pte;
  }

  function TableNeed(m: Memory, t: nat, c: nat, i: nat, j: nat): nat
    requires j <= ENTRIES
  {
    if PagesIn(m, t, j) == 0 then 0 else PagesIn(m, t, j) + NewTable(m, c, i)
  }

  /** With frames enough for the rest of the table, all of it is mirrored at exactly that cost. */
  lemma {:induction false} CopyTableMirrors(ram: Ram, own: map<nat, Use>, dirs: set<nat>, p: nat, c: nat, i: nat,
                                            j: nat)
    requires CopyingAt(ram, own, dirs, p, c, i) && j <= ENTRIES && NothingFrom(ram.mem, c, i, j)
    requires FreeCount(ram.used) >= TableNeed(ram.mem, FrameOf(Pde(ram.mem, p, i)), c, i, j)
    ensures var r := CopyTable(ram, FrameOf(Pde(ram.mem, p, i)), c, i, j);
            && r.Copied?
            && FreeCount(r.ram.used) == FreeCount(ram.used) - TableNeed(ram.mem, FrameOf(Pde(ram.mem, p, i)), c, i, j)
            && forall j' :: j <= j' < ENTRIES ==> Mirrors(ram.mem, r.ram.mem, p, c, i, j')
    decreases ENTRIES - j
  {
    hide Present, LargePage, Alloc, Entry, FrameOf, CopyPage, Separated, Pde, FreeCount, Mirrors, SamePage;
    var t := FrameOf(Pde(ram.mem, p, i));
    if j < ENTRIES {
      assert Pte(ram.mem, p, i, j) == ReadWord(ram.mem, t, j);
      if Present(ReadWord(ram.mem, t, j)) {
        var own1 := CopyPageKeeps(ram, own, dirs, p, c, i, j);
        CopyPageEffect(ram, own, dirs, p, c, i, j);
        var r1 := CopyPage(ram, t, c, i, j).ram;
        PagesOfSame(ram.mem, r1.mem, p, i);
        CopyTableMirrors(r1, own1, dirs, p, c, i, j + 1);
        var own' := CopyTableKeeps(r1, own1, dirs, p, c, i, j + 1);
        var r := CopyTable(r1, t, c, i, j + 1).ram;
        MirrorStays(ram.mem, r1, own1, r, dirs, p, c, i, j);
        forall j' | j < j' < ENTRIES
          ensures Mirrors(ram.mem, r.mem, p, c, i, j')
        {
          assert SamePage(ram.mem, r1.mem, p, i, j');
          MirrorFrom(ram.mem, r1.mem, r.mem, p, c, i, j');
        }
      } else {
        CopyTableMirrors(ram, own, dirs, p, c, i, j + 1);
        var own' := CopyTableKeeps(ram, own, dirs, p, c, i, j + 1);
        NothingMirrored(ram.mem, CopyTable(ram, t, c, i, j + 1).ram.mem, p, c, i, j);
      }
    }
  }

  lemma NothingMirrored(m: Memory, m': Memory, p: nat, c: nat, i: nat, j: nat)
    requires !Present(Pte(m, p, i, j)) && !Present(Pte(m', c, i, j))
    ensures Mirrors(m, m', p, c, i, j)
  {
  }

  /** With too few frames, the loop fails -- unless all that is missing is the table for the last page,
      which map_page drops silently. */
  lemma {:induction false} CopyTableShort(ram: Ram, own: map<nat, Use>, dirs: set<nat>, p: nat, c: nat, i: nat, j: nat)
    requires CopyingAt(ram, own, dirs, p, c, i) && j <= ENTRIES && NothingFrom(ram.mem, c, i, j)
    requires FreeCount(ram.used) < TableNeed(ram.mem, FrameOf(Pde(ram.mem, p, i)), c, i, j)
    ensures var t := FrameOf(Pde(ram.mem, p, i));
            var r := CopyTable(ram, t, c, i, j);
            && (r.Copied? <==> FreeCount(ram.used) == 1 && PagesIn(ram.mem, t, j) == 1 && !Present(Pde(ram.mem, c, i)))
            && (r.Copied? ==> FreeCount(r.ram.used) == 0)
            && (r.Copied? ==> exists j' :: j <= j' < ENTRIES && Lost(ram.mem, r.ram.mem, p, c, i, j'))
    decreases ENTRIES - j
  {
    hide Present, LargePage, Alloc, Entry, FrameOf, CopyPage, Separated, Pde, FreeCount, Mirrors, SamePage;
    var t := FrameOf(Pde(ram.mem, p, i));
    assert Pte(ram.mem, p, i, j) == ReadWord(ram.mem, t, j);
    if Present(ReadWord(ram.mem, t, j)) {
      CopyPageEffect(ram, own, dirs, p, c, i, j);
      if CopyPage(ram, t, c, i, j).Copied? {
        var own1 := CopyPageKeeps(ram, own, dirs, p, c, i, j);
        var r1 := CopyPage(ram, t, c, i, j).ram;
        PagesOfSame(ram.mem, r1.mem, p, i);
        CopyTableRest(ram, r1, own1, dirs, p, c, i, j);
      }
    } else {
      CopyTableShort(ram, own, dirs, p, c, i, j + 1);
    }
  }

  lemma {:induction false} CopyTableRest(ram: Ram, r1: Ram, own1: map<nat, Use>, dirs: set<nat>, p: nat, c: nat,
                                         i: nat, j: nat)
    requires CopyingAt(r1, own1, dirs, p, c, i) && j < ENTRIES && NothingFrom(r1.mem, c, i, j + 1)
    requires SameSpace(ram.mem, r1.mem, p) && Present(Pde(ram.mem, p, i)) && Present(Pte(ram.mem, p, i, j))
    requires (Present(Pde(r1.mem, c, i)) && FreeCount(r1.used) < PagesIn(ram.mem, FrameOf(Pde(ram.mem, p, i)), j + 1))
             || (FreeCount(r1.used) == 0 && !Present(Pde(r1.mem, c, i)) && !Present(Pte(r1.mem, c, i, j)))
    ensures var t := FrameOf(Pde(ram.mem, p, i));
            var r := CopyTable(r1, t, c, i, j + 1);
            && (r.Copied? <==> !Present(Pde(r1.mem, c, i)) && PagesIn(ram.mem, t, j + 1) == 0)
            && (r.Copied? ==> FreeCount(r.ram.used) == 0 && Lost(ram.mem, r.ram.mem, p, c, i, j))
    decreases ENTRIES - j, 0
  {
    hide Present, LargePage, Alloc, Entry, FrameOf, CopyPage, Separated, Pde, FreeCount, Mirrors, SamePage, Pte;
    var t := FrameOf(Pde(ram.mem, p, i));
    PagesOfSame(ram.mem, r1.mem, p, i);
    if PagesIn(ram.mem, t, j + 1) == 0 {
      CopyTableMirrors(r1, own1, dirs, p, c, i, j + 1);
      var own' := CopyTableKeeps(r1, own1, dirs, p, c, i, j + 1);
    } else {
      CopyTableShort(r1, own1, dirs, p, c, i, j + 1);
    }
  }

  // ---- The whole address space ----

  ghost predicate EmptyFrom(m: Memory, c: nat, i: nat) {
    forall i' {:trigger Pde(m, c, i')} :: i <= i' < KERNEL_PDT_IDX ==> !Present(Pde(m, c, i'))
  }

  ghost predicate CopyingSpace(ram: Ram, own: map<nat, Use>, dirs: set<nat>, p: nat, c: nat, i: nat) {
    Separated(ram, own, dirs) && p in dirs && c in dirs && p != c && i <= KERNEL_PDT_IDX && EmptyFrom(ram.mem, c, i)
  }

  /** Every page of the parent, from directory entry i on, is mirrored by the child. */
  ghost predicate MirrorsFrom(m: Memory, m': Memory, p: nat, c: nat, i: nat) {
    forall i', j' {:trigger Mirrors(m, m', p, c, i', j')} :: i <= i' < KERNEL_PDT_IDX && 0 <= j' < ENTRIES ==>
      Mirrors(m, m', p, c, i', j')
  }

  function SpaceNeed(m: Memory, p: nat, i: nat): nat
    requires i <= KERNEL_PDT_IDX
  {
    PageCount(m, p, i) + TableCount(m, p, i)
  }

  lemma FirstTable(ram: Ram, own: map<nat, Use>, dirs: set<nat>, p: nat, c: nat, i: nat)
    requires CopyingSpace(ram, own, dirs, p, c, i) && i < KERNEL_PDT_IDX && Present(Pde(ram.mem, p, i))
    ensures CopyingAt(ram, own, dirs, p, c, i) && NothingFrom(ram.mem, c, i, 0)
    ensures TableNeed(ram.mem, FrameOf(Pde(ram.mem, p, i)), c, i, 0) ==
              SpaceNeed(ram.mem, p, i) - SpaceNeed(ram.mem, p, i + 1)
  {
    hide FrameOf, Separated, ReadWord;
  }

  lemma {:induction false} CopySpaceMirrors(ram: Ram, own: map<nat, Use>, dirs: set<nat>, p: nat, c: nat, i: nat)
    requires CopyingSpace(ram, own, dirs, p, c, i) && FreeCount(ram.used) >= SpaceNeed(ram.mem, p, i)
    ensures var r := CopySpace(ram, p, c, i);
            && r.Copied? && FreeCount(r.ram.used) == FreeCount(ram.used) - SpaceNeed(ram.mem, p, i)
            && MirrorsFrom(ram.mem, r.ram.mem, p, c, i)
    decreases KERNEL_PDT_IDX - i
  {
    hide Present, LargePage, FrameOf, CopyTable, Separated, Pde, Pte, FreeCount, Mirrors, SamePage, TableNeed;
    hide PagesOf, PagesIn;
    if i < KERNEL_PDT_IDX {
      if Present(Pde(ram.mem, p, i)) {
        var t := FrameOf(Pde(ram.mem, p, i));
        FirstTable(ram, own, dirs, p, c, i);
        CopyTableMirrors(ram, own, dirs, p, c, i, 0);
        var own1 := CopyTableKeeps(ram, own, dirs, p, c, i, 0);
        var r1 := CopyTable(ram, t, c, i, 0).ram;
        CountsSame(ram.mem, r1.mem, p, i + 1);
        CopySpaceMirrors(r1, own1, dirs, p, c, i + 1);
        var own' := CopySpaceKeeps(r1, own1, dirs, p, c, i + 1);
        MirrorsJoin(ram, r1, own1, CopySpace(r1, p, c, i + 1).ram, dirs, p, c, i);
      } else {
        NoTableNoPages(ram.mem, p, i);
        CopySpaceMirrors(ram, own, dirs, p, c, i + 1);
        var own' := CopySpaceKeeps(ram, own, dirs, p, c, i + 1);
        NoTableMirrored(ram.mem, CopySpace(ram, p, c, i + 1).ram.mem, p, c, i);
      }
    }
  }

  lemma NoTableNoPages(m: Memory, p: nat, i: nat)
    requires i < KERNEL_PDT_IDX && !Present(Pde(m, p, i))
    ensures SpaceNeed(m, p, i) == SpaceNeed(m, p, i + 1)
  {
  }

  lemma NoTableMirrored(m: Memory, m': Memory, p: nat, c: nat, i: nat)
    requires i < KERNEL_PDT_IDX && !Present(Pde(m, p, i)) && !Present(Pde(m, c, i)) && SameBefore(m, m', c, i + 1)
    ensures forall j :: 0 <= j < ENTRIES ==> Mirrors(m, m', p, c, i, j)
  {
    hide FrameOf, FlagsOf, ReadFrame, Pde;
    forall j | 0 <= j < ENTRIES
      ensures Mirrors(m, m', p, c, i, j)
    {
      assert Pte(m', c, i, j) == Pte(m, c, i, j);
    }
  }

  lemma MirrorsJoin(ram: Ram, r1: Ram, own1: map<nat, Use>, r: Ram, dirs: set<nat>, p: nat, c: nat, i: nat)
    requires Separated(r1, own1, dirs) && Preserved(r1, own1, r, c) && c in dirs && i < KERNEL_PDT_IDX
    requires SameSpace(ram.mem, r1.mem, p) && SameBefore(r1.mem, r.mem, c, i + 1)
    requires forall j :: 0 <= j < ENTRIES ==> Mirrors(ram.mem, r1.mem, p, c, i, j)
    requires MirrorsFrom(r1.mem, r.mem, p, c, i + 1)
    ensures MirrorsFrom(ram.mem, r.mem, p, c, i)
  {
    hide Present, FrameOf, FlagsOf, Pte, Separated, Mirrors, SamePage;
    forall i', j' | i <= i' < KERNEL_PDT_IDX && 0 <= j' < ENTRIES
      ensures Mirrors(ram.mem, r.mem, p, c, i', j')
    {
      if i' == i {
        assert Mirrors(ram.mem, r1.mem, p, c, i, j');
        assert Pte(r.mem, c, i, j') == Pte(r1.mem, c, i, j');
        MirrorStays(ram.mem, r1, own1, r, dirs, p, c, i, j');
      } else {
        assert SamePage(ram.mem, r1.mem, p, i', j');
        assert Mirrors(r1.mem, r.mem, p, c, i', j');
        MirrorFrom(ram.mem, r1.mem, r.mem, p, c, i', j');
      }
    }
  }

  /** The last table that holds pages holds a single one. */
  predicate LoneLastPage(m: Memory, p: nat, i: nat)
    requires i <= KERNEL_PDT_IDX
    decreases KERNEL_PDT_IDX - i
  {
    i < KERNEL_PDT_IDX &&
    if PageCount(m, p, i + 1) > 0 then LoneLastPage(m, p, i + 1) else PagesOf(m, p, i) == 1
  }

  lemma {:induction false} LoneSame(m: Memory, m': Memory, p: nat, i: nat)
    requires SameSpace(m, m', p) && i <= KERNEL_PDT_IDX
    ensures LoneLastPage(m', p, i) == LoneLastPage(m, p, i)
    decreases KERNEL_PDT_IDX - i
  {
    hide SameSpace, PagesOf, TableCount;
    if i < KERNEL_PDT_IDX {
      CountsSame(m, m', p, i);
      CountsSame(m, m', p, i + 1);
      assert PagesOf(m', p, i) == PagesOf(m, p, i);
      hide PageCount;
      LoneSame(m, m', p, i + 1);
    }
  }

  ghost predicate LosesFrom(m: Memory, m': Memory, p: nat, c: nat, i: nat) {
    exists i', j' :: i <= i' < KERNEL_PDT_IDX && 0 <= j' < ENTRIES && Lost(m, m', p, c, i', j')
  }

  lemma LosesLater(m: Memory, m1: Memory, m': Memory, p: nat, c: nat, i: nat)
    requires SameSpace(m, m1, p) && LosesFrom(m1, m', p, c, i + 1)
    ensures LosesFrom(m, m', p, c, i)
  {
    hide Present, FrameOf, Pde, Pte;
    var i', j' :| i + 1 <= i' < KERNEL_PDT_IDX && 0 <= j' < ENTRIES && Lost(m1, m', p, c, i', j');
    assert SamePage(m, m1, p, i', j');
    assert Lost(m, m', p, c, i', j');
  }

  lemma LosesHere(m: Memory, m1: Memory, m': Memory, p: nat, c: nat, i: nat, j: nat)
    requires i < KERNEL_PDT_IDX && j < ENTRIES && Lost(m, m1, p, c, i, j) && SameBefore(m1, m', c, i + 1)
    ensures LosesFrom(m, m', p, c, i)
  {
    hide Present, FrameOf, Pde, Pte;
    assert Lost(m, m', p, c, i, j);
  }

  lemma {:induction false} PagesNeedTables(m: Memory, p: nat, i: nat)
    requires i <= KERNEL_PDT_IDX
    ensures PageCount(m, p, i) > 0 <==> TableCount(m, p, i) > 0
    decreases KERNEL_PDT_IDX - i
  {
    if i < KERNEL_PDT_IDX {
      PagesNeedTables(m, p, i + 1);
    }
  }

  /** With too few frames the copy fails, or -- one frame short, the last page alone in its table --
      is reported as complete although a page of the parent is missing. */
  lemma {:induction false} CopySpaceShort(ram: Ram, own: map<nat, Use>, dirs: set<nat>, p: nat, c: nat, i: nat)
    requires CopyingSpace(ram, own, dirs, p, c, i) && FreeCount(ram.used) < SpaceNeed(ram.mem, p, i)
    ensures var r := CopySpace(ram, p, c, i);
            && (r.Copied? <==> FreeCount(ram.used) == SpaceNeed(ram.mem, p, i) - 1 && LoneLastPage(ram.mem, p, i))
            && (r.Copied? ==> LosesFrom(ram.mem, r.ram.mem, p, c, i))
    decreases KERNEL_PDT_IDX - i, 1
  {
    hide Present, LargePage, FrameOf, CopyTable, Separated, Pde, FreeCount, SamePage, PagesIn, Lost, LoneLastPage;
    if Present(Pde(ram.mem, p, i)) {
      if FreeCount(ram.used) >= TableNeed(ram.mem, FrameOf(Pde(ram.mem, p, i)), c, i, 0) {
        ShortLater(ram, own, dirs, p, c, i);
      } else {
        ShortHere(ram, own, dirs, p, c, i);
      }
    } else {
      CopySpaceShortSkip(ram, own, dirs, p, c, i);
    }
  }

  lemma {:induction false} CopySpaceShortSkip(ram: Ram, own: map<nat, Use>, dirs: set<nat>, p: nat, c: nat, i: nat)
    requires CopyingSpace(ram, own, dirs, p, c, i) && FreeCount(ram.used) < SpaceNeed(ram.mem, p, i)
    requires i < KERNEL_PDT_IDX && !Present(Pde(ram.mem, p, i))
    ensures var r := CopySpace(ram, p, c, i);
            && (r.Copied? <==> FreeCount(ram.used) == SpaceNeed(ram.mem, p, i) - 1 && LoneLastPage(ram.mem, p, i))
            && (r.Copied? ==> LosesFrom(ram.mem, r.ram.mem, p, c, i))
    decreases KERNEL_PDT_IDX - i, 0
  {
    hide Present, LargePage, FrameOf, CopyTable, Separated, Pde, Pte, FreeCount, SamePage, PagesIn, Lost;
    PagesNeedTables(ram.mem, p, i + 1);
    CopySpaceShort(ram, own, dirs, p, c, i + 1);
    if CopySpace(ram, p, c, i + 1).Copied? {
      SameSpaceReflexive(ram.mem, p);
      LosesLater(ram.mem, ram.mem, CopySpace(ram, p, c, i + 1).ram.mem, p, c, i);
    }
  }

  lemma {:induction false} ShortLater(ram: Ram, own: map<nat, Use>, dirs: set<nat>, p: nat, c: nat, i: nat)
    requires CopyingSpace(ram, own, dirs, p, c, i) && FreeCount(ram.used) < SpaceNeed(ram.mem, p, i)
    requires i < KERNEL_PDT_IDX && Present(Pde(ram.mem, p, i))
    requires FreeCount(ram.used) >= TableNeed(ram.mem, FrameOf(Pde(ram.mem, p, i)), c, i, 0)
    ensures var r := CopySpace(ram, p, c, i);
            && (r.Copied? <==> FreeCount(ram.used) == SpaceNeed(ram.mem, p, i) - 1 && LoneLastPage(ram.mem, p, i))
            && (r.Copied? ==> LosesFrom(ram.mem, r.ram.mem, p, c, i))
    decreases KERNEL_PDT_IDX - i, 0
  {
    hide Present, LargePage, FrameOf, CopyTable, Separated, Pde, FreeCount, Mirrors, SamePage, PagesIn, PagesOf;
    hide TableNeed, Lost;
    var t := FrameOf(Pde(ram.mem, p, i));
    FirstTable(ram, own, dirs, p, c, i);
    CopyTableMirrors(ram, own, dirs, p, c, i, 0);
    var own1 := CopyTableKeeps(ram, own, dirs, p, c, i, 0);
    var r1 := CopyTable(ram, t, c, i, 0).ram;
    CountsSame(ram.mem, r1.mem, p, i + 1);
    LoneSame(ram.mem, r1.mem, p, i + 1);
    PagesNeedTables(ram.mem, p, i + 1);
    CopySpaceShort(r1, own1, dirs, p, c, i + 1);
    if CopySpace(r1, p, c, i + 1).Copied? {
      LosesLater(ram.mem, r1.mem, CopySpace(r1, p, c, i + 1).ram.mem, p, c, i);
    }
  }

  lemma {:induction false} ShortHere(ram: Ram, own: map<nat, Use>, dirs: set<nat>, p: nat, c: nat, i: nat)
    requires CopyingSpace(ram, own, dirs, p, c, i)
    requires i < KERNEL_PDT_IDX && Present(Pde(ram.mem, p, i))
    requires FreeCount(ram.used) < TableNeed(ram.mem, FrameOf(Pde(ram.mem, p, i)), c, i, 0)
    ensures var r := CopySpace(ram, p, c, i);
            && (r.Copied? <==> FreeCount(ram.used) == SpaceNeed(ram.mem, p, i) - 1 && LoneLastPage(ram.mem, p, i))
            && (r.Copied? ==> LosesFrom(ram.mem, r.ram.mem, p, c, i))
    decreases KERNEL_PDT_IDX - i, 0
  {
    hide Present, LargePage, FrameOf, CopyTable, Separated, Pde, FreeCount, Mirrors, SamePage, PagesIn, Lost;
    var t := FrameOf(Pde(ram.mem, p, i));
    FirstTable(ram, own, dirs, p, c, i);
    CopyTableShort(ram, own, dirs, p, c, i, 0);
    PagesNeedTables(ram.mem, p, i + 1);
    var r1 := CopyTable(ram, t, c, i, 0).ram;
    if CopyTable(ram, t, c, i, 0).Copied? {
      var own1 := CopyTableKeeps(ram, own, dirs, p, c, i, 0);
      CountsSame(ram.mem, r1.mem, p, i + 1);
      if PageCount(ram.mem, p, i + 1) == 0 {
        CopySpaceMirrors(r1, own1, dirs, p, c, i + 1);
        var own' := CopySpaceKeeps(r1, own1, dirs, p, c, i + 1);
        var j :| 0 <= j < ENTRIES && Lost(ram.mem, r1.mem, p, c, i, j);
        LosesHere(ram.mem, r1.mem, CopySpace(r1, p, c, i + 1).ram.mem, p, c, i, j);
      } else {
        CopySpaceShort(r1, own1, dirs, p, c, i + 1);
      }
    }
  }
}

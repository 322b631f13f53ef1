/** create_page_directory (mem/paging.c): a fresh, user-empty address space that shares the kernel half. */
module Directories {
  import opened Machine
  import opened FramePool
  import opened PageTables
  import opened Ownership

  /** No user table yet, and the kernel's entries in the upper quarter. */
  ghost predicate FreshDirectory(m: Memory, d: nat, kdir: Frame) {
    && (forall i {:trigger Pde(m, d, i)} :: 0 <= i < KERNEL_PDT_IDX ==> !Present(Pde(m, d, i)))
    && (forall i {:trigger Pde(m, d, i)} :: KERNEL_PDT_IDX <= i < ENTRIES ==> Pde(m, d, i) == kdir[i])
  }

  ghost predicate SharesKernelHalf(m: Memory, dirs: set<nat>, kdir: Frame) {
    forall d, i {:trigger Pde(m, d, i)} :: d in dirs && KERNEL_PDT_IDX <= i < ENTRIES ==> Pde(m, d, i) == kdir[i]
  }

  /** It takes one free frame and holds no user table; it fails exactly when no frame is free, and then changes
      nothing. */
  lemma CreateDirectoryFresh(ram: Ram, own: map<nat, Use>, dirs: set<nat>, kdir: Frame)
    requires Separated(ram, own, dirs)
    ensures var (d, ram') := CreateDirectory(ram, kdir);
            && (d == 0 <==> FreeCount(ram.used) == 0) && (d == 0 ==> ram' == ram)
            && (d != 0 ==>
                  && d < TOTAL_FRAMES && !ram.used[d] && d !in own && d !in dirs
                  && FreeCount(ram'.used) == FreeCount(ram.used) - 1
                  && ram'.used == ram.used[d := true] && DiffersOnlyAt(ram.mem, ram'.mem, d)
                  && FreshDirectory(ram'.mem, d, kdir))
  {
    hide FreeCount, LargePage, FrameOf, Pte;
    AllocTakesLowest(ram.used);
  }

  /** The new directory is apart from everything there was. */
  lemma CreateDirectoryKeeps(ram: Ram, own: map<nat, Use>, dirs: set<nat>, kdir: Frame)
    requires Separated(ram, own, dirs) && CreateDirectory(ram, kdir).0 != 0
    ensures var (d, ram') := CreateDirectory(ram, kdir);
            Separated(ram', own[d := Directory(d)], dirs + {d}) && Advances(ram, own, ram', own[d := Directory(d)], d)
  {
    hide Present, FreeCount, LargePage, FrameOf, Pde, Pte, CreateDirectory, TableApart, PageApart;
    CreateDirectoryFresh(ram, own, dirs, kdir);
    var (d, ram') := CreateDirectory(ram, kdir);
    var own' := own[d := Directory(d)];
    SameTablesKeep(ram, own, dirs, ram');
    forall d', i | d' in dirs + {d} && 0 <= i < KERNEL_PDT_IDX && Present(Pde(ram'.mem, d', i))
      ensures TableApart(ram'.mem, own', d', i)
    {
      TableApartGrows(ram', own, own', dirs, d', i);
    }
    forall d', i, j | d' in dirs + {d} && 0 <= i < KERNEL_PDT_IDX && 0 <= j < ENTRIES
      && Present(Pte(ram'.mem, d', i, j))
      ensures PageApart(ram'.mem, own', d', i, j)
    {
      PageNeedsTable(ram'.mem, d', i, j);
      PageApartGrows(ram', own, own', dirs, d', i, j);
    }
  }

  lemma PageNeedsTable(m: Memory, d: nat, i: nat, j: nat)
    ensures Present(Pte(m, d, i, j)) ==> Present(Pde(m, d, i))
  {
  }

  lemma TableApartGrows(ram: Ram, own: map<nat, Use>, own': map<nat, Use>, dirs: set<nat>, d: nat, i: nat)
    requires Separated(ram, own, dirs) && forall g :: g in own ==> g in own' && own'[g] == own[g]
    requires d in dirs && i < KERNEL_PDT_IDX && Present(Pde(ram.mem, d, i))
    ensures TableApart(ram.mem, own', d, i)
  {
    hide Present, LargePage, FrameOf, Pde;
    assert TableApart(ram.mem, own, d, i);
  }

  lemma PageApartGrows(ram: Ram, own: map<nat, Use>, own': map<nat, Use>, dirs: set<nat>, d: nat, i: nat, j: nat)
    requires Separated(ram, own, dirs) && forall g :: g in own ==> g in own' && own'[g] == own[g]
    requires d in dirs && i < KERNEL_PDT_IDX && j < ENTRIES && Present(Pte(ram.mem, d, i, j))
    ensures PageApart(ram.mem, own', d, i, j)
  {
    hide Present, LargePage, FrameOf, Pde, Pte;
    assert PageApart(ram.mem, own, d, i, j);
  }
}

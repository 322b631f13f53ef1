/** A user store reaches one byte of one page of one process. */
module Stores {
  import opened Machine
  import opened Bytes
  import opened FramePool
  import opened PageTables
  import opened Ownership
  import opened Translation
  import opened DemandPaging
  import opened Processes

  /** Every user page of d reads as before, word for word, except one word. */
  ghost predicate OnlyWord(m: Memory, m': Memory, d: nat, v: Word, w: Word) {
    forall i, j, k {:trigger UserWord(m', d, i, j, k)} | 0 <= i < KERNEL_PDT_IDX && 0 <= j < ENTRIES
      && 0 <= k < FRAME_WORDS ::
      UserWord(m', d, i, j, k) == if (i, j, k) == (DirIndex(v), TabIndex(v), Offset(v) / 4) then w
        else UserWord(m, d, i, j, k)
  }

  ghost predicate SameWords(m: Memory, m': Memory, d: nat) {
    forall i, j, k {:trigger UserWord(m', d, i, j, k)} | 0 <= i < KERNEL_PDT_IDX && 0 <= j < ENTRIES
      && 0 <= k < FRAME_WORDS ::
      UserWord(m', d, i, j, k) == UserWord(m, d, i, j, k)
  }

  /** What a process reads at a user address; absent pages read as zero. */
  function UserByte(m: Memory, d: nat, v: Word): Byte { ByteOf(WordAt(m, d, v), v % 4) }

  /** Every user address of d reads as before, except one. */
  ghost predicate OnlyByte(m: Memory, m': Memory, d: nat, v: Word, b: Byte) {
    forall a {:trigger UserByte(m', d, a)} | 0 <= a < KERNEL_VIRTUAL_START ::
      UserByte(m', d, a) == if a == v then b else UserByte(m, d, a)
  }

  lemma UserIndices(v: Word)
    requires v < KERNEL_VIRTUAL_START
    ensures DirIndex(v) < KERNEL_PDT_IDX && TabIndex(v) < ENTRIES && Offset(v) / 4 < FRAME_WORDS
  {
  }

  lemma StoreMappedKeeps(ram: Ram, own: map<nat, Use>, dirs: set<nat>, d: nat, v: Word, w: Word)
    requires Separated(ram, own, dirs) && d in dirs && v < KERNEL_VIRTUAL_START
    requires Present(Pte(ram.mem, d, DirIndex(v), TabIndex(v)))
    ensures Separated(StoreMapped(ram, d, v, w), own, dirs)
    ensures var f := FrameOf(Pte(ram.mem, d, DirIndex(v), TabIndex(v)));
            && f in own && own[f] == Page(d, DirIndex(v), TabIndex(v)) && f < TOTAL_FRAMES && ram.used[f]
            && DiffersOnlyAt(ram.mem, StoreMapped(ram, d, v, w).mem, f)
  {
    hide Present, FrameOf, LargePage, Pde, Pte, DirIndex, TabIndex, Offset;
    UserIndices(v);
    assert PageApart(ram.mem, own, d, DirIndex(v), TabIndex(v));
    SameTablesKeep(ram, own, dirs, StoreMapped(ram, d, v, w));
  }

  lemma StoreMappedAt(ram: Ram, own: map<nat, Use>, dirs: set<nat>, d: nat, v: Word, w: Word, d': nat, i: nat,
                      j: nat, k: nat)
    requires Separated(ram, own, dirs) && d in dirs && v < KERNEL_VIRTUAL_START
    requires Present(Pte(ram.mem, d, DirIndex(v), TabIndex(v)))
    requires d' in dirs && i < KERNEL_PDT_IDX && j < ENTRIES && k < FRAME_WORDS
    ensures UserWord(StoreMapped(ram, d, v, w).mem, d', i, j, k) ==
            if (d', i, j, k) == (d, DirIndex(v), TabIndex(v), Offset(v) / 4) then w else UserWord(ram.mem, d', i, j, k)
    ensures Pde(StoreMapped(ram, d, v, w).mem, d', i) == Pde(ram.mem, d', i)
    ensures Pte(StoreMapped(ram, d, v, w).mem, d', i, j) == Pte(ram.mem, d', i, j)
  {
    hide Present, FrameOf, LargePage, Pde, Pte, DirIndex, TabIndex, Offset, TableApart;
    UserIndices(v);
    StoreMappedKeeps(ram, own, dirs, d, v, w);
    SameTables(ram, own, dirs, StoreMapped(ram, d, v, w).mem, d', i, j);
    assert PageApart(ram.mem, own, d, DirIndex(v), TabIndex(v));
    if Present(Pte(ram.mem, d', i, j)) {
      assert PageApart(ram.mem, own, d', i, j);
    }
  }

  lemma SameAddress(v: Word, a: Word)
    ensures v == a <==>
              && DirIndex(v) == DirIndex(a) && TabIndex(v) == TabIndex(a)
              && Offset(v) / 4 == Offset(a) / 4 && v % 4 == a % 4
  {
    WordParts(v);
    WordParts(a);
  }

  lemma WordParts(v: Word)
    ensures v == DirIndex(v) * 0x40_0000 + TabIndex(v) * 0x1000 + Offset(v) / 4 * 4 + v % 4
  {
    var q, o := v / 0x1000, v % 0x1000;
    InFrame(v);
    InWord(o);
    LowBits(v, 1024 * q, o);
    TablePart(q);
    DirFromPage(v);
  }

  lemma TablePart(q: nat)
    ensures q == q / 0x400 * 0x400 + q % 0x400
  {
  }

  lemma OneByteOfAWord(m: Memory, m': Memory, d: nat, v: Word, b: Byte)
    requires OnlyWord(m, m', d, v, WithByte(WordAt(m, d, v), v % 4, b))
    ensures OnlyByte(m, m', d, v, b)
  {
    hide DirIndex, TabIndex, Offset, UserWord, ByteOf, WithByte;
    forall a: Word {:trigger UserByte(m', d, a)} | 0 <= a < KERNEL_VIRTUAL_START
      ensures UserByte(m', d, a) == if a == v then b else UserByte(m, d, a)
    {
      SameAddress(v, a);
      UserIndices(a);
      WithByteAt(WordAt(m, d, v), v % 4, b, a % 4);
    }
  }

  /** A store, demand-paging its page first if need be, changes one byte of the storing process. No other
      process and no kernel frame changes, and everything stays apart. */
  lemma StoreIsPrivate(ram: Ram, own: map<nat, Use>, dirs: set<nat>, d: nat, v: Word, b: Byte)
    returns (own': map<nat, Use>)
    requires Separated(ram, own, dirs) && d in dirs && v < KERNEL_VIRTUAL_START
    requires PutByte(ram, d, v, b).Goes?
    ensures var ram' := PutByte(ram, d, v, b).result;
            && Separated(ram', own', dirs) && Confined(ram, own, ram', d) && Grown(ram, own, own', d)
            && OnlyByte(ram.mem, ram'.mem, d, v, b)
            && (forall d' :: d' in dirs && d' != d ==> SameWords(ram.mem, ram'.mem, d'))
            && (forall i {:trigger Pde(ram'.mem, d, i)} :: KERNEL_PDT_IDX <= i < ENTRIES ==>
                 Pde(ram'.mem, d, i) == Pde(ram.mem, d, i))
  {
    hide Present, FrameOf, LargePage, Pde, Pte, DirIndex, TabIndex, Offset, Separated, HandleFault, UserWord, Alloc;
    hide Entry, FreeCount, WithByte, OnlyByte;
    UserIndices(v);
    own' := own;
    var r, error := ram, ErrorCode(false, true, true);
    if !Present(Pte(ram.mem, d, DirIndex(v), TabIndex(v))) {
      r := HandleFault(ram, d, v, error).ram;
      own' := FaultIsInvisible(ram, own, dirs, d, v, error);
    }
    var w := WithByte(WordAt(ram.mem, d, v), v % 4, b);
    var ram' := StoreMapped(r, d, v, w);
    assert PutByte(ram, d, v, b) == Goes(ram');
    hide StoreMapped, PutByte;
    StoreMappedKeeps(r, own', dirs, d, v, w);
    StoredOver(ram, own, r, own', ram', d, FrameOf(Pte(r.mem, d, DirIndex(v), TabIndex(v))));
    forall d', i, j, k {:trigger UserWord(ram'.mem, d', i, j, k)} |
      d' in dirs && 0 <= i < KERNEL_PDT_IDX && 0 <= j < ENTRIES && 0 <= k < FRAME_WORDS
      ensures UserWord(ram'.mem, d', i, j, k) ==
              if (d', i, j, k) == (d, DirIndex(v), TabIndex(v), Offset(v) / 4) then w
                else UserWord(ram.mem, d', i, j, k)
    {
      StoreMappedAt(r, own', dirs, d, v, w, d', i, j, k);
    }
    forall i {:trigger Pde(ram'.mem, d, i)} | KERNEL_PDT_IDX <= i < ENTRIES
      ensures Pde(ram'.mem, d, i) == Pde(ram.mem, d, i)
    {
      StoreMappedPde(r, own', dirs, d, v, w, i);
    }
    OneByteOfAWord(ram.mem, ram'.mem, d, v, b);
  }

  lemma StoreMappedPde(ram: Ram, own: map<nat, Use>, dirs: set<nat>, d: nat, v: Word, w: Word, i: nat)
    requires Separated(ram, own, dirs) && d in dirs && v < KERNEL_VIRTUAL_START && i < ENTRIES
    requires Present(Pte(ram.mem, d, DirIndex(v), TabIndex(v)))
    ensures Pde(StoreMapped(ram, d, v, w).mem, d, i) == Pde(ram.mem, d, i)
  {
    hide Present, FrameOf, LargePage, Pte, DirIndex, TabIndex, Offset;
    StoreMappedKeeps(ram, own, dirs, d, v, w);
  }

  lemma StoredOver(ram: Ram, own: map<nat, Use>, r: Ram, own': map<nat, Use>, ram': Ram, d: nat, f: nat)
    requires (r == ram && own' == own) || Advances(ram, own, r, own', d)
    requires f in own' && own'[f].d == d && f < TOTAL_FRAMES && r.used[f]
    requires ram'.used == r.used && DiffersOnlyAt(r.mem, ram'.mem, f)
    ensures Confined(ram, own, ram', d) && Grown(ram, own, own', d)
  {
    LeavesFreeTransitive(ram, r, ram');
    forall g | 0 <= g < TOTAL_FRAMES && ram.used[g]
      ensures ram'.used[g] && ((g in own && own[g].d == d) || ram'.mem[g] == ram.mem[g])
    {
      assert r.used[g];
    }
  }
}

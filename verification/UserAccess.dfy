/** When a user access goes through, and what it reaches: stated on the walk the processor does, in numbers. */
module UserAccess {
  import opened Machine
  import opened Bytes
  import opened FramePool
  import opened PageTables
  import opened Ownership
  import opened AddingPages
  import opened Translation
  import opened DemandPaging
  import opened Processes
  import opened Stores
  import opened Isolation
  import opened Lifecycle
  import opened Runs
  import opened BitmapInMemory
  import opened KernelInMemory
  import opened BitmapShadow
  import opened ShadowSpaces
  import opened ShadowRuns

  // ---- What the processor reaches ----

  /** The byte the processor reads at an address, 0 where the walk faults. */
  function WalkByte(m: Memory, d: nat, v: Word): Byte {
    match HardwareWalk(m, d, v)
    case PageFault => 0
    case Reached(p) => LoadByte(m, p)
  }

  /** The walk in terms of the entries the kernel keeps. */
  lemma WalkIs(ram: Ram, own: map<nat, Use>, dirs: set<nat>, d: nat, v: Word)
    requires Separated(ram, own, dirs) && d in dirs && v < 0xC000_0000
    ensures var pte := Pte(ram.mem, d, DirIndex(v), TabIndex(v));
            HardwareWalk(ram.mem, d, v) ==
            if Present(pte) then Reached(FrameOf(pte) * 0x1000 + v % 0x1000) else PageFault
    ensures Present(Pde(ram.mem, d, DirIndex(v))) <==> ReadWord(ram.mem, d, v / 0x40_0000) % 2 == 1
  {
    UserIndices(v);
    if Present(Pde(ram.mem, d, DirIndex(v))) {
      NoLargePage(ram, own, dirs, d, DirIndex(v));
    }
  }

  lemma NoLargePage(ram: Ram, own: map<nat, Use>, dirs: set<nat>, d: nat, i: nat)
    requires Separated(ram, own, dirs) && d in dirs && i < KERNEL_PDT_IDX && Present(Pde(ram.mem, d, i))
    ensures !LargePage(Pde(ram.mem, d, i))
  {
    hide Present, LargePage, FrameOf, Pde;
    assert TableApart(ram.mem, own, d, i);
  }

  lemma AddressInPage(v: Word)
    ensures v % 0x1000 % 4 == v % 4
  {
    InFrame(v);
    LowBits(v, 1024 * (v / 0x1000), v % 0x1000);
  }

  /** What the theorems say a process reads is what the processor reads for it. */
  lemma UserByteIsWalk(ram: Ram, own: map<nat, Use>, dirs: set<nat>, d: nat, v: Word)
    requires Separated(ram, own, dirs) && d in dirs && v < 0xC000_0000
    ensures UserByte(ram.mem, d, v) == WalkByte(ram.mem, d, v)
  {
    hide Separated, HardwareWalk, Present, FrameOf, Pde, Pte, DirIndex, TabIndex;
    WalkIs(ram, own, dirs, d, v);
    var f := FrameOf(Pte(ram.mem, d, DirIndex(v), TabIndex(v)));
    AddressInPage(v);
    FrameAddress(f, v % 0x1000);
  }

  // ---- A fault ----

  /** The frames a fault at v takes are there: one for the page, and one more if it has no table. */
  predicate FaultHasFrames(ram: Ram, d: nat, v: Word) {
    FreeCount(ram.used) >= 2 || (FreeCount(ram.used) == 1 && ReadWord(ram.mem, d, v / 0x40_0000) % 2 == 1)
  }

  /** After a fault on an absent page the walk reaches the lowest frame that was free, cleared, if the frames are
      there; otherwise it faults again. */
  lemma FaultReaches(ram: Ram, own: map<nat, Use>, dirs: set<nat>, d: nat, v: Word, error: ErrorCode)
    requires Separated(ram, own, dirs) && d in dirs && HardwareWalk(ram.mem, d, v) == PageFault
    requires v < 0xC000_0000 && !error.present && FreeCount(ram.used) > 0
    ensures HandleFault(ram, d, v, error).Resumed?
    ensures var m := HandleFault(ram, d, v, error).ram.mem;
            if FaultHasFrames(ram, d, v) then
              && HardwareWalk(m, d, v) == Reached(LowestFree(ram.used, 0) * 0x1000 + v % 0x1000)
              && WalkByte(m, d, v) == 0
            else HardwareWalk(m, d, v) == PageFault
  {
    hide Separated, HardwareWalk, Present, FrameOf, Pde, Pte, DirIndex, TabIndex, HandleFault, FreeCount, Alloc, Entry;
    hide UserWord, LoadByte, UserByte, Advances;
    SeparatedFrames(ram, own, dirs, 0);
    HandlesIff(ram, d, v, error);
    WalkIs(ram, own, dirs, d, v);
    var own' := FaultIsInvisible(ram, own, dirs, d, v, error);
    var r := HandleFault(ram, d, v, error).ram;
    WalkIs(r, own', dirs, d, v);
    UserIndices(v);
    UserByteIsWalk(r, own', dirs, d, v);
    UserByteIsWalk(ram, own, dirs, d, v);
    SameByteAfterFault(ram.mem, r.mem, dirs, d, v);
    LowestIs(ram.used);
    TableEntry(Alloc(ram.used).0);
  }

  lemma LowestIs(used: Used)
    requires used[0] && FreeCount(used) > 0
    ensures Alloc(used).0 == LowestFree(used, 0) && 0 < Alloc(used).0 < TOTAL_FRAMES
  {
    hide FreeCount;
    AllocTakesLowest(used);
  }

  lemma SameByteAfterFault(m: Memory, m': Memory, dirs: set<nat>, d: nat, v: Word)
    requires d in dirs && v < 0xC000_0000
    requires forall d', i, j, k {:trigger UserWord(m', d', i, j, k)} ::
               d' in dirs && 0 <= i < KERNEL_PDT_IDX && 0 <= j < ENTRIES && 0 <= k < FRAME_WORDS ==>
                 UserWord(m', d', i, j, k) == UserWord(m, d', i, j, k)
    ensures UserByte(m', d, v) == UserByte(m, d, v)
  {
    hide UserWord, DirIndex, TabIndex, Offset, ByteOf;
    UserIndices(v);
  }

  // ---- A store ----

  /** An access goes through exactly when its page is there, or the frames a fault takes are. */
  lemma TouchGoesIff(ram: Ram, own: map<nat, Use>, dirs: set<nat>, d: nat, v: Word)
    requires Separated(ram, own, dirs) && d in dirs && v < 0xC000_0000
    ensures Touch(ram, d, v).Goes? <==> HardwareWalk(ram.mem, d, v).Reached? || FaultHasFrames(ram, d, v)
  {
    hide Separated, HardwareWalk, Present, FrameOf, Pde, Pte, DirIndex, TabIndex, HandleFault, FreeCount, Alloc, Entry;
    hide UserWord, WalkByte, Advances;
    SeparatedFrames(ram, own, dirs, 0);
    WalkIs(ram, own, dirs, d, v);
    var error := ErrorCode(false, true, true);
    HandlesIff(ram, d, v, error);
    if HardwareWalk(ram.mem, d, v) == PageFault && FreeCount(ram.used) > 0 {
      FaultReaches(ram, own, dirs, d, v, error);
      var own' := FaultIsInvisible(ram, own, dirs, d, v, error);
      WalkIs(HandleFault(ram, d, v, error).ram, own', dirs, d, v);
    }
  }

  lemma PutByteGoesIff(ram: Ram, own: map<nat, Use>, dirs: set<nat>, d: nat, v: Word, b: Byte)
    requires Separated(ram, own, dirs) && d in dirs && v < 0xC000_0000
    ensures PutByte(ram, d, v, b).Goes? <==> HardwareWalk(ram.mem, d, v).Reached? || FaultHasFrames(ram, d, v)
  {
    hide Separated, HardwareWalk, Touch, FaultHasFrames, StoreMapped, WithByte, WordAt;
    TouchGoesIff(ram, own, dirs, d, v);
  }

  // ---- Steps ----

  lemma CurrentSpace(k: Kernel, own: map<nat, Use>, reserved: nat, q: seq<nat>)
    requires Consistent(k, own, reserved, q) && k.current != NONE
    ensures Separated(k.ram, own, LiveDirs(k.table)) && DirOf(k.table[k.current]) in LiveDirs(k.table)
    ensures k.ram.used[0]
  {
    hide ReadyList, Pids, Childless, Isolated, LiveDirs, Separated;
    CurrentIsLive(k, q);
    LiveDirOwned(k, own, reserved, k.current);
    IsolatedSeparated(k, own, reserved);
    SeparatedFrames(k.ram, own, LiveDirs(k.table), 0);
  }

  /** A user store goes through if and only if it is below the kernel's half and its page is there, or one frame is
      free and the page's table is there, or two frames are free. */
  lemma StoreGoesIff(k: Kernel, own: map<nat, Use>, reserved: nat, q: seq<nat>, v: Word, b: Byte)
    requires Consistent(k, own, reserved, q) && k.current != NONE
    ensures var d, free := DirOf(k.table[k.current]), FreeCount(k.ram.used);
            Step(k, Store(v, b)).Goes? <==>
            v < 0xC000_0000 && (|| HardwareWalk(k.ram.mem, d, v).Reached?
                                || (free == 1 && ReadWord(k.ram.mem, d, v / 0x40_0000) % 2 == 1)
                                || free >= 2)
  {
    hide Consistent, Separated, HardwareWalk, PutByte, FreeCount, LiveDirs;
    CurrentSpace(k, own, reserved, q);
    if v < 0xC000_0000 {
      PutByteGoesIff(k.ram, own, LiveDirs(k.table), DirOf(k.table[k.current]), v, b);
    }
  }

  /** Then the processor reads the byte back at that address. */
  lemma StoreReadsBack(k: Kernel, own: map<nat, Use>, reserved: nat, q: seq<nat>, v: Word, b: Byte)
    requires Consistent(k, own, reserved, q) && k.current != NONE && Step(k, Store(v, b)).Goes?
    ensures var d, m := DirOf(k.table[k.current]), Step(k, Store(v, b)).result.ram.mem;
            HardwareWalk(m, d, v).Reached? && WalkByte(m, d, v) == b
  {
    hide Consistent, Separated, HardwareWalk, PutByte, LiveDirs, Confined, Grown, UserByte, SameWords, LoadByte;
    CurrentSpace(k, own, reserved, q);
    var d, dirs := DirOf(k.table[k.current]), LiveDirs(k.table);
    var own' := StoreIsPrivate(k.ram, own, dirs, d, v, b);
    var r := PutByte(k.ram, d, v, b).result;
    UserByteIsWalk(r, own', dirs, d, v);
    StoredPageIsThere(k.ram, own, dirs, d, v, b);
    WalkIs(r, own', dirs, d, v);
  }

  lemma StoredPageIsThere(ram: Ram, own: map<nat, Use>, dirs: set<nat>, d: nat, v: Word, b: Byte)
    requires Separated(ram, own, dirs) && d in dirs && v < 0xC000_0000 && PutByte(ram, d, v, b).Goes?
    ensures Present(Pte(PutByte(ram, d, v, b).result.mem, d, DirIndex(v), TabIndex(v)))
  {
    hide Present, FrameOf, Pte, Pde, DirIndex, TabIndex, Offset, Separated, HandleFault, UserWord, Alloc, Entry;
    hide FreeCount, WithByte, WordAt, StoreMapped, Advances;
    UserIndices(v);
    var r := Touch(ram, d, v).result;
    var own' := own;
    if !Present(Pte(ram.mem, d, DirIndex(v), TabIndex(v))) {
      own' := FaultIsInvisible(ram, own, dirs, d, v, ErrorCode(false, true, true));
    }
    StoreMappedAt(r, own', dirs, d, v, WithByte(WordAt(r.mem, d, v), v % 4, b), d, DirIndex(v), TabIndex(v), 0);
  }

  /** A fault is handled if and only if it is below the kernel's half, on a page that is not there, and a frame is
      free. */
  lemma FaultGoesIff(k: Kernel, own: map<nat, Use>, reserved: nat, q: seq<nat>, v: Word, write: bool, user: bool)
    requires Consistent(k, own, reserved, q) && k.current != NONE
    ensures Step(k, Fault(v, write, user)).Goes? <==>
              && v < 0xC000_0000 && FreeCount(k.ram.used) > 0
              && HardwareWalk(k.ram.mem, DirOf(k.table[k.current]), v) == PageFault
  {
    hide Consistent, Separated, HardwareWalk, HandleFault, FreeCount, LiveDirs, Present, Pte, Pde, DirIndex, TabIndex;
    CurrentSpace(k, own, reserved, q);
    var d := DirOf(k.table[k.current]);
    var error := ErrorCode(Present(Pte(k.ram.mem, d, DirIndex(v), TabIndex(v))), write, user);
    HandlesIff(k.ram, d, v, error);
    if v < 0xC000_0000 {
      WalkIs(k.ram, own, LiveDirs(k.table), d, v);
    }
  }

  /** Then the walk reaches the lowest frame that was free, cleared, if there is a frame for the page's table too;
      otherwise it faults again. */
  lemma FaultBringsThePage(k: Kernel, own: map<nat, Use>, reserved: nat, q: seq<nat>, v: Word, write: bool, user: bool)
    requires Consistent(k, own, reserved, q) && Step(k, Fault(v, write, user)).Goes?
    ensures k.current != NONE
    ensures var d, m := DirOf(k.table[k.current]), Step(k, Fault(v, write, user)).result.ram.mem;
            if FaultHasFrames(k.ram, d, v) then
              && HardwareWalk(m, d, v) == Reached(LowestFree(k.ram.used, 0) * 0x1000 + v % 0x1000)
              && WalkByte(m, d, v) == 0
            else HardwareWalk(m, d, v) == PageFault
  {
    hide Consistent, Separated, HardwareWalk, HandleFault, FreeCount, LiveDirs, Present, Pte, Pde, DirIndex, TabIndex;
    hide WalkByte, FaultHasFrames;
    CurrentSpace(k, own, reserved, q);
    FaultGoesIff(k, own, reserved, q, v, write, user);
    var d := DirOf(k.table[k.current]);
    var error := ErrorCode(Present(Pte(k.ram.mem, d, DirIndex(v), TabIndex(v))), write, user);
    HandlesIff(k.ram, d, v, error);
    FaultReaches(k.ram, own, LiveDirs(k.table), d, v, error);
  }

  // ---- The status sys_wait stores ----

  lemma WordInPage(v: Word, k: nat)
    requires k < 4 && v % 0x1000 <= 0xFFC && v < 0xC000_0000
    ensures v + k < 0xC000_0000 && DirIndex(v + k) == DirIndex(v) && TabIndex(v + k) == TabIndex(v)
  {
    InFrame(v);
    FrameParts(v + k, v / 0x1000, v % 0x1000 + k);
    DirFromPage(v);
    DirFromPage(v + k);
  }

  /** On a page that is there the rest of the word goes through. */
  lemma {:induction false} PutWordGoes(ram: Ram, own: map<nat, Use>, dirs: set<nat>, d: nat, v: Word, w: Word, k: nat)
    requires Separated(ram, own, dirs) && d in dirs && v < 0xC000_0000 && v % 0x1000 <= 0xFFC && k <= 4
    requires Present(Pte(ram.mem, d, DirIndex(v), TabIndex(v)))
    ensures PutWord(ram, d, v, w, k).Goes?
    decreases 4 - k
  {
    hide Present, Pte, Pde, DirIndex, TabIndex, Separated, ByteOf, PutByte, Confined, Grown, OnlyByte, SameWords;
    if k < 4 {
      WordInPage(v, k);
      PutByteOnPage(ram, d, v + k, ByteOf(w, k));
      StoredPageIsThere(ram, own, dirs, d, v + k, ByteOf(w, k));
      var own' := StoreIsPrivate(ram, own, dirs, d, v + k, ByteOf(w, k));
      PutWordGoes(PutByte(ram, d, v + k, ByteOf(w, k)).result, own', dirs, d, v, w, k + 1);
    }
  }

  lemma PutByteOnPage(ram: Ram, d: nat, v: Word, b: Byte)
    requires Present(Pte(ram.mem, d, DirIndex(v), TabIndex(v)))
    ensures PutByte(ram, d, v, b).Goes?
  {
    hide Present, Pte, DirIndex, TabIndex, StoreMapped, WithByte, WordAt;
  }

  /** A word inside one page is stored exactly when that page is there, or the frames a fault takes are. */
  lemma PutWordGoesIff(ram: Ram, own: map<nat, Use>, dirs: set<nat>, d: nat, v: Word, w: Word)
    requires Separated(ram, own, dirs) && d in dirs && v < 0xC000_0000 && v % 0x1000 <= 0xFFC
    ensures PutWord(ram, d, v, w, 0).Goes? <==> HardwareWalk(ram.mem, d, v).Reached? || FaultHasFrames(ram, d, v)
  {
    hide Present, Pte, Pde, DirIndex, TabIndex, Separated, ByteOf, PutByte, Confined, Grown, OnlyByte, SameWords;
    hide FaultHasFrames, HardwareWalk;
    var b := ByteOf(w, 0);
    PutByteGoesIff(ram, own, dirs, d, v, b);
    if PutByte(ram, d, v, b).Goes? {
      StoredPageIsThere(ram, own, dirs, d, v, b);
      var own' := StoreIsPrivate(ram, own, dirs, d, v, b);
      PutWordGoes(PutByte(ram, d, v, b).result, own', dirs, d, v, w, 1);
    }
  }

  /** Bytes k to 3 of the word are stored, and nothing else that any process reads. */
  ghost predicate WordStored(m: Memory, m': Memory, dirs: set<nat>, d: nat, v: Word, w: Word, k: nat) {
    && (forall a {:trigger UserByte(m', d, a)} | 0 <= a < 0xC000_0000 ::
          UserByte(m', d, a) == if v + k <= a < v + 4 then ByteOf(w, a - v) else UserByte(m, d, a))
    && (forall d', a {:trigger UserByte(m', d', a)} | d' in dirs && d' != d && 0 <= a < 0xC000_0000 ::
          UserByte(m', d', a) == UserByte(m, d', a))
  }

  lemma SameWordsSameBytes(m: Memory, m': Memory, d: nat)
    requires SameWords(m, m', d)
    ensures forall a {:trigger UserByte(m', d, a)} | 0 <= a < 0xC000_0000 :: UserByte(m', d, a) == UserByte(m, d, a)
  {
    hide UserWord, DirIndex, TabIndex, Offset, ByteOf;
    forall a: Word {:trigger UserByte(m', d, a)} | 0 <= a < 0xC000_0000
      ensures UserByte(m', d, a) == UserByte(m, d, a)
    {
      UserIndices(a);
    }
  }

  lemma {:induction false} PutWordStores(ram: Ram, own: map<nat, Use>, dirs: set<nat>, d: nat, v: Word, w: Word, k: nat)
    requires Separated(ram, own, dirs) && d in dirs && v + 4 <= 0xC000_0000 && k <= 4 && PutWord(ram, d, v, w, k).Goes?
    ensures WordStored(ram.mem, PutWord(ram, d, v, w, k).result.mem, dirs, d, v, w, k)
    decreases 4 - k
  {
    hide Separated, ByteOf, PutByte, Confined, Grown, SameWords, UserByte;
    if k < 4 {
      var r := PutByte(ram, d, v + k, ByteOf(w, k)).result;
      var own' := StoreIsPrivate(ram, own, dirs, d, v + k, ByteOf(w, k));
      PutWordStores(r, own', dirs, d, v, w, k + 1);
      forall d' | d' in dirs && d' != d
        ensures forall a {:trigger UserByte(r.mem, d', a)} | 0 <= a < 0xC000_0000 ::
                  UserByte(r.mem, d', a) == UserByte(ram.mem, d', a)
      {
        SameWordsSameBytes(ram.mem, r.mem, d');
      }
    }
  }

  /** sys_wait with a terminated child, in any state: with a null pointer it always returns, and memory stays as it is.
      With a pointer to a word inside a page it returns exactly when that page is there or the frames a fault takes
      are, and then the child's status is there, and no other byte that any process reads has changed. */
  lemma WaitStoresTheStatus(k: Kernel, own: map<nat, Use>, reserved: nat, status: Word)
    requires Isolated(k, own, reserved) && k.current != NONE && CurrentLive(k)
    requires FirstZombie(k.table, k.table[k.current].pid, 0) < MAX_PROCESSES
    ensures status == 0 ==> Wait(k, status).Goes? && Wait(k, status).result.0.ram == k.ram
    ensures status != 0 && status < 0xC000_0000 && status % 0x1000 <= 0xFFC ==>
              var d, child := DirOf(k.table[k.current]), FirstZombie(k.table, k.table[k.current].pid, 0);
              && (Wait(k, status).Goes? <==>
                   HardwareWalk(k.ram.mem, d, status).Reached? || FaultHasFrames(k.ram, d, status))
              && (Wait(k, status).Goes? ==>
                    WordStored(k.ram.mem, Wait(k, status).result.0.ram.mem, LiveDirs(k.table), d, status,
                               k.table[child].ctx.reg.eax, 0))
  {
    hide Isolated, Separated, LiveDirs, PutWord, WordStored, HardwareWalk, FaultHasFrames, FirstZombie;
    LiveDirOwned(k, own, reserved, k.current);
    IsolatedSeparated(k, own, reserved);
    var d, child := DirOf(k.table[k.current]), FirstZombie(k.table, k.table[k.current].pid, 0);
    if status != 0 && status < 0xC000_0000 && status % 0x1000 <= 0xFFC {
      WordInPage(status, 3);
      PutWordGoesIff(k.ram, own, LiveDirs(k.table), d, status, k.table[child].ctx.reg.eax);
      if Wait(k, status).Goes? {
        PutWordStores(k.ram, own, LiveDirs(k.table), d, status, k.table[child].ctx.reg.eax, 0);
      }
    }
  }

  // ---- With the bitmap in memory ----

  lemma SpareCounts(used: Used)
    requires Spare(used)
    ensures FreeCount(used) >= 2
  {
    hide FreeCount;
    var f, g :| 0 <= f < g < COVERED && !used[f] && !used[g];
    TwoFree(used, f, g);
  }

  lemma TwoFree(used: Used, f: nat, g: nat)
    requires f < g < TOTAL_FRAMES && !used[f] && !used[g]
    ensures FreeCount(used) >= 2
  {
    hide FreeFrom;
    TakeOne(used, f, 0);
    TakeOne(used[f := true], g, 0);
  }

  lemma SameWalk(k1: Kernel, base: nat, kept: nat, k2: Kernel, own: map<nat, Use>, reserved: nat, q: seq<nat>, v: Word)
    requires Shadowed(k1, base, kept, k2) && Consistent(k2, own, reserved, q) && base < reserved && k2.current != NONE
    requires v < 0xC000_0000
    ensures var d := DirOf(k2.table[k2.current]);
            HardwareWalk(k1.ram.mem, d, v) == HardwareWalk(k2.ram.mem, d, v)
  {
    hide Consistent, Separated, Shadows, LiveDirs;
    CurrentSpace(k2, own, reserved, q);
    var d := DirOf(k2.table[k2.current]);
    UserIndices(v);
    ConsistentIsolated(k2, own, reserved, q);
    NobodysBitmap(k2, own, reserved, base);
    PteShadow(k1.ram.mem, base, kept, k2.ram, own, LiveDirs(k2.table), d, DirIndex(v), TabIndex(v));
    if Present(Pde(k2.ram.mem, d, DirIndex(v))) {
      TableReads(k1.ram.mem, base, kept, k2.ram, own, LiveDirs(k2.table), d, DirIndex(v), TabIndex(v));
    }
  }

  lemma TableReads(m: Memory, base: nat, kept: nat, ram: Ram, own: map<nat, Use>, dirs: set<nat>, d: nat, i: nat,
                   j: nat)
    requires Shadowing(m, base, kept, ram, own, dirs) && d in dirs && i < KERNEL_PDT_IDX && j < ENTRIES
    requires Present(Pde(ram.mem, d, i))
    ensures ReadWord(m, FrameOf(Pde(ram.mem, d, i)), j) == ReadWord(ram.mem, FrameOf(Pde(ram.mem, d, i)), j)
  {
    hide Present, FrameOf, Pde, Agrees, TableApart;
    Ownership.TableOf(ram, own, dirs, d, i);
    SameReads(ram.mem, m, base, FrameOf(Pde(ram.mem, d, i)), j);
  }

  /** With the bitmap in memory, while two frames are free whose bits lie in the reserved frame, every store below the
      kernel's half goes through, and every fault there on a page that is not there is handled. */
  lemma AccessesGoInMemory(k1: Kernel, base: nat, kept: nat, k2: Kernel, own: map<nat, Use>, reserved: nat, q: seq<nat>,
                           v: Word, b: Byte, write: bool, user: bool)
    requires Shadowed(k1, base, kept, k2) && Consistent(k2, own, reserved, q) && base < reserved
    requires Spare(k2.ram.used) && k2.current != NONE && k2.nextPid < 0xFFFF_FFFF
    ensures StepIn(k1, base, Store(v, b)).Goes? <==> v < 0xC000_0000
    ensures StepIn(k1, base, Fault(v, write, user)).Goes? <==>
              v < 0xC000_0000 && HardwareWalk(k1.ram.mem, DirOf(k1.table[k1.current]), v) == PageFault
  {
    hide Consistent, Separated, HardwareWalk, Step, StepIn, FreeCount, Shadows, Spare;
    SpareCounts(k2.ram.used);
    StoreGoesIff(k2, own, reserved, q, v, b);
    FaultGoesIff(k2, own, reserved, q, v, write, user);
    MemoryShadow(k1, base, kept, k2, own, reserved, q, Store(v, b));
    MemoryShadow(k1, base, kept, k2, own, reserved, q, Fault(v, write, user));
    if v < 0xC000_0000 {
      SameWalk(k1, base, kept, k2, own, reserved, q, v);
    }
  }
}

/** Where the bitmap really is. init_page_frame_allocator places one 32-bit word for every 8 frames in
    memory after the kernel, but clears and reserves only one frame for them. The words for frames from
    8192 on therefore lie in frames that are handed out themselves. */
module BitmapInMemory {
  import opened Machine
  import opened FramePool

  const COVERED := 8192 // frames whose bits lie in the one frame that is reserved

  // Bits of a number, counted from the low end.
  function Half(x: nat): nat { x / 2 }
  function Low(x: nat): nat { x % 2 }

  lemma Halves(q: nat, r: nat)
    requires r < 2
    ensures Half(2 * q + r) == q && Low(2 * q + r) == r
  {
  }

  lemma HalfOf(x: nat)
    ensures x == 2 * Half(x) + Low(x) && Low(x) < 2
  {
  }

  predicate TestLow(x: nat, b: nat) {
    if b == 0 then Low(x) == 1 else TestLow(Half(x), b - 1)
  }

  function SetLow(x: nat, b: nat): nat {
    if b == 0 then 2 * Half(x) + 1 else 2 * SetLow(Half(x), b - 1) + Low(x)
  }

  lemma {:induction false} SetLowAt(x: nat, b: nat, c: nat)
    ensures TestLow(SetLow(x, b), c) <==> c == b || TestLow(x, c)
  {
    hide Half, Low;
    HalfOf(x);
    if b == 0 {
      Halves(Half(x), 1);
    } else {
      Halves(SetLow(Half(x), b - 1), Low(x));
      if c > 0 {
        SetLowAt(Half(x), b - 1, c - 1);
      }
    }
  }

  function Pow2(n: nat): nat {
    if n == 0 then 1 else 2 * Pow2(n - 1)
  }

  lemma {:induction false} SetLowBound(x: nat, b: nat, n: nat)
    requires b < n && x < Pow2(n)
    ensures SetLow(x, b) < Pow2(n)
  {
    hide Half, Low;
    HalfOf(x);
    var p := Pow2(n - 1);
    assert Pow2(n) == 2 * p;
    hide Pow2;
    HalfBelow(Half(x), Low(x), p);
    if b > 0 {
      SetLowBound(Half(x), b - 1, n - 1);
      HalfAbove(SetLow(Half(x), b - 1), Low(x), p);
    } else {
      HalfAbove(Half(x), 1, p);
    }
  }

  lemma HalfBelow(h: nat, l: nat, p: nat)
    requires 2 * h + l < 2 * p
    ensures h < p
  {
  }

  lemma HalfAbove(h: nat, l: nat, p: nat)
    requires h < p && l < 2
    ensures 2 * h + l < 2 * p
  {
  }

  // Only the low 8 bits of a bitmap word are used.
  predicate BitSet(w: Word, b: nat)
    requires b < 8
  {
    TestLow(w % 0x100, b)
  }

  function WithBit(w: Word, b: nat): Word
    requires b < 8
  {
    LowByte(w, b);
    w - w % 0x100 + SetLow(w % 0x100, b)
  }

  lemma LowByte(w: Word, b: nat)
    requires b < 8
    ensures SetLow(w % 0x100, b) < 0x100
    ensures w - w % 0x100 + 0x100 <= 0x1_0000_0000
  {
    assert Pow2(2) == 4 && Pow2(4) == 16 && Pow2(6) == 64 && Pow2(8) == 0x100;
    SetLowBound(w % 0x100, b, 8);
  }

  lemma WithBitAt(w: Word, b: nat, c: nat)
    requires b < 8 && c < 8
    ensures BitSet(WithBit(w, b), c) <==> c == b || BitSet(w, c)
  {
    LowByte(w, b);
    SetLowAt(w % 0x100, b, c);
    assert WithBit(w, b) % 0x100 == SetLow(w % 0x100, b);
  }

  /** Frame and word of the bit for frame f, with the bitmap at frame base. */
  function BitFrame(base: nat, f: nat): nat { base + f / COVERED }
  function BitWord(f: nat): nat { f / 8 % FRAME_WORDS }

  /** The word for frame f is number f / 8 from the start of the bitmap on. */
  lemma BitAddress(base: nat, f: nat)
    ensures BitFrame(base, f) * 0x1000 + BitWord(f) * 4 == base * 0x1000 + f / 8 * 4
  {
    EighthOf(f / 8);
    assert f / 8 / 1024 == f / 8192;
  }

  lemma EighthOf(n: nat)
    ensures n == n / 1024 * 1024 + n % 1024
  {
  }

  function BitValue(b: nat): nat
    requires b < 8
  {
    [1, 2, 4, 8, 16, 32, 64, 128][b]
  }

  lemma HalveFirst(x: nat, b: nat)
    requires 0 < b < 8
    ensures x / 2 / BitValue(b - 1) == x / BitValue(b)
  {
    assert x / 2 / 2 == x / 4 && x / 2 / 4 == x / 8 && x / 2 / 8 == x / 16;
    assert x / 2 / 16 == x / 32 && x / 2 / 32 == x / 64 && x / 2 / 64 == x / 128;
  }

  lemma {:induction false} TestLowIff(x: nat, b: nat)
    requires b < 8
    ensures TestLow(x, b) <==> x / BitValue(b) % 2 == 1
  {
    hide BitValue;
    if b == 0 {
      assert BitValue(0) == 1 by { FirstBit(); }
    } else {
      TestLowIff(x / 2, b - 1);
      HalveFirst(x, b);
    }
  }

  lemma FirstBit()
    ensures BitValue(0) == 1
  {
  }

  /** Bit b of a word, in numbers; only the low eight are used. */
  lemma BitSetIff(w: Word, b: nat)
    requires b < 8
    ensures BitSet(w, b) <==> w % 0x100 / [1, 2, 4, 8, 16, 32, 64, 128][b] % 2 == 1
  {
    TestLowIff(w % 0x100, b);
  }

  predicate Taken(m: Memory, base: nat, f: nat) {
    BitSet(ReadWord(m, BitFrame(base, f), BitWord(f)), f % 8)
  }

  function FirstClear(m: Memory, base: nat, i: nat): (r: nat)
    requires i <= TOTAL_FRAMES
    ensures i <= r <= TOTAL_FRAMES
    ensures forall k :: i <= k < r ==> Taken(m, base, k)
    ensures r < TOTAL_FRAMES ==> !Taken(m, base, r)
    decreases TOTAL_FRAMES - i
  {
    if i == TOTAL_FRAMES || !Taken(m, base, i) then i else FirstClear(m, base, i + 1)
  }

  function SetBitIn(m: Memory, base: nat, f: nat): Memory {
    var g, k := BitFrame(base, f), BitWord(f);
    WriteWord(m, g, k, WithBit(ReadWord(m, g, k), f % 8))
  }

  /** alloc_frame on the bitmap in memory. */
  function AllocInMemory(m: Memory, base: nat): (r: (nat, Memory))
    ensures r.0 < TOTAL_FRAMES
  {
    var f := FirstClear(m, base, 0);
    if f == TOTAL_FRAMES then (0, m) else (f, SetBitIn(m, base, f))
  }

  /** init_page_frame_allocator: one frame is cleared, then the bits of the first n frames are set. */
  function MarkedBitmap(m: Memory, base: nat, n: nat): Memory {
    if n == 0 then WriteFrame(m, base, ZeroFrame()) else SetBitIn(MarkedBitmap(m, base, n - 1), base, n - 1)
  }

  /** alloc_frame leaves everything outside its reserved frame alone if and only if a covered frame is free,
      or no bit at all reads as clear. */
  lemma AllocStaysInItsFrameIff(m: Memory, base: nat)
    requires base + TOTAL_FRAMES / COVERED <= TOTAL_FRAMES
    ensures (forall g :: 0 <= g < TOTAL_FRAMES && g != base ==> AllocInMemory(m, base).1[g] == m[g])
            <==> (exists f :: 0 <= f < COVERED && !Taken(m, base, f)) || forall f :: 0 <= f < TOTAL_FRAMES ==>
              Taken(m, base, f)
  {
    hide BitSet;
    var f, m' := FirstClear(m, base, 0), AllocInMemory(m, base).1;
    if COVERED <= f < TOTAL_FRAMES {
      var g, k := BitFrame(base, f), BitWord(f);
      WithBitDiffers(ReadWord(m, g, k), f % 8);
      assert m'[g][k] != m[g][k];
      assert g != base;
    }
  }

  lemma WithBitDiffers(w: Word, b: nat)
    requires b < 8 && !BitSet(w, b)
    ensures WithBit(w, b) != w
  {
    WithBitAt(w, b, b);
  }

  /** The frame after the reserved one holds the directory of the first process, as it is the first to be handed
      out. While that has no user table for the lowest addresses, its first entry is even. Once every covered frame
      is taken, alloc_frame makes that entry odd: the directory then has a present entry more. */
  lemma OverrunExample(m: Memory, base: nat)
    requires base + TOTAL_FRAMES / COVERED <= TOTAL_FRAMES
    requires forall f :: 0 <= f < COVERED ==> Taken(m, base, f)
    requires m[base + 1][0] % 2 == 0
    ensures AllocInMemory(m, base).0 == COVERED
    ensures AllocInMemory(m, base).1[base + 1][0] == m[base + 1][0] + 1
  {
    assert BitFrame(base, COVERED) == base + 1 && BitWord(COVERED) == 0 && COVERED % 8 == 0;
    EvenWord(m[base + 1][0]);
    assert !Taken(m, base, COVERED);
    hide BitSet, WithBit;
    assert FirstClear(m, base, 0) == COVERED;
  }

  lemma EvenWord(w: Word)
    requires w % 2 == 0
    ensures !BitSet(w, 0) && WithBit(w, 0) == w + 1
  {
    var q, r := w / 0x100, w % 0x100;
    assert w == 0x100 * q + r;
    assert r % 2 == 0;
  }

  // ---- While a covered frame is free, the bitmap in memory is the pool ----

  ghost predicate Agrees(m: Memory, base: nat, used: Used) {
    forall f :: 0 <= f < COVERED ==> (Taken(m, base, f) <==> used[f])
  }

  lemma AllocAgrees(m: Memory, base: nat, used: Used, g: nat)
    requires base < TOTAL_FRAMES && Agrees(m, base, used) && g < COVERED
    requires exists f :: 0 <= f < COVERED && !used[f]
    ensures AllocInMemory(m, base).0 == Alloc(used).0 < COVERED
    ensures Taken(AllocInMemory(m, base).1, base, g) <==> Alloc(used).1[g]
  {
    hide BitSet, WithBit;
    FirstIsLowest(m, base, used);
    var f := FirstClear(m, base, 0);
    hide FirstClear, LowestFree;
    assert BitFrame(base, f) == base && BitFrame(base, g) == base;
    SamePlace(f, g);
    WithBitAt(ReadWord(m, base, BitWord(f)), f % 8, g % 8);
    hide BitFrame, BitWord;
  }

  lemma FirstIsLowest(m: Memory, base: nat, used: Used)
    requires Agrees(m, base, used) && exists f :: 0 <= f < COVERED && !used[f]
    ensures FirstClear(m, base, 0) == LowestFree(used, 0) < COVERED
  {
    hide Taken;
    var f :| 0 <= f < COVERED && !used[f];
    assert !Taken(m, base, f);
  }

  lemma SamePlace(f: nat, g: nat)
    requires f < COVERED && g < COVERED
    ensures f == g <==> BitWord(f) == BitWord(g) && f % 8 == g % 8
    ensures BitFrame(0, f) == 0 && BitWord(f) < FRAME_WORDS
  {
  }

  /** While a covered frame is free, alloc_frame returns the pool's lowest free frame, and afterwards the bits in
      memory say what the pool says. */
  lemma MemoryBitmapIsThePool(m: Memory, base: nat, used: Used)
    requires base < TOTAL_FRAMES && Agrees(m, base, used)
    requires exists f :: 0 <= f < COVERED && !used[f]
    ensures AllocInMemory(m, base).0 == Alloc(used).0 && Agrees(AllocInMemory(m, base).1, base, Alloc(used).1)
  {
    hide AllocInMemory, Taken, Alloc;
    AllocAgrees(m, base, used, 0);
    forall g | 0 <= g < COVERED
      ensures Taken(AllocInMemory(m, base).1, base, g) <==> Alloc(used).1[g]
    {
      AllocAgrees(m, base, used, g);
    }
  }

  // ---- Whole runs ----

  /** An allocation, or anything else that happens to memory: a frame gets other contents. */
  datatype Event = Allocation | Write(g: nat, contents: Frame)

  /** The frames handed out, and memory afterwards, with the bitmap in memory. */
  function RunInMemory(m: Memory, base: nat, events: seq<Event>): (seq<nat>, Memory)
    decreases |events|
  {
    if events == [] then ([], m)
    else
      match events[0]
      case Allocation =>
        var (f, m1) := AllocInMemory(m, base);
        var (rest, m') := RunInMemory(m1, base, events[1..]);
        ([f] + rest, m')
      case Write(g, contents) => RunInMemory(WriteFrame(m, g, contents), base, events[1..])
  }

  /** The same with the pool, which writes do not reach. */
  function RunOnPool(used: Used, events: seq<Event>): (seq<nat>, Used)
    decreases |events|
  {
    if events == [] then ([], used)
    else
      match events[0]
      case Allocation =>
        var (f, used1) := Alloc(used);
        var (rest, used') := RunOnPool(used1, events[1..]);
        ([f] + rest, used')
      case Write(_, _) => RunOnPool(used, events[1..])
  }

  ghost predicate CoveredFree(used: Used) {
    exists f :: 0 <= f < COVERED && !used[f]
  }

  /** Every allocation finds a covered frame free, and nobody else writes to the frame reserved for the bitmap. */
  ghost predicate StaysCovered(used: Used, base: nat, events: seq<Event>)
    decreases |events|
  {
    events == [] ||
    match events[0]
    case Allocation => CoveredFree(used) && StaysCovered(Alloc(used).1, base, events[1..])
    case Write(g, _) => g != base && StaysCovered(used, base, events[1..])
  }

  lemma WriteAgrees(m: Memory, base: nat, used: Used, g: nat, contents: Frame)
    requires base < TOTAL_FRAMES && Agrees(m, base, used) && g != base
    ensures Agrees(WriteFrame(m, g, contents), base, used)
  {
    hide BitSet;
    forall f | 0 <= f < COVERED
      ensures Taken(WriteFrame(m, g, contents), base, f) == Taken(m, base, f)
    {
      SamePlace(f, f);
      assert BitFrame(base, f) == base;
    }
  }

  /** Then, over any run, both hand out the same frames, and the bits in memory still say what the pool says. */
  lemma {:induction false} MemoryBitmapRunsLikeThePool(m: Memory, base: nat, used: Used, events: seq<Event>)
    requires base < TOTAL_FRAMES && Agrees(m, base, used) && StaysCovered(used, base, events)
    ensures var ((inMemory, m'), (onPool, used')) := (RunInMemory(m, base, events), RunOnPool(used, events));
            inMemory == onPool && Agrees(m', base, used')
    decreases |events|
  {
    hide AllocInMemory, Agrees, Alloc;
    if events != [] {
      match events[0]
      case Allocation =>
        MemoryBitmapIsThePool(m, base, used);
        MemoryBitmapRunsLikeThePool(AllocInMemory(m, base).1, base, Alloc(used).1, events[1..]);
      case Write(g, contents) =>
        WriteAgrees(m, base, used, g, contents);
        MemoryBitmapRunsLikeThePool(WriteFrame(m, g, contents), base, used, events[1..]);
    }
  }

  // ---- From boot ----

  lemma {:induction false} NoBitInZero(b: nat)
    ensures !TestLow(0, b)
  {
    if b > 0 {
      NoBitInZero(b - 1);
    }
  }

  lemma SetBitAt(m: Memory, base: nat, f: nat, g: nat)
    requires base < TOTAL_FRAMES && f < COVERED && g < COVERED
    ensures Taken(SetBitIn(m, base, f), base, g) <==> g == f || Taken(m, base, g)
    ensures forall h :: 0 <= h < TOTAL_FRAMES && h != base ==> SetBitIn(m, base, f)[h] == m[h]
  {
    hide BitSet, WithBit;
    assert BitFrame(base, f) == base && BitFrame(base, g) == base;
    SamePlace(f, g);
    WithBitAt(ReadWord(m, base, BitWord(f)), f % 8, g % 8);
    hide BitFrame, BitWord;
  }

  /** After that exactly the first n frames read as taken, and the rest of memory is as it was. */
  lemma {:induction false} MarkedFrames(m: Memory, base: nat, n: nat, g: nat)
    requires base < TOTAL_FRAMES && n <= COVERED && g < COVERED
    ensures Taken(MarkedBitmap(m, base, n), base, g) <==> g < n
    ensures forall h :: 0 <= h < TOTAL_FRAMES && h != base ==> MarkedBitmap(m, base, n)[h] == m[h]
  {
    hide SetBitIn, Taken;
    if n == 0 {
      NothingMarked(m, base, g);
    } else {
      MarkedFrames(m, base, n - 1, g);
      SetBitAt(MarkedBitmap(m, base, n - 1), base, n - 1, g);
    }
  }

  /** What was in the frame before is gone: every word without a bit of the first n frames is zero. */
  lemma {:induction false} InitClearsTheFrame(m: Memory, base: nat, n: nat, w: nat)
    requires base < TOTAL_FRAMES && n <= 8 * w && w < FRAME_WORDS
    ensures MarkedBitmap(m, base, n)[base][w] == 0
  {
    hide SetBitIn;
    if n > 0 {
      InitClearsTheFrame(m, base, n - 1, w);
      OtherWordStays(MarkedBitmap(m, base, n - 1), base, n - 1, w);
    }
  }

  lemma OtherWordStays(m: Memory, base: nat, f: nat, w: nat)
    requires base < TOTAL_FRAMES && f < COVERED && w < FRAME_WORDS && f / 8 != w
    ensures SetBitIn(m, base, f)[base][w] == m[base][w]
  {
    hide BitSet, WithBit;
    SamePlace(f, f);
  }

  lemma NothingMarked(m: Memory, base: nat, g: nat)
    requires base < TOTAL_FRAMES && g < COVERED
    ensures !Taken(WriteFrame(m, base, ZeroFrame()), base, g)
  {
    SamePlace(g, g);
    NoBitInZero(g % 8);
    assert BitFrame(base, g) == base;
  }

  function Allocations(events: seq<Event>): nat {
    if events == [] then 0 else (if events[0].Allocation? then 1 else 0) + Allocations(events[1..])
  }

  lemma {:induction false} NoneFreeBelow(used: Used, n: nat, f: nat)
    requires n <= TOTAL_FRAMES && FreeBelow(used, n) == 0 && f < n
    ensures used[f]
  {
    if f < n - 1 {
      NoneFreeBelow(used, n - 1, f);
    }
  }

  lemma AllocBelow(used: Used)
    requires CoveredFree(used)
    ensures FreeBelow(used, COVERED) == FreeBelow(Alloc(used).1, COVERED) + 1
  {
    var f :| 0 <= f < COVERED && !used[f];
    TakeBelow(used, LowestFree(used, 0), COVERED);
  }

  lemma {:induction false} EachAllocationIsCovered(used: Used, base: nat, events: seq<Event>)
    requires StaysCovered(used, base, events)
    ensures FreeBelow(RunOnPool(used, events).1, COVERED) + Allocations(events) == FreeBelow(used, COVERED)
    ensures |RunOnPool(used, events).0| == Allocations(events)
    ensures Allocations(events) > 0 ==> RunOnPool(used, events).0[0] == Alloc(used).0
    decreases |events|
  {
    hide FreeBelow, Alloc, CoveredFree;
    if events != [] {
      if events[0].Allocation? {
        AllocBelow(used);
        EachAllocationIsCovered(Alloc(used).1, base, events[1..]);
      } else {
        EachAllocationIsCovered(used, base, events[1..]);
      }
    }
  }

  lemma {:induction false} FreeAbove(used: Used, reserved: nat, n: nat)
    requires reserved <= n <= TOTAL_FRAMES && forall f :: 0 <= f < TOTAL_FRAMES ==> (used[f] <==> f < reserved)
    ensures FreeBelow(used, n) == n - reserved
    decreases n
  {
    if n == reserved {
      NoneBelow(used, n);
    } else {
      FreeAbove(used, reserved, n - 1);
    }
  }

  /** From boot the first frame handed out is the one behind the bitmap's: it becomes the directory of the first
      process. Once as many frames have been handed out as were free among the covered ones, whatever was written
      elsewhere meanwhile, the next alloc_frame makes the first entry of that directory present. */
  lemma OverrunFromBoot(mem: Memory, reserved: nat, used: Used, events: seq<Event>, handedOut: seq<nat>, m: Memory)
    requires 0 < reserved < COVERED && forall f :: 0 <= f < TOTAL_FRAMES ==> (used[f] <==> f < reserved)
    requires StaysCovered(used, reserved - 1, events) && Allocations(events) == COVERED - reserved
    requires (handedOut, m) == RunInMemory(MarkedBitmap(mem, reserved - 1, reserved), reserved - 1, events)
    requires ReadWord(m, reserved, 0) % 2 == 0
    ensures |handedOut| == COVERED - reserved && handedOut[0] == reserved
    ensures AllocInMemory(m, reserved - 1).0 == COVERED
    ensures ReadWord(AllocInMemory(m, reserved - 1).1, reserved, 0) == ReadWord(m, reserved, 0) + 1
  {
    hide RunInMemory, RunOnPool, MarkedBitmap, Taken, AllocInMemory, StaysCovered, FreeBelow, Allocations, Alloc;
    var base, m0 := reserved - 1, MarkedBitmap(mem, reserved - 1, reserved);
    forall g | 0 <= g < COVERED
      ensures Taken(m0, base, g) <==> used[g]
    {
      MarkedFrames(mem, base, reserved, g);
    }
    MemoryBitmapRunsLikeThePool(m0, base, used, events);
    EachAllocationIsCovered(used, base, events);
    FreeAbove(used, reserved, COVERED);
    forall f | 0 <= f < COVERED
      ensures Taken(m, base, f)
    {
      NoneFreeBelow(RunOnPool(used, events).1, COVERED, f);
    }
    OverrunExample(m, base);
    FirstAtBoot(used, reserved);
  }

  lemma FirstAtBoot(used: Used, reserved: nat)
    requires reserved < TOTAL_FRAMES && forall f :: 0 <= f < TOTAL_FRAMES ==> (used[f] <==> f < reserved)
    ensures Alloc(used).0 == reserved
  {
    assert !used[reserved];
  }
}

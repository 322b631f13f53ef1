/** mem/page_frame_allocator.c: the bitmap itself. Words are 32 bits wide but indexed by
    frame / 8, so only the low 8 bits of each are ever used. */
module PageFrameAllocator {
  import opened Machine
  import opened FramePool

  const BITS_PER_BYTE := 8
  const BITMAP_WORDS := TOTAL_FRAMES / BITS_PER_BYTE

  function Mask(b: nat): bv32
    requires b < BITS_PER_BYTE
  {
    (1 as bv32) << b
  }

  function And(w: bv32, m: bv32): bv32 { w & m }
  function Or(w: bv32, m: bv32): bv32 { w | m }
  function AndNot(w: bv32, m: bv32): bv32 { w & !m }
  predicate Shares(w: bv32, m: bv32) { And(w, m) != 0 }

  predicate BitOf(w: bv32, b: nat)
    requires b < BITS_PER_BYTE
  {
    Shares(w, Mask(b))
  }

  lemma OrSame(w: bv32, m: bv32)
    requires m != 0
    ensures Shares(Or(w, m), m)
  {
  }

  lemma OrApart(w: bv32, m: bv32, n: bv32)
    requires Apart(m, n)
    ensures And(Or(w, m), n) == And(w, n)
  {
  }

  lemma OrOther(w: bv32, m: bv32, n: bv32)
    requires Apart(m, n)
    ensures Shares(Or(w, m), n) == Shares(w, n)
  {
    hide And, Or, Apart;
    OrApart(w, m, n);
  }

  lemma AndNotSame(w: bv32, m: bv32)
    ensures !Shares(AndNot(w, m), m)
  {
  }

  lemma AndNotApart(w: bv32, m: bv32, n: bv32)
    requires Apart(m, n)
    ensures And(AndNot(w, m), n) == And(w, n)
  {
  }

  lemma AndNotOther(w: bv32, m: bv32, n: bv32)
    requires Apart(m, n)
    ensures Shares(AndNot(w, m), n) == Shares(w, n)
  {
    hide And, AndNot, Apart;
    AndNotApart(w, m, n);
  }

  predicate Apart(m: bv32, n: bv32) { And(m, n) == 0 }

  lemma MasksApart(b: nat, c: nat)
    requires b < BITS_PER_BYTE && c < BITS_PER_BYTE
    ensures Mask(b) != 0 && (b != c ==> Apart(Mask(b), Mask(c)))
  {
    hide Mask;
    MaskValues(b);
    MaskValues(c);
  }

  lemma UpdatesAt(w: bv32, m: bv32, n: bv32)
    ensures n != 0 ==> Shares(Or(w, n), n)
    ensures Apart(m, n) ==> Shares(Or(w, m), n) == Shares(w, n)
    ensures !Shares(AndNot(w, n), n)
    ensures Apart(m, n) ==> Shares(AndNot(w, m), n) == Shares(w, n)
  {
    hide Shares, Or, AndNot;
    if n != 0 {
      OrSame(w, n);
    }
    AndNotSame(w, n);
    if Apart(m, n) {
      OrOther(w, m, n);
      AndNotOther(w, m, n);
    }
  }

  lemma BitUpdates(w: bv32, b: nat, c: nat)
    requires b < BITS_PER_BYTE && c < BITS_PER_BYTE
    ensures BitOf(Or(w, Mask(b)), c) <==> c == b || BitOf(w, c)
    ensures BitOf(AndNot(w, Mask(b)), c) <==> c != b && BitOf(w, c)
  {
    hide Mask, Shares, Or, AndNot, Apart;
    MasksApart(b, c);
    UpdatesAt(w, Mask(b), Mask(c));
  }

  lemma MaskValues(b: nat)
    requires b < BITS_PER_BYTE
    ensures Mask(b) == if b == 0 then 1 else if b == 1 then 2 else if b == 2 then 4 else if b == 3 then 8
                       else if b == 4 then 16 else if b == 5 then 32 else if b == 6 then 64 else 128
  {
  }

  type Bitmap = w: seq<bv32> | |w| == BITMAP_WORDS witness seq<bv32>(BITMAP_WORDS, _ => 0)

  /** The pool a bitmap stands for. */
  function UsedOf(words: Bitmap): Used {
    seq<bool>(TOTAL_FRAMES, f requires 0 <= f < TOTAL_FRAMES => BitOf(words[f / BITS_PER_BYTE], f % BITS_PER_BYTE))
  }

  function Marked(words: Bitmap, f: nat): Bitmap
    requires f < TOTAL_FRAMES
  {
    words[f / BITS_PER_BYTE := Or(words[f / BITS_PER_BYTE], Mask(f % BITS_PER_BYTE))]
  }

  function Cleared(words: Bitmap, f: nat): Bitmap
    requires f < TOTAL_FRAMES
  {
    words[f / BITS_PER_BYTE := AndNot(words[f / BITS_PER_BYTE], Mask(f % BITS_PER_BYTE))]
  }

  lemma MarkedAt(words: Bitmap, f: nat, g: nat)
    requires f < TOTAL_FRAMES && g < TOTAL_FRAMES
    ensures UsedOf(Marked(words, f))[g] == (g == f || UsedOf(words)[g])
    ensures UsedOf(Cleared(words, f))[g] == (g != f && UsedOf(words)[g])
  {
    hide BitOf, Mask, Or, AndNot;
    BitUpdates(words[f / BITS_PER_BYTE], f % BITS_PER_BYTE, g % BITS_PER_BYTE);
    SameBit(f, g);
  }

  /** Setting one bit takes one frame, clearing it gives that frame back, and no other frame is affected. */
  lemma MarkedIsUsed(words: Bitmap, f: nat)
    requires f < TOTAL_FRAMES
    ensures UsedOf(Marked(words, f)) == UsedOf(words)[f := true]
    ensures UsedOf(Cleared(words, f)) == UsedOf(words)[f := false]
  {
    hide UsedOf, Marked, Cleared;
    forall g | 0 <= g < TOTAL_FRAMES
      ensures UsedOf(Marked(words, f))[g] == (g == f || UsedOf(words)[g])
      ensures UsedOf(Cleared(words, f))[g] == (g != f && UsedOf(words)[g])
    {
      MarkedAt(words, f, g);
    }
  }

  lemma SameBit(f: nat, g: nat)
    ensures f == g <==> f / BITS_PER_BYTE == g / BITS_PER_BYTE && f % BITS_PER_BYTE == g % BITS_PER_BYTE
  {
  }

  /** Frames below this one are reserved: up to the end of the kernel and of the bitmap's own bytes. */
  function ReservedEnd(kernelStart: Word, kernelEnd: Word): nat {
    var bitmapSize := (BITMAP_WORDS + FRAME_SIZE - 1) / FRAME_SIZE * FRAME_SIZE;
    var bitmapPhys := (kernelEnd + FRAME_SIZE - 1) / FRAME_SIZE * FRAME_SIZE;
    var start, end := kernelStart / FRAME_SIZE, (bitmapPhys + bitmapSize) / FRAME_SIZE;
    if start <= end then end else start
  }

  /** All memory up to the end of the kernel is reserved, and one frame after it, which holds the first 4096 bytes
      of the bitmap. */
  lemma ReservedCoversKernel(kernelStart: Word, kernelEnd: Word, a: nat)
    requires kernelStart <= kernelEnd
    ensures a < kernelEnd ==> a / FRAME_SIZE < ReservedEnd(kernelStart, kernelEnd)
    ensures var bitmapFrame := ReservedEnd(kernelStart, kernelEnd) - 1;
            kernelEnd <= bitmapFrame * FRAME_SIZE < kernelEnd + FRAME_SIZE
  {
    var r := (kernelEnd + FRAME_SIZE - 1) / FRAME_SIZE;
    assert ReservedEnd(kernelStart, kernelEnd) == r + 1;
  }

  class FrameAllocator {
    const bitmap: array<bv32>

    ghost predicate Valid() { bitmap.Length == BITMAP_WORDS }

    ghost function Pool(): Used
      requires Valid()
      reads bitmap
    {
      UsedOf(bitmap[..])
    }

    /** The reserving part of init_page_frame_allocator. The kernel and the bitmap's frame lie within memory. */
    constructor (kernelStart: Word, kernelEnd: Word)
      requires kernelStart <= kernelEnd <= (TOTAL_FRAMES - 1) * FRAME_SIZE
      ensures Valid() && fresh(bitmap)
      ensures 0 < ReservedEnd(kernelStart, kernelEnd) <= TOTAL_FRAMES
      ensures forall f :: 0 <= f < TOTAL_FRAMES ==> (Pool()[f] <==> f < ReservedEnd(kernelStart, kernelEnd))
    {
      bitmap := new bv32[BITMAP_WORDS](_ => 0);
      new;
      var bitmapSize := (BITMAP_WORDS + FRAME_SIZE - 1) / FRAME_SIZE * FRAME_SIZE;
      var bitmapPhys := (kernelEnd + FRAME_SIZE - 1) / FRAME_SIZE * FRAME_SIZE;
      var startFrame := kernelStart / FRAME_SIZE;
      var endFrame := (bitmapPhys + bitmapSize) / FRAME_SIZE;
      NoBits();
      for i := 0 to startFrame
        invariant forall f :: 0 <= f < TOTAL_FRAMES ==> (Pool()[f] <==> f < i)
      {
        SetBit(i);
      }
      for i := startFrame to endFrame
        invariant forall f :: 0 <= f < TOTAL_FRAMES ==> (Pool()[f] <==> f < i)
      {
        SetBit(i);
      }
    }

    method SetBit(f: nat)
      requires Valid() && f < TOTAL_FRAMES
      modifies bitmap
      ensures Pool() == old(Pool())[f := true]
    {
      hide UsedOf, Mask, Or, AndNot;
      ghost var words := bitmap[..];
      MarkedIsUsed(words, f);
      bitmap[f / BITS_PER_BYTE] := Or(bitmap[f / BITS_PER_BYTE], Mask(f % BITS_PER_BYTE));
      assert bitmap[..] == Marked(words, f);
    }

    method ClearBit(f: nat)
      requires Valid() && f < TOTAL_FRAMES
      modifies bitmap
      ensures Pool() == old(Pool())[f := false]
    {
      hide UsedOf, Mask, Or, AndNot;
      ghost var words := bitmap[..];
      MarkedIsUsed(words, f);
      bitmap[f / BITS_PER_BYTE] := AndNot(bitmap[f / BITS_PER_BYTE], Mask(f % BITS_PER_BYTE));
      assert bitmap[..] == Cleared(words, f);
    }

    method TestBit(f: nat) returns (b: bool)
      requires Valid() && f < TOTAL_FRAMES
      ensures b == Pool()[f]
    {
      b := Shares(bitmap[f / BITS_PER_BYTE], Mask(f % BITS_PER_BYTE));
    }

    method AllocFrame() returns (address: Word)
      requires Valid()
      modifies bitmap
      ensures address == Alloc(old(Pool())).0 * FRAME_SIZE && Pool() == Alloc(old(Pool())).1
    {
      for i := 0 to TOTAL_FRAMES
        invariant Pool() == old(Pool()) && forall k :: 0 <= k < i ==> Pool()[k]
      {
        var taken := TestBit(i);
        if !taken {
          SetBit(i);
          return i * FRAME_SIZE;
        }
      }
      return 0;
    }

    method FreeFrame(address: Word)
      requires Valid()
      modifies bitmap
      ensures var f := address / FRAME_SIZE;
              Pool() == if f < TOTAL_FRAMES then old(Pool())[f := false] else old(Pool())
    {
      var f := address / FRAME_SIZE;
      if f < TOTAL_FRAMES {
        ClearBit(f);
      }
    }

    method IsFrameAllocated(address: Word) returns (b: bool)
      requires Valid()
      ensures b <==> address >= 0x800_0000 || Pool()[address / 0x1000]
    {
      var f := address / FRAME_SIZE;
      if f < TOTAL_FRAMES {
        b := TestBit(f);
      } else {
        b := true;
      }
    }
  }

  lemma NoBits()
    ensures forall b :: 0 <= b < BITS_PER_BYTE ==> !BitOf(0, b)
  {
  }

  // ---- Any sequence of allocations and frees ----

  datatype Request = Allocate | Release(f: nat)

  /** Bookkeeping of a caller: the frames it holds. */
  datatype Holding = Holding(used: Used, held: set<nat>)

  function Serve(h: Holding, r: Request): Holding {
    match r
    case Allocate =>
      var (f, used) := Alloc(h.used);
      Holding(used, if f == 0 then h.held else h.held + {f})
    case Release(f) => Holding(if f < TOTAL_FRAMES then h.used[f := false] else h.used, h.held - {f})
  }

  function ServeAll(h: Holding, rs: seq<Request>): Holding
    decreases |rs|
  {
    if rs == [] then h else ServeAll(Serve(h, rs[0]), rs[1..])
  }

  /** Only frames that are held are given back. */
  ghost predicate Honest(h: Holding, rs: seq<Request>)
    decreases |rs|
  {
    rs == [] || ((rs[0].Release? ==> rs[0].f in h.held) && Honest(Serve(h, rs[0]), rs[1..]))
  }

  /** Taken means reserved or held, and not both. */
  ghost predicate Accounts(h: Holding, reserved: nat) {
    && 0 < reserved <= TOTAL_FRAMES
    && (forall f :: 0 <= f < TOTAL_FRAMES ==> (h.used[f] <==> f < reserved || f in h.held))
    && (forall f :: f in h.held ==> reserved <= f < TOTAL_FRAMES)
  }

  lemma ServeKeeps(h: Holding, reserved: nat, r: Request)
    requires Accounts(h, reserved) && (r.Release? ==> r.f in h.held)
    ensures Accounts(Serve(h, r), reserved)
  {
    hide Alloc, FreeCount;
    if r.Allocate? {
      AllocTakesLowest(h.used);
    }
  }

  lemma NextFrame(h: Holding, reserved: nat)
    requires Accounts(h, reserved)
    ensures var f := Alloc(h.used).0;
            if f == 0 then forall g :: reserved <= g < TOTAL_FRAMES ==> g in h.held
            else reserved <= f < TOTAL_FRAMES && f !in h.held && forall g :: reserved <= g < f ==> g in h.held
  {
    hide Alloc;
    AllocTakesLowest(h.used);
  }

  /** The bitmap is the set of frames held, over any honest run; so the next allocation returns the lowest
      frame that is neither reserved nor held, or 0 when there is none. */
  lemma {:induction false} BitmapIsASet(h: Holding, reserved: nat, rs: seq<Request>)
    requires Accounts(h, reserved) && Honest(h, rs)
    ensures var h' := ServeAll(h, rs);
            && Accounts(h', reserved)
            && var f := Alloc(h'.used).0;
               if f == 0 then forall g :: reserved <= g < TOTAL_FRAMES ==> g in h'.held
               else reserved <= f < TOTAL_FRAMES && f !in h'.held && forall g :: reserved <= g < f ==> g in h'.held
    decreases |rs|
  {
    hide Alloc, Accounts;
    if rs == [] {
      NextFrame(h, reserved);
    } else {
      ServeKeeps(h, reserved, rs[0]);
      BitmapIsASet(Serve(h, rs[0]), reserved, rs[1..]);
    }
  }
}

/** Which frames are taken: the abstract value of the bitmap of
    mem/page_frame_allocator.c, and what allocating does to it. */
module FramePool {
  import opened Machine

  type Used = u: seq<bool> | |u| == TOTAL_FRAMES witness seq(TOTAL_FRAMES, _ => false)

  /** The first frame at or after i that is not in use, or TOTAL_FRAMES. */
  function LowestFree(used: Used, i: nat): (r: nat)
    requires i <= TOTAL_FRAMES
    ensures i <= r <= TOTAL_FRAMES
    ensures forall k :: i <= k < r ==> used[k]
    ensures r < TOTAL_FRAMES ==> !used[r]
    decreases TOTAL_FRAMES - i
  {
    if i == TOTAL_FRAMES || !used[i] then i else LowestFree(used, i + 1)
  }

  /** A frame number and the pool afterwards. As in the C code, 0 stands for failure. */
  function Alloc(used: Used): (r: (nat, Used))
    ensures r.0 < TOTAL_FRAMES
  {
    var f := LowestFree(used, 0);
    if f < TOTAL_FRAMES then (f, used[f := true]) else (0, used)
  }

  function FreeFrom(used: Used, i: nat): nat
    requires i <= TOTAL_FRAMES
    decreases TOTAL_FRAMES - i
  {
    if i == TOTAL_FRAMES then 0 else (if used[i] then 0 else 1) + FreeFrom(used, i + 1)
  }

  function FreeCount(used: Used): nat {
    FreeFrom(used, 0)
  }

  lemma {:induction false} TakeOne(used: Used, f: nat, i: nat)
    requires i <= TOTAL_FRAMES && f < TOTAL_FRAMES && !used[f]
    ensures FreeFrom(used[f := true], i) == FreeFrom(used, i) - (if i <= f then 1 else 0)
    decreases TOTAL_FRAMES - i
  {
    if i < TOTAL_FRAMES {
      TakeOne(used, f, i + 1);
    }
  }

  lemma {:induction false} NoneFree(used: Used, i: nat)
    requires i <= TOTAL_FRAMES
    ensures FreeFrom(used, i) == 0 <==> LowestFree(used, i) == TOTAL_FRAMES
    decreases TOTAL_FRAMES - i
  {
    if i < TOTAL_FRAMES {
      NoneFree(used, i + 1);
    }
  }

  lemma {:induction false} FreeAtMost(used: Used, i: nat)
    requires i <= TOTAL_FRAMES
    ensures FreeFrom(used, i) <= TOTAL_FRAMES - i
    decreases TOTAL_FRAMES - i
  {
    if i < TOTAL_FRAMES {
      FreeAtMost(used, i + 1);
    }
  }

  /** While frame 0 is reserved, allocation fails exactly when the pool is empty;
      otherwise it takes the lowest free frame and nothing else. */
  lemma AllocTakesLowest(used: Used)
    requires used[0]
    ensures var (f, used') := Alloc(used);
            && (f == 0 <==> FreeCount(used) == 0)
            && (f == 0 ==> used' == used && forall g :: 0 <= g < TOTAL_FRAMES ==> used[g])
            && (f != 0 ==>
                  && 0 < f < TOTAL_FRAMES && !used[f] && used' == used[f := true]
                  && (forall g :: 0 <= g < f ==> used[g])
                  && FreeCount(used') == FreeCount(used) - 1)
  {
    NoneFree(used, 0);
    var f := LowestFree(used, 0);
    if f < TOTAL_FRAMES {
      TakeOne(used, f, 0);
    }
  }

  // ---- Several allocations in a row ----

  /** The pool after n allocations. */
  function Taking(used: Used, n: nat): Used
    decreases n
  {
    if n == 0 then used else Taking(Alloc(used).1, n - 1)
  }

  /** The frame the next allocation after n others takes. */
  function NthTaken(used: Used, n: nat): nat
    decreases n
  {
    if n == 0 then Alloc(used).0 else NthTaken(Alloc(used).1, n - 1)
  }

  lemma {:induction false} NthAfter(used: Used, n: nat, m: nat)
    ensures NthTaken(Taking(used, n), m) == NthTaken(used, n + m)
    ensures Taking(Taking(used, n), m) == Taking(used, n + m)
    decreases n
  {
    hide Alloc;
    if n > 0 {
      NthAfter(Alloc(used).1, n - 1, m);
    }
  }

  /** How many frames below g are free. */
  function FreeBelow(used: Used, g: nat): nat
    requires g <= TOTAL_FRAMES
  {
    if g == 0 then 0 else FreeBelow(used, g - 1) + if used[g - 1] then 0 else 1
  }

  lemma {:induction false} NoneBelow(used: Used, f: nat)
    requires f <= TOTAL_FRAMES && forall k :: 0 <= k < f ==> used[k]
    ensures FreeBelow(used, f) == 0
  {
    if f > 0 {
      NoneBelow(used, f - 1);
    }
  }

  lemma {:induction false} TakeBelow(used: Used, f: nat, g: nat)
    requires f < TOTAL_FRAMES && !used[f] && g <= TOTAL_FRAMES
    ensures FreeBelow(used, g) == FreeBelow(used[f := true], g) + if f < g then 1 else 0
  {
    if g > 0 {
      TakeBelow(used, f, g - 1);
    }
  }

  /** The n-th frame taken is the free frame with n free frames below it. */
  lemma {:induction false} NthTakenIs(used: Used, n: nat)
    requires used[0] && n < FreeCount(used)
    ensures var f := NthTaken(used, n);
            0 < f < TOTAL_FRAMES && !used[f] && FreeBelow(used, f) == n
    decreases n
  {
    hide FreeBelow, Alloc, FreeCount;
    AllocTakesLowest(used);
    var (f0, used') := Alloc(used);
    if n == 0 {
      NoneBelow(used, f0);
    } else {
      NthTakenIs(used', n - 1);
      var f := NthTaken(used, n);
      TakeBelow(used, f0, f);
    }
  }
}

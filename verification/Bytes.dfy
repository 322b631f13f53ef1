/** The byte view of memory, and memcpy and memset of lib/string.c on physical addresses. */
module Bytes {
  import opened Machine

  const MEMORY_SIZE := TOTAL_FRAMES * FRAME_SIZE

  /** Byte k of a little-endian word. */
  function ByteOf(w: Word, k: nat): Byte
    requires k < 4
  {
    if k == 0 then w % 0x100 else if k == 1 then w / 0x100 % 0x100
    else if k == 2 then w / 0x100 / 0x100 % 0x100 else w / 0x100 / 0x100 / 0x100 % 0x100
  }

  function WithByte(w: Word, k: nat, b: Byte): Word
    requires k < 4
  {
    var b0, b1 := if k == 0 then b else ByteOf(w, 0), if k == 1 then b else ByteOf(w, 1);
    var b2, b3 := if k == 2 then b else ByteOf(w, 2), if k == 3 then b else ByteOf(w, 3);
    b0 + b1 * 0x100 + b2 * 0x1_0000 + b3 * 0x100_0000
  }

  lemma Split8(q: nat, r: nat)
    requires r < 0x100
    ensures (0x100 * q + r) / 0x100 == q && (0x100 * q + r) % 0x100 == r
  {
  }

  lemma WordFromBytes(w: Word)
    ensures w == ByteOf(w, 0) + ByteOf(w, 1) * 0x100 + ByteOf(w, 2) * 0x1_0000 + ByteOf(w, 3) * 0x100_0000
  {
    var w1 := w / 0x100;
    var w2 := w1 / 0x100;
    assert w == 0x100 * w1 + w % 0x100 && w1 == 0x100 * w2 + w1 % 0x100 && w2 == 0x100 * (w2 / 0x100) + w2 % 0x100;
    assert w2 / 0x100 % 0x100 == w2 / 0x100;
  }

  lemma BytesFromWord(b0: Byte, b1: Byte, b2: Byte, b3: Byte)
    ensures var w := b0 + b1 * 0x100 + b2 * 0x1_0000 + b3 * 0x100_0000;
            ByteOf(w, 0) == b0 && ByteOf(w, 1) == b1 && ByteOf(w, 2) == b2 && ByteOf(w, 3) == b3
  {
    var w2 := 0x100 * b3 + b2;
    var w1 := 0x100 * w2 + b1;
    assert b0 + b1 * 0x100 + b2 * 0x1_0000 + b3 * 0x100_0000 == 0x100 * w1 + b0;
    Split8(w1, b0);
    Split8(w2, b1);
    Split8(b3, b2);
  }

  lemma WithByteAt(w: Word, k: nat, b: Byte, k': nat)
    requires k < 4 && k' < 4
    ensures ByteOf(WithByte(w, k, b), k') == if k' == k then b else ByteOf(w, k')
  {
    hide ByteOf;
    BytesFromWord(if k == 0 then b else ByteOf(w, 0), if k == 1 then b else ByteOf(w, 1),
                  if k == 2 then b else ByteOf(w, 2), if k == 3 then b else ByteOf(w, 3));
  }

  function LoadByte(m: Memory, a: nat): Byte {
    ByteOf(ReadWord(m, a / FRAME_SIZE, a % FRAME_SIZE / 4), a % 4)
  }

  function StoreByte(m: Memory, a: nat, b: Byte): Memory {
    var f, k := a / FRAME_SIZE, a % FRAME_SIZE / 4;
    WriteWord(m, f, k, WithByte(ReadWord(m, f, k), a % 4, b))
  }

  function CopyBytes(m: Memory, dest: nat, src: nat, count: nat): Memory {
    if count == 0 then m
    else
      var m1 := CopyBytes(m, dest, src, count - 1);
      StoreByte(m1, dest + count - 1, LoadByte(m1, src + count - 1))
  }

  function SetBytes(m: Memory, dest: nat, b: Byte, count: nat): Memory {
    if count == 0 then m else StoreByte(SetBytes(m, dest, b, count - 1), dest + count - 1, b)
  }

  lemma StoreByteAt(m: Memory, a: nat, b: Byte, a': nat)
    requires a < MEMORY_SIZE
    ensures LoadByte(StoreByte(m, a, b), a') == if a' == a then b else LoadByte(m, a')
  {
    hide ByteOf, WithByte;
    WithByteAt(ReadWord(m, a / FRAME_SIZE, a % FRAME_SIZE / 4), a % 4, b, a' % 4);
    AddressParts(a);
    AddressParts(a');
  }

  lemma AddressParts(a: nat)
    ensures a == a / FRAME_SIZE * FRAME_SIZE + a % FRAME_SIZE / 4 * 4 + a % 4
    ensures a % FRAME_SIZE / 4 < FRAME_WORDS
  {
    var q, r := a / FRAME_SIZE, a % FRAME_SIZE;
    InFrame(a);
    InWord(r);
    LowBits(a, 1024 * q, r);
  }

  lemma InFrame(a: nat)
    ensures a == 0x1000 * (a / 0x1000) + a % 0x1000 && a % 0x1000 < 0x1000
  {
  }

  lemma InWord(r: nat)
    requires r < 0x1000
    ensures r == 4 * (r / 4) + r % 4 && r / 4 < 1024
  {
  }

  /** memcpy between ranges that do not overlap. */
  lemma {:induction false} CopyBytesAt(m: Memory, dest: nat, src: nat, count: nat, a: nat)
    requires dest + count <= MEMORY_SIZE && (src + count <= dest || dest + count <= src)
    ensures LoadByte(CopyBytes(m, dest, src, count), a) ==
            if dest <= a < dest + count then LoadByte(m, src + (a - dest)) else LoadByte(m, a)
  {
    hide LoadByte, StoreByte;
    if count > 0 {
      var m1 := CopyBytes(m, dest, src, count - 1);
      CopyBytesAt(m, dest, src, count - 1, a);
      CopyBytesAt(m, dest, src, count - 1, src + count - 1);
      StoreByteAt(m1, dest + count - 1, LoadByte(m1, src + count - 1), a);
    }
  }

  lemma {:induction false} SetBytesAt(m: Memory, dest: nat, b: Byte, count: nat, a: nat)
    requires dest + count <= MEMORY_SIZE
    ensures LoadByte(SetBytes(m, dest, b, count), a) == if dest <= a < dest + count then b else LoadByte(m, a)
  {
    hide LoadByte, StoreByte;
    if count > 0 {
      SetBytesAt(m, dest, b, count - 1, a);
      StoreByteAt(SetBytes(m, dest, b, count - 1), dest + count - 1, b, a);
    }
  }

  lemma {:induction false} CopyBytesFrame(m: Memory, f: nat, dest: nat, src: nat, count: nat, g: nat)
    requires f * FRAME_SIZE <= dest && dest + count <= (f + 1) * FRAME_SIZE && g < TOTAL_FRAMES && g != f
    ensures CopyBytes(m, dest, src, count)[g] == m[g]
  {
    hide LoadByte, WithByte;
    if count > 0 {
      CopyBytesFrame(m, f, dest, src, count - 1, g);
      assert (dest + count - 1) / FRAME_SIZE == f;
    }
  }

  lemma {:induction false} SetBytesFrame(m: Memory, f: nat, dest: nat, b: Byte, count: nat, g: nat)
    requires f * FRAME_SIZE <= dest && dest + count <= (f + 1) * FRAME_SIZE && g < TOTAL_FRAMES && g != f
    ensures SetBytes(m, dest, b, count)[g] == m[g]
  {
    hide WithByte;
    if count > 0 {
      SetBytesFrame(m, f, dest, b, count - 1, g);
      assert (dest + count - 1) / FRAME_SIZE == f;
    }
  }

  // ---- Whole frames ----

  function FrameByte(fr: Frame, k: nat): Byte
    requires k < FRAME_SIZE
  {
    ByteOf(fr[k / 4], k % 4)
  }

  lemma ByteInFrame(m: Memory, f: nat, k: nat)
    requires f < TOTAL_FRAMES && k < FRAME_SIZE
    ensures LoadByte(m, f * FRAME_SIZE + k) == FrameByte(m[f], k)
  {
    hide ByteOf;
    FrameAddress(f, k);
  }

  lemma FrameAddress(f: nat, k: nat)
    requires k < FRAME_SIZE
    ensures (f * FRAME_SIZE + k) / FRAME_SIZE == f && (f * FRAME_SIZE + k) % FRAME_SIZE == k
    ensures (f * FRAME_SIZE + k) % 4 == k % 4
  {
    FrameParts(f * FRAME_SIZE + k, f, k);
    LowBits(f * FRAME_SIZE + k, 1024 * f, k);
  }

  lemma FrameParts(a: nat, q: nat, r: nat)
    requires a == 0x1000 * q + r && r < 0x1000
    ensures a / 0x1000 == q && a % 0x1000 == r
  {
  }

  lemma LowBits(a: nat, q: nat, r: nat)
    requires a == 4 * q + r
    ensures a % 4 == r % 4
  {
  }

  lemma SameWord(w: Word, w': Word)
    requires forall k :: 0 <= k < 4 ==> ByteOf(w, k) == ByteOf(w', k)
    ensures w == w'
  {
    hide ByteOf;
    WordFromBytes(w);
    WordFromBytes(w');
    assert ByteOf(w, 0) == ByteOf(w', 0) && ByteOf(w, 1) == ByteOf(w', 1);
    assert ByteOf(w, 2) == ByteOf(w', 2) && ByteOf(w, 3) == ByteOf(w', 3);
  }

  /** Two frames with the same 4096 bytes are the same. */
  lemma SameFrame(fr: Frame, fr': Frame)
    requires forall k :: 0 <= k < FRAME_SIZE ==> FrameByte(fr, k) == FrameByte(fr', k)
    ensures fr == fr'
  {
    hide ByteOf;
    forall n | 0 <= n < FRAME_WORDS
      ensures fr[n] == fr'[n]
    {
      forall k | 0 <= k < 4
        ensures ByteOf(fr[n], k) == ByteOf(fr'[n], k)
      {
        assert (4 * n + k) / 4 == n && (4 * n + k) % 4 == k;
        assert FrameByte(fr, 4 * n + k) == FrameByte(fr', 4 * n + k);
      }
      SameWord(fr[n], fr'[n]);
    }
  }

  lemma OpenBusByte(m: Memory, g: nat, k: nat)
    requires g >= TOTAL_FRAMES && k < FRAME_SIZE
    ensures LoadByte(m, g * FRAME_SIZE + k) == 0xFF && FrameByte(ReadFrame(m, g), k) == 0xFF
  {
    FrameAddress(g, k);
  }

  lemma ByteOfFrame(m: Memory, g: nat, k: nat)
    requires k < FRAME_SIZE
    ensures LoadByte(m, g * FRAME_SIZE + k) == FrameByte(ReadFrame(m, g), k)
  {
    hide LoadByte, FrameByte;
    if g < TOTAL_FRAMES {
      ByteInFrame(m, g, k);
    } else {
      OpenBusByte(m, g, k);
    }
  }

  lemma StoreWhatIsThere(m: Memory, a: nat)
    ensures StoreByte(m, a, LoadByte(m, a)) == m
  {
    hide ByteOf, WithByte;
    WithSameByte(ReadWord(m, a / FRAME_SIZE, a % FRAME_SIZE / 4), a % 4);
    WriteWhatIsThere(m, a / FRAME_SIZE, a % FRAME_SIZE / 4);
  }

  lemma WithSameByte(w: Word, k: nat)
    requires k < 4
    ensures WithByte(w, k, ByteOf(w, k)) == w
  {
    hide ByteOf;
    WordFromBytes(w);
  }

  lemma WriteWhatIsThere(m: Memory, f: nat, k: nat)
    ensures WriteWord(m, f, k, ReadWord(m, f, k)) == m
  {
    if f < TOTAL_FRAMES && k < FRAME_WORDS {
      assert m[f][k := m[f][k]] == m[f];
    }
  }

  lemma {:induction false} CopyOntoItself(m: Memory, a: nat, count: nat)
    ensures CopyBytes(m, a, a, count) == m
  {
    hide LoadByte, StoreByte;
    if count > 0 {
      CopyOntoItself(m, a, count - 1);
      StoreWhatIsThere(m, a + count - 1);
    }
  }

  /** A 4096-byte memcpy to a frame copies a whole frame. */
  lemma CopyBytesIsFrame(m: Memory, f: nat, g: nat)
    requires f < TOTAL_FRAMES
    ensures CopyBytes(m, f * FRAME_SIZE, g * FRAME_SIZE, FRAME_SIZE) == WriteFrame(m, f, ReadFrame(m, g))
  {
    hide LoadByte, StoreByte, CopyBytes, FrameByte;
    if f == g {
      CopyOntoItself(m, f * FRAME_SIZE, FRAME_SIZE);
    } else {
      CopyBetweenFrames(m, f, g);
    }
  }

  lemma CopyBetweenFrames(m: Memory, f: nat, g: nat)
    requires f < TOTAL_FRAMES && f != g
    ensures CopyBytes(m, f * FRAME_SIZE, g * FRAME_SIZE, FRAME_SIZE) == WriteFrame(m, f, ReadFrame(m, g))
  {
    hide LoadByte, StoreByte, CopyBytes, FrameByte, ReadFrame;
    var m' := CopyBytes(m, f * FRAME_SIZE, g * FRAME_SIZE, FRAME_SIZE);
    forall k | 0 <= k < FRAME_SIZE
      ensures FrameByte(m'[f], k) == FrameByte(ReadFrame(m, g), k)
    {
      CopyBytesAt(m, f * FRAME_SIZE, g * FRAME_SIZE, FRAME_SIZE, f * FRAME_SIZE + k);
      ByteInFrame(m', f, k);
      ByteOfFrame(m, g, k);
    }
    SameFrame(m'[f], ReadFrame(m, g));
    forall h | 0 <= h < TOTAL_FRAMES && h != f
      ensures m'[h] == m[h]
    {
      CopyBytesFrame(m, f, f * FRAME_SIZE, g * FRAME_SIZE, FRAME_SIZE, h);
    }
  }

  /** A 4096-byte memset to 0 clears the frame. */
  lemma SetBytesIsZeroFrame(m: Memory, f: nat)
    requires f < TOTAL_FRAMES
    ensures SetBytes(m, f * FRAME_SIZE, 0, FRAME_SIZE) == WriteFrame(m, f, ZeroFrame())
  {
    hide LoadByte, StoreByte, SetBytes, FrameByte;
    var m' := SetBytes(m, f * FRAME_SIZE, 0, FRAME_SIZE);
    forall k | 0 <= k < FRAME_SIZE
      ensures FrameByte(m'[f], k) == FrameByte(ZeroFrame(), k)
    {
      SetBytesAt(m, f * FRAME_SIZE, 0, FRAME_SIZE, f * FRAME_SIZE + k);
      ByteInFrame(m', f, k);
      ZeroByte(k);
    }
    SameFrame(m'[f], ZeroFrame());
    forall h | 0 <= h < TOTAL_FRAMES && h != f
      ensures m'[h] == m[h]
    {
      SetBytesFrame(m, f, f * FRAME_SIZE, 0, FRAME_SIZE, h);
    }
  }

  lemma ZeroByte(k: nat)
    requires k < FRAME_SIZE
    ensures FrameByte(ZeroFrame(), k) == 0
  {
  }
}

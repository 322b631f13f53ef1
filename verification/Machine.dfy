/** The physical machine lbos runs on: 128 MB of memory, seen as 4 KB frames of
    little-endian 32-bit words. */
module Machine {
  const FRAME_SIZE := 4096
  const FRAME_WORDS := 1024
  const TOTAL_FRAMES := 32768

  type Word = x: int | 0 <= x < 0x1_0000_0000
  type Byte = x: int | 0 <= x < 256
  type Frame = s: seq<Word> | |s| == FRAME_WORDS witness seq<Word>(FRAME_WORDS, _ => 0)
  type Memory = m: seq<Frame> | |m| == TOTAL_FRAMES witness seq<Frame>(TOTAL_FRAMES, _ => ZeroFrame())

  function ZeroFrame(): (fr: Frame)
    ensures forall k :: 0 <= k < FRAME_WORDS ==> fr[k] == 0
  {
    seq<Word>(FRAME_WORDS, _ => 0)
  }

  // Reads of physical addresses no memory answers return all ones, and writes to
  // them are dropped, as on the bus of the real machine.
  const OPEN_BUS: Word := 0xFFFF_FFFF

  function ReadWord(mem: Memory, f: nat, k: nat): Word {
    if f < TOTAL_FRAMES && k < FRAME_WORDS then mem[f][k] else OPEN_BUS
  }

  function WriteWord(mem: Memory, f: nat, k: nat, w: Word): Memory {
    if f < TOTAL_FRAMES && k < FRAME_WORDS then mem[f := mem[f][k := w]] else mem
  }

  function ReadFrame(mem: Memory, f: nat): Frame {
    if f < TOTAL_FRAMES then mem[f] else seq<Word>(FRAME_WORDS, _ => OPEN_BUS)
  }

  function WriteFrame(mem: Memory, f: nat, contents: Frame): Memory {
    if f < TOTAL_FRAMES then mem[f := contents] else mem
  }
}

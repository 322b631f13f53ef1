/** mem/paging.c and page_fault_handler, working in place on physical memory. Addresses are
    physical: phys_to_virt is taken to reach all of memory. */
module MemoryManager {
  import opened Machine
  import opened Bytes
  import opened FramePool
  import opened PageTables
  import opened Translation
  import opened DemandPaging
  import opened PageFrameAllocator

  class Mmu {
    const frames: array<Frame>
    const allocator: FrameAllocator
    const kernelDirectory: Frame

    ghost predicate Valid() { frames.Length == TOTAL_FRAMES && allocator.Valid() }

    ghost function Mem(): Memory
      requires Valid()
      reads frames
    {
      frames[..]
    }

    ghost function State(): Ram
      requires Valid()
      reads frames, allocator.bitmap
    {
      Ram(Mem(), allocator.Pool())
    }

    constructor (kernelStart: Word, kernelEnd: Word, kernelDirectory: Frame)
      requires kernelStart <= kernelEnd <= (TOTAL_FRAMES - 1) * FRAME_SIZE
      ensures Valid() && fresh(frames) && fresh(allocator.bitmap) && this.kernelDirectory == kernelDirectory
      ensures 0 < ReservedEnd(kernelStart, kernelEnd) <= TOTAL_FRAMES
      ensures forall f :: 0 <= f < TOTAL_FRAMES ==> (State().used[f] <==> f < ReservedEnd(kernelStart, kernelEnd))
    {
      frames := new Frame[TOTAL_FRAMES](_ => ZeroFrame());
      allocator := new FrameAllocator(kernelStart, kernelEnd);
      this.kernelDirectory := kernelDirectory;
    }

    method Load(f: nat, k: nat) returns (w: Word)
      requires Valid()
      ensures w == ReadWord(Mem(), f, k)
    {
      w := if f < TOTAL_FRAMES && k < FRAME_WORDS then frames[f][k] else OPEN_BUS;
    }

    method Store(f: nat, k: nat, w: Word)
      requires Valid()
      modifies frames
      ensures Mem() == WriteWord(old(Mem()), f, k, w)
    {
      if f < TOTAL_FRAMES && k < FRAME_WORDS {
        frames[f] := frames[f][k := w];
      }
    }

    method LoadOne(a: nat) returns (b: Byte)
      requires Valid()
      ensures b == LoadByte(Mem(), a)
    {
      var w := Load(a / FRAME_SIZE, a % FRAME_SIZE / 4);
      b := ByteOf(w, a % 4);
    }

    method StoreOne(a: nat, b: Byte)
      requires Valid()
      modifies frames
      ensures Mem() == StoreByte(old(Mem()), a, b)
    {
      var w := Load(a / FRAME_SIZE, a % FRAME_SIZE / 4);
      Store(a / FRAME_SIZE, a % FRAME_SIZE / 4, WithByte(w, a % 4, b));
    }

    method Memcpy(dest: nat, src: nat, count: nat)
      requires Valid()
      modifies frames
      ensures Mem() == CopyBytes(old(Mem()), dest, src, count)
    {
      hide LoadByte, StoreByte;
      for i := 0 to count
        invariant Mem() == CopyBytes(old(Mem()), dest, src, i)
      {
        var b := LoadOne(src + i);
        StoreOne(dest + i, b);
      }
    }

    method Memset(dest: nat, b: Byte, count: nat)
      requires Valid()
      modifies frames
      ensures Mem() == SetBytes(old(Mem()), dest, b, count)
    {
      hide StoreByte;
      for i := 0 to count
        invariant Mem() == SetBytes(old(Mem()), dest, b, i)
      {
        StoreOne(dest + i, b);
      }
    }

    method CreatePageDirectory() returns (directory: Word)
      requires Valid()
      modifies frames, allocator.bitmap
      ensures directory == CreateDirectory(old(State()), kernelDirectory).0 * FRAME_SIZE
      ensures State() == CreateDirectory(old(State()), kernelDirectory).1
    {
      hide Alloc, UsedOf, SetBytes;
      directory := allocator.AllocFrame();
      if directory == 0 {
        return;
      }
      ghost var m := Mem();
      var d := directory / FRAME_SIZE;
      Memset(directory, 0, FRAME_SIZE);
      SetBytesIsZeroFrame(m, d);
      for i := KERNEL_PDT_IDX to ENTRIES
        invariant Mem() == WriteFrame(m, d, KernelEntries(kernelDirectory, i))
        invariant allocator.Pool() == Alloc(old(allocator.Pool())).1
      {
        Store(d, i, kernelDirectory[i]);
        OneMoreEntry(kernelDirectory, i);
      }
    }

    method MapPageAt(directory: Word, v: Word, physical: Word, flags: Word)
      requires Valid() && physical % FRAME_SIZE == 0 && flags < FRAME_SIZE
      modifies frames, allocator.bitmap
      ensures State() == MapPage(old(State()), directory / FRAME_SIZE, DirIndex(v), TabIndex(v), physical + flags)
    {
      hide Alloc, UsedOf, SetBytes, Present, DirIndex, TabIndex, FrameOf;
      var d, i, j := directory / FRAME_SIZE, DirIndex(v), TabIndex(v);
      ghost var s := State();
      var pde := Load(d, i);
      if !Present(pde) {
        var table := allocator.AllocFrame();
        if table == 0 {
          NoTableToMap(s, d, i, j, physical + flags);
          return;
        }
        ghost var m := Mem();
        Memset(table, 0, FRAME_SIZE);
        SetBytesIsZeroFrame(m, table / FRAME_SIZE);
        Store(d, i, table + (PAGE_PRESENT + PAGE_RW + PAGE_USER));
      }
      assert State() == EnsureTable(s, d, i);
      EnsuredPresent(s, d, i, j, physical + flags);
      pde := Load(d, i);
      Store(FrameOf(pde), j, physical + flags);
    }

    method UnmapPageAt(directory: Word, v: Word)
      requires Valid()
      modifies frames
      ensures Mem() == UnmapPage(old(Mem()), directory / FRAME_SIZE, DirIndex(v), TabIndex(v))
    {
      var d, i, j := directory / FRAME_SIZE, DirIndex(v), TabIndex(v);
      var pde := Load(d, i);
      if Present(pde) {
        Store(FrameOf(pde), j, 0);
      }
    }

    method PhysicalAddress(directory: Word, v: Word) returns (p: Word)
      requires Valid()
      ensures p == GetPhysicalAddress(Mem(), directory / FRAME_SIZE, v)
    {
      var pde := Load(directory / FRAME_SIZE, DirIndex(v));
      if !Present(pde) {
        return 0;
      }
      var pte := Load(FrameOf(pde), TabIndex(v));
      if !Present(pte) {
        return 0;
      }
      return FrameOf(pte) * FRAME_SIZE + Offset(v);
    }

    /** Returns whether the handler resumes the process; otherwise it has stopped the machine. */
    method PageFaultHandler(directory: Word, v: Word, error: ErrorCode) returns (resumed: bool)
      requires Valid()
      modifies frames, allocator.bitmap
      ensures match HandleFault(old(State()), directory / FRAME_SIZE, v, error)
              case Halted => !resumed
              case Resumed(r) => resumed && State() == r
    {
      hide Alloc, UsedOf, SetBytes, DirIndex, TabIndex, MapPage;
      if v >= KERNEL_VIRTUAL_START || error.present {
        return false;
      }
      var page := v / 0x1000 * 0x1000;
      var frame := allocator.AllocFrame();
      if frame == 0 {
        return false;
      }
      var flags: Word := PAGE_PRESENT + PAGE_USER;
      if error.write || page < KERNEL_VIRTUAL_START {
        flags := flags + PAGE_RW;
      }
      SamePagePosition(v);
      MapPageAt(directory, page, frame, flags);
      ghost var mapped := Mem();
      Memset(frame, 0, FRAME_SIZE);
      SetBytesIsZeroFrame(mapped, frame / FRAME_SIZE);
      return true;
    }
  }

  /** A cleared directory after the kernel's entries below i have been copied. */
  function KernelEntries(kdir: Frame, i: nat): (fr: Frame)
    requires KERNEL_PDT_IDX <= i <= ENTRIES
    ensures i == KERNEL_PDT_IDX ==> fr == ZeroFrame()
    ensures i == ENTRIES ==> fr == ZeroFrame()[..KERNEL_PDT_IDX] + kdir[KERNEL_PDT_IDX..]
  {
    ZeroFrame()[..KERNEL_PDT_IDX] + kdir[KERNEL_PDT_IDX..i] + ZeroFrame()[i..]
  }

  lemma OneMoreEntry(kdir: Frame, i: nat)
    requires KERNEL_PDT_IDX <= i < ENTRIES
    ensures KernelEntries(kdir, i)[i := kdir[i]] == KernelEntries(kdir, i + 1)
  {
  }

  lemma NoTableToMap(s: Ram, d: nat, i: nat, j: nat, e: Word)
    requires !Present(Pde(s.mem, d, i)) && Alloc(s.used).0 == 0
    ensures MapPage(s, d, i, j, e) == s.(used := Alloc(s.used).1)
  {
    hide Alloc, Present;
  }

  /** Once map_page has seen to a table, its directory entry is present. */
  lemma EnsuredPresent(s: Ram, d: nat, i: nat, j: nat, e: Word)
    requires i < ENTRIES && (Present(Pde(s.mem, d, i)) || Alloc(s.used).0 != 0)
    ensures var r := EnsureTable(s, d, i);
            MapPage(s, d, i, j, e) == r.(mem := WriteWord(r.mem, FrameOf(Pde(r.mem, d, i)), j, e))
  {
    hide Alloc, FrameOf;
  }

  lemma SamePagePosition(v: Word)
    ensures DirIndex(v / 0x1000 * 0x1000) == DirIndex(v) && TabIndex(v / 0x1000 * 0x1000) == TabIndex(v)
  {
  }
}

/** The RAM disk's image stays where the loader put it. Nothing reserves its frames, so processes may be given them;
    until they are, no run writes them. */
module InitrdInMemory {
  import opened Machine
  import opened Bytes
  import opened FramePool
  import opened Ownership
  import opened ImageContents
  import opened Processes
  import opened Isolation
  import opened Lifecycle
  import opened Runs
  import opened Theorems
  import opened BitmapInMemory
  import opened KernelInMemory
  import opened ShadowSpaces
  import opened ShadowRuns
  import opened CStrings
  import opened InitrdImage
  import opened InitrdReader

  /** The n bytes from address at on. */
  function ImageAt(m: Memory, at: nat, n: nat): seq<Byte> {
    seq<Byte>(n, x requires 0 <= x < n => LoadByte(m, at + x))
  }

  /** Every frame with one of these bytes is reserved, or has not been handed out. */
  ghost predicate NotHandedOut(used: Used, reserved: nat, at: nat, n: nat) {
    forall a {:trigger a / FRAME_SIZE} :: at <= a < at + n && a / FRAME_SIZE < TOTAL_FRAMES ==>
      a / FRAME_SIZE < reserved || !used[a / FRAME_SIZE]
  }

  /** A run writes no reserved frame, and none that is free when it ends. */
  lemma UntakenFramesStay(k: Kernel, own: map<nat, Use>, reserved: nat, q: seq<nat>, ops: seq<Op>, g: nat)
    requires Consistent(k, own, reserved, q) && PidsLast(k, ops) && g < TOTAL_FRAMES
    requires g < reserved || !Run(k, ops).ram.used[g]
    ensures Run(k, ops).ram.mem[g] == k.ram.mem[g]
  {
    hide Consistent, Run;
    var own', q' := RunConsistent(k, own, reserved, q, ops);
  }

  lemma SameBytes(m: Memory, m': Memory, at: nat, n: nat)
    requires at + n <= MEMORY_SIZE
    requires forall a {:trigger a / FRAME_SIZE} :: at <= a < at + n && a / FRAME_SIZE < TOTAL_FRAMES ==>
               m'[a / FRAME_SIZE] == m[a / FRAME_SIZE]
    ensures ImageAt(m', at, n) == ImageAt(m, at, n)
  {
    hide LoadByte;
    forall x {:trigger ImageAt(m', at, n)[x]} | 0 <= x < n
      ensures ImageAt(m', at, n)[x] == ImageAt(m, at, n)[x]
    {
      var a := at + x;
      InFrame(a);
      SameByteOfFrame(m, m', a);
    }
  }

  /** After any run the image is what it was, if none of its frames has been handed out. */
  lemma ImageStays(k: Kernel, own: map<nat, Use>, reserved: nat, q: seq<nat>, ops: seq<Op>, at: nat, n: nat)
    requires Consistent(k, own, reserved, q) && PidsLast(k, ops) && at + n <= MEMORY_SIZE
    requires NotHandedOut(Run(k, ops).ram.used, reserved, at, n)
    ensures ImageAt(Run(k, ops).ram.mem, at, n) == ImageAt(k.ram.mem, at, n)
  {
    hide Consistent, Run, ImageAt;
    forall a {:trigger a / FRAME_SIZE} | at <= a < at + n && a / FRAME_SIZE < TOTAL_FRAMES
      ensures Run(k, ops).ram.mem[a / FRAME_SIZE] == k.ram.mem[a / FRAME_SIZE]
    {
      UntakenFramesStay(k, own, reserved, q, ops, a / FRAME_SIZE);
    }
    SameBytes(k.ram.mem, Run(k, ops).ram.mem, at, n);
  }

  lemma BootMemory(mem: Memory, reserved: nat, kdir: Frame, a: nat)
    requires 0 < reserved <= COVERED && a < TOTAL_FRAMES && a != reserved - 1
    ensures BootIn(mem, reserved, kdir).ram.mem[a] == mem[a]
  {
    hide MarkedBitmap;
    MarkedFrames(mem, reserved - 1, reserved, 0);
  }

  /** The same from boot with the bitmap in memory: its own frame is the one reserved frame that is written. */
  lemma ImageStaysInMemory(mem: Memory, reserved: nat, kdir: Frame, k0: Kernel, ops: seq<Op>, at: nat, n: nat)
    requires 0 < reserved <= COVERED && |ops| < 0xFFFF_FFFF && k0 == BootIn(mem, reserved, kdir)
    requires Spare(Run(k0, ops).ram.used) && ModulesAvoid(ops, reserved - 1, FullWords(reserved))
    requires at + n <= MEMORY_SIZE && NotHandedOut(Run(k0, ops).ram.used, reserved - 1, at, n)
    ensures ImageAt(RunIn(k0, reserved - 1, ops).ram.mem, at, n) == ImageAt(mem, at, n)
  {
    hide Run, RunIn, BootIn, Spare, ModulesAvoid, Agrees, SameSpace, Consistent, FullWords, ImageAt, Shadowed;
    RunsWithTheBitmapInMemory(mem, reserved, kdir, k0, ops);
    BootShadow(mem, reserved, kdir);
    var own, q := RunConsistent(k0, map[], reserved, [], ops);
    BitmapStaysTaken(Run(k0, ops), own, reserved, q);
    var m' := RunIn(k0, reserved - 1, ops).ram.mem;
    forall a {:trigger a / FRAME_SIZE} | at <= a < at + n && a / FRAME_SIZE < TOTAL_FRAMES
      ensures m'[a / FRAME_SIZE] == mem[a / FRAME_SIZE]
    {
      UntakenFramesStay(k0, map[], reserved, [], ops, a / FRAME_SIZE);
      BootMemory(mem, reserved, kdir, a / FRAME_SIZE);
    }
    SameBytes(mem, m', at, n);
  }

  lemma BitmapStaysTaken(k: Kernel, own: map<nat, Use>, reserved: nat, q: seq<nat>)
    requires Consistent(k, own, reserved, q)
    ensures 0 < reserved <= TOTAL_FRAMES && k.ram.used[reserved - 1]
  {
    hide Separated, LiveDirs, ReadyList, Pids, Childless;
  }

  /** So files packed into the image are found and read back after the run as before it. */
  lemma FilesComeBackAfterRuns(mem: Memory, reserved: nat, kdir: Frame, k0: Kernel, ops: seq<Op>, at: nat,
                               inputs: seq<Input>, i: nat)
    requires 0 < reserved <= COVERED && |ops| < 0xFFFF_FFFF && k0 == BootIn(mem, reserved, kdir)
    requires Spare(Run(k0, ops).ram.used) && ModulesAvoid(ops, reserved - 1, FullWords(reserved))
    requires |ReadableOnes(inputs)| <= MAX_FILES && TotalSize(inputs) < 0x8000_0000 && GoodNames(ReadableOnes(inputs))
    requires at + |Pack(inputs)| <= MEMORY_SIZE && ImageAt(mem, at, |Pack(inputs)|) == Pack(inputs)
    requires NotHandedOut(Run(k0, ops).ram.used, reserved - 1, at, |Pack(inputs)|)
    requires i < |ReadableOnes(inputs)| && |ReadableOnes(inputs)[i].name| <= 31
    requires forall j :: 0 <= j < i ==> Prefix(ReadableOnes(inputs)[j].name, 31) != ReadableOnes(inputs)[i].name
    ensures var img := ImageAt(RunIn(k0, reserved - 1, ops).ram.mem, at, |Pack(inputs)|);
            var p := ReadableOnes(inputs)[i];
            && WellFormed(img) && Init(img) == InitrdReader.Ready && Reaches(img, p.name, i)
            && ComesBack(img, p.name, p.contents)
  {
    hide Run, RunIn, BootIn, Spare, ModulesAvoid, FullWords, ImageAt, Pack, Reaches, ComesBack, WellFormed, Init;
    hide NotHandedOut, ReadableOnes, TotalSize, GoodNames;
    ImageStaysInMemory(mem, reserved, kdir, k0, ops, at, |Pack(inputs)|);
    RoundTrip(inputs, i);
  }
}

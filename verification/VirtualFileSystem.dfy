/** fs/vfs.c as it runs: the static tables and buffers, updated in place. */
module VirtualFileSystem {
  import opened Machine
  import opened CStrings
  import opened InitrdImage
  import opened MountTable
  import InitrdReader
  import Initrd

  type Buffers = seq<array<Byte>>

  /** The text in each buffer. */
  ghost function Texts(buffers: Buffers): (t: seq<seq<Byte>>)
    reads buffers
    ensures |t| == |buffers|
  {
    if buffers == [] then [] else [Text(buffers[0][..], 0)] + Texts(buffers[1..])
  }

  lemma {:induction false} TextsAt(buffers: Buffers)
    ensures forall k :: 0 <= k < |buffers| ==> Texts(buffers)[k] == Text(buffers[k][..], 0)
  {
    if buffers != [] {
      TextsAt(buffers[1..]);
    }
  }

  /** Eight separate buffers of 256 bytes with a terminated text in each. */
  ghost predicate GoodBuffers(buffers: Buffers)
    reads buffers
  {
    && |buffers| == MAX_MOUNT_POINTS
    && (forall k :: 0 <= k < |buffers| ==> buffers[k].Length == MAX_PATH_LEN && Terminated(buffers[k][..], 0))
    && forall j, k :: 0 <= j < k < |buffers| ==> buffers[j] != buffers[k]
  }

  /** strncpy of 255 characters and a terminator in the last place. */
  method StoreText(buffer: array<Byte>, s: seq<Byte>, at: nat)
    requires Terminated(s, at) && buffer.Length == MAX_PATH_LEN
    modifies buffer
    ensures Terminated(buffer[..], 0) && Text(buffer[..], 0) == Kept(Text(s, at))
  {
    hide Text, Length;
    ghost var t := Text(s, at);
    Strncpy(buffer, s, at, MAX_PATH_LEN - 1);
    buffer[MAX_PATH_LEN - 1] := 0;
    TextHasNoZero(s, at);
    ghost var kept := Kept(t);
    assert buffer[0..0 + |kept|] == kept && buffer[|kept|] == 0;
    TextIs(buffer[..], 0, kept);
  }

  lemma TextHasNoZero(s: seq<Byte>, at: nat)
    requires at <= |s|
    ensures 0 !in Text(s, at) && 0 !in Kept(Text(s, at))
  {
  }

  /** strcpy from one buffer to another of the same size. */
  method MoveText(dest: array<Byte>, src: array<Byte>)
    requires dest != src && dest.Length == src.Length && Terminated(src[..], 0)
    modifies dest
    ensures Terminated(dest[..], 0) && Text(dest[..], 0) == Text(src[..], 0)
  {
    hide Text, Length;
    ghost var t := Text(src[..], 0);
    CharIs(src[..], 0, Length(src[..], 0));
    TextHasNoZero(src[..], 0);
    Strcpy(dest, src[..], 0);
    assert dest[0..0 + |t|] == t && dest[|t|] == 0;
    TextIs(dest[..], 0, t);
  }

  /** Static buffers start out zero. */
  method EmptyBuffers() returns (buffers: Buffers)
    ensures GoodBuffers(buffers) && fresh(buffers) && Texts(buffers) == NO_MOUNTS.paths
  {
    hide Texts;
    buffers := [];
    while |buffers| < MAX_MOUNT_POINTS
      invariant |buffers| <= MAX_MOUNT_POINTS && fresh(buffers)
      invariant forall k :: 0 <= k < |buffers| ==>
                  buffers[k].Length == MAX_PATH_LEN && Terminated(buffers[k][..], 0) && Text(buffers[k][..], 0) == []
      invariant forall j, k :: 0 <= j < k < |buffers| ==> buffers[j] != buffers[k]
    {
      var buffer := new Byte[MAX_PATH_LEN](_ => 0);
      buffers := buffers + [buffer];
    }
    TextsAt(buffers);
    assert Texts(buffers) == NO_MOUNTS.paths;
  }

  ghost predicate SeparateBuffers(a: Buffers, b: Buffers) {
    forall j, k :: 0 <= j < |a| && 0 <= k < |b| ==> a[j] != b[k]
  }

  method AllBuffers() returns (paths: Buffers, devices: Buffers)
    ensures GoodBuffers(paths) && fresh(paths) && Texts(paths) == NO_MOUNTS.paths
    ensures GoodBuffers(devices) && fresh(devices) && Texts(devices) == NO_MOUNTS.devices
    ensures SeparateBuffers(paths, devices)
  {
    hide Texts, GoodBuffers;
    paths := EmptyBuffers();
    devices := EmptyBuffers();
  }

  method StoreIn(buffers: Buffers, k: nat, s: seq<Byte>, at: nat)
    requires GoodBuffers(buffers) && k < MAX_MOUNT_POINTS && Terminated(s, at)
    modifies buffers[k]
    ensures GoodBuffers(buffers) && Texts(buffers) == old(Texts(buffers))[k := Kept(Text(s, at))]
  {
    hide Text, Length, Kept, Texts;
    TextsAt(buffers);
    StoreText(buffers[k], s, at);
    TextsAt(buffers);
  }

  method MoveDown(buffers: Buffers, j: nat)
    requires GoodBuffers(buffers) && j + 1 < MAX_MOUNT_POINTS
    modifies buffers[j]
    ensures GoodBuffers(buffers) && Texts(buffers) == old(Texts(buffers))[j := old(Texts(buffers))[j + 1]]
  {
    hide Text, Length, Texts;
    TextsAt(buffers);
    MoveText(buffers[j], buffers[j + 1]);
    TextsAt(buffers);
  }

  lemma FirstPath(v: Mounts, path: seq<Byte>, i: nat)
    requires MountTable.Valid(v) && i <= v.count && (i < v.count ==> PathOf(v, i) == path)
    requires forall k :: 0 <= k < i ==> PathOf(v, k) != path
    ensures FindPath(v, path, 0) == i
    ensures i == v.count <==> !Mounted(v, path)
  {
    hide FindPath;
  }

  // ---- The candidates of a lookup ----

  lemma NonePicked(v: Mounts, path: seq<Byte>)
    requires MountTable.Valid(v)
    ensures BestOf(v, path, 0, -1)
  {
  }

  function LengthOf(v: Mounts, r: int): nat
    requires MountTable.Valid(v) && r < v.count
  {
    if r < 0 then 0 else |PathOf(v, r)|
  }

  /** What an entry does to the best match so far. */
  lemma PickStep(v: Mounts, path: seq<Byte>, n: nat, r: int)
    requires MountTable.Valid(v) && n < v.count && BestOf(v, path, n, r)
    ensures -1 <= r < n
    ensures BestOf(v, path, n + 1, if Covers(v, n, path) && |PathOf(v, n)| > LengthOf(v, r) then n else r)
  {
    hide MountTable.Valid, PathOf;
    assert Covers(v, n, path) ==> PathOf(v, n) != [];
  }

  /** The root is not longer than anything else that covers an absolute path. */
  lemma RootIsShortest(v: Mounts, path: seq<Byte>, n: nat, r: int)
    requires MountTable.Valid(v) && n < v.count && BestOf(v, path, n, r) && PathOf(v, n) == [SLASH]
    ensures |PathOf(v, n)| > LengthOf(v, r) <==> LengthOf(v, r) == 0
  {
  }

  lemma RootCheck(mount: seq<Byte>, s: seq<Byte>, at: nat)
    requires Terminated(s, at) && |mount| == 1 && mount[0] == SLASH && s[at] == SLASH
    ensures Matches(mount, Text(s, at))
  {
  }

  /** The comparison of the general branch, for s the path as stored and mount any mount path it is asked about. */
  lemma PrefixCheck(mount: seq<Byte>, s: seq<Byte>, at: nat)
    requires Terminated(s, at)
    requires !(mount == [SLASH] && s[at] == SLASH)
    ensures var path := Text(s, at);
            Prefix(path, |mount|) == Prefix(mount, |mount|) ==>
              && at + |mount| < |s|
              && (Matches(mount, path) <==> mount != [] && (s[at + |mount|] == SLASH || s[at + |mount|] == 0))
    ensures Prefix(Text(s, at), |mount|) != Prefix(mount, |mount|) ==> !Matches(mount, Text(s, at))
  {
    hide Text, Length;
    var path := Text(s, at);
    CharIs(s, at, 0);
    PrefixIs(mount, path);
    if mount <= path {
      CharIs(s, at, |mount|);
    }
  }

  lemma PrefixIs(mount: seq<Byte>, path: seq<Byte>)
    ensures Prefix(path, |mount|) == Prefix(mount, |mount|) <==> mount <= path
  {
  }

  lemma BestInRange(v: Mounts, path: seq<Byte>, r: int)
    requires MountTable.Valid(v) && Best(v, path, r)
    ensures -1 <= r < v.count
  {
  }

  // ---- Opening files ----

  /** What opening a path comes to when the lookup found entry r: the whole path goes to the file system. */
  function OpenThrough(v: Mounts, r: int, image: seq<Byte>, path: seq<Byte>): InitrdReader.Opened
    requires MountTable.Valid(v) && -1 <= r < v.count && InitrdReader.WellFormed(image)
  {
    if r == -1 || v.entries[r].ops.NoOperations? then InitrdReader.NotFound else InitrdReader.Open(image, path)
  }

  /** The kernel's own table: the initrd mounted at "/" and nothing else. Then an absolute path opens what the
      initrd opens for it, and no other path opens. */
  lemma KernelOpensInitrd(device: seq<Byte>, data: Word, r: int, image: seq<Byte>, path: seq<Byte>)
    requires MountTable.Valid(MountFs(NO_MOUNTS, [SLASH], device, InitrdOperations, data).1)
    requires Best(MountFs(NO_MOUNTS, [SLASH], device, InitrdOperations, data).1, path, r)
    requires InitrdReader.WellFormed(image)
    ensures var v := MountFs(NO_MOUNTS, [SLASH], device, InitrdOperations, data).1;
            && -1 <= r < v.count
            && OpenThrough(v, r, image, path) ==
               if path != [] && path[0] == SLASH then InitrdReader.Open(image, path) else InitrdReader.NotFound
  {
    hide InitrdReader.Open, InitrdReader.WellFormed;
    RootTakesAbsolutePaths(device, InitrdOperations, data, path, r);
    MountAppends(NO_MOUNTS, [SLASH], device, InitrdOperations, data);
  }

  // ---- Using open files ----

  /** find_mount_point_by_inode returns the first mount point whatever the descriptor, or NULL when there is none. */
  predicate FirstServes(v: Mounts)
    requires MountTable.Valid(v)
  {
    v.count > 0 && v.entries[0].ops.InitrdOperations?
  }

  function ReadThrough(v: Mounts, image: seq<Byte>, fd: InitrdReader.Fd, size: Word): InitrdReader.ReadResult
    requires MountTable.Valid(v) && InitrdReader.WellFormed(image)
  {
    if FirstServes(v) then InitrdReader.Read(image, fd, size) else InitrdReader.ReadResult(-1, [], fd)
  }

  function SeekThrough(v: Mounts, image: seq<Byte>, fd: InitrdReader.Fd, offset: Word): (int, InitrdReader.Fd)
    requires MountTable.Valid(v) && InitrdReader.WellFormed(image)
  {
    if FirstServes(v) then InitrdReader.Seek(image, fd, offset) else (-1, fd)
  }

  function ReadDirThrough(v: Mounts, image: seq<Byte>, fd: InitrdReader.Fd, cursor: Word, size: Word)
    : (int, seq<Byte>, Word)
    requires MountTable.Valid(v) && InitrdReader.WellFormed(image) && size > 0
  {
    if FirstServes(v) then InitrdReader.ReadDir(image, fd, cursor, size) else (-1, [], cursor)
  }

  /** Calls of read_directory until one returns 0. */
  function ListThrough(v: Mounts, image: seq<Byte>, fd: InitrdReader.Fd, cursor: Word, size: Word)
    : (seq<seq<Byte>>, Word)
    requires MountTable.Valid(v) && FirstServes(v) && InitrdReader.WellFormed(image) && size > 0
    decreases InitrdReader.NumFiles(image) - cursor
  {
    var (r, name, cursor') := ReadDirThrough(v, image, fd, cursor, size);
    if r == 0 then ([], cursor') else var (rest, end) := ListThrough(v, image, fd, cursor', size); ([name] + rest, end)
  }

  lemma {:induction false} ListsThrough(v: Mounts, image: seq<Byte>, fd: InitrdReader.Fd, cursor: Word, size: Word)
    requires MountTable.Valid(v) && FirstServes(v) && InitrdReader.WellFormed(image) && size > 0
    ensures ListThrough(v, image, fd, cursor, size) == InitrdReader.ListDir(image, fd, cursor, size)
    decreases InitrdReader.NumFiles(image) - cursor
  {
    hide FileAt, InitrdReader.FileFits, InitrdReader.NameOf, MountTable.Valid;
    var (r, name, cursor') := ReadDirThrough(v, image, fd, cursor, size);
    if r != 0 {
      ListsThrough(v, image, fd, cursor', size);
    }
  }

  /** The kernel's own mount: "/" opens as a directory that lists every file of the image once, in order, and cannot
      be read as a file. */
  lemma KernelListsInitrd(v: Mounts, device: seq<Byte>, data: Word, r: int, image: seq<Byte>, size: Word)
    requires v == MountFs(NO_MOUNTS, [0x2F], device, InitrdOperations, data).1 && MountTable.Valid(v)
    requires Best(v, [0x2F], r)
    requires InitrdReader.WellFormed(image) && size > 0
    ensures -1 <= r < v.count && FirstServes(v) && OpenThrough(v, r, image, [0x2F]).Found?
    ensures var fd := OpenThrough(v, r, image, [0x2F]).fd;
            var (names, end) := ListThrough(v, image, fd, 0, size);
            && end == 0 && |names| == InitrdReader.NumFiles(image)
            && (forall n :: 0 <= n < |names| ==> names[n] == Prefix(InitrdReader.NameOf(image, n), size - 1))
            && ReadThrough(v, image, fd, size).count == -1
  {
    hide InitrdReader.Open, InitrdReader.WellFormed, InitrdReader.Read, InitrdReader.ReadDir, InitrdReader.ListDir;
    hide InitrdReader.NameOf, ListThrough, Prefix;
    KernelOpensInitrd(device, data, r, image, [0x2F]);
    MountAppends(NO_MOUNTS, [0x2F], device, InitrdOperations, data);
    InitrdReader.RootLists(image, 0, size);
    ListsThrough(v, image, InitrdReader.Open(image, [0x2F]).fd, 0, size);
  }

  /** With a file system without operations mounted first, files of the initrd at "/" still open, but every read,
      seek and listing of theirs goes to the first mount point and fails. */
  lemma FirstMountIsAskedForAll(device: seq<Byte>, data: Word, image: seq<Byte>, path: seq<Byte>, r: int,
                                fd: InitrdReader.Fd, size: Word)
    requires InitrdReader.WellFormed(image) && size > 0 && path != [] && path[0] == 0x2F
    requires !Matches([0x2F, 0x64], path)
    requires Best(MountAll(NO_MOUNTS, [Request([0x2F, 0x64], device, NoOperations, data),
                                       Request([0x2F], device, InitrdOperations, data)]), path, r)
    ensures var v := MountAll(NO_MOUNTS, [Request([0x2F, 0x64], device, NoOperations, data),
                                          Request([0x2F], device, InitrdOperations, data)]);
            && r == 1 && r < v.count && OpenThrough(v, r, image, path) == InitrdReader.Open(image, path)
            && ReadThrough(v, image, fd, size).count == -1 && SeekThrough(v, image, fd, size).0 == -1
            && ReadDirThrough(v, image, fd, 0, size).0 == -1
  {
    hide InitrdReader.Open, InitrdReader.WellFormed, Matches, MountAll, Granted, MountTable.Valid, Clean, PathOf;
    hide DeviceOf;
    var a, b := Request([0x2F, 0x64], device, NoOperations, data), Request([0x2F], device, InitrdOperations, data);
    LookupFindsTheRequest([a, b], path, r);
    TwoGranted(a, b);
    RootCovers(path);
    EmptyHolds();
    MountsHold(NO_MOUNTS, [], [a, b]);
    FirstHeld(MountAll(NO_MOUNTS, [a, b]), [a, b]);
    var granted := [a, b];
    assert Matches(Prefix(granted[1].path, 255), path) && !Matches(Prefix(granted[0].path, 255), path);
    assert r == 1;
  }

  lemma FirstHeld(v: Mounts, granted: seq<Request>)
    requires MountTable.Valid(v) && HoldsRequests(v, granted) && granted != []
    ensures v.count > 0 && v.entries[0].ops == granted[0].ops
  {
    assert Serves(v, 0, granted[0]);
  }

  lemma TwoGranted(a: Request, b: Request)
    requires a.path == [0x2F, 0x64] && b.path == [0x2F]
    ensures Granted([], [a, b]) == [a, b] && Prefix(a.path, 255) == a.path && Prefix(b.path, 255) == b.path
  {
    assert [a, b][1..] == [b] && [b][1..] == [];
    assert Granted([a, b], []) == [a, b];
    assert [a] + [b] == [a, b];
    assert Granted([a], [b]) == [a, b];
    assert [] + [a] == [a];
  }

  lemma RootCovers(path: seq<Byte>)
    requires path != [] && path[0] == 0x2F
    ensures Matches([0x2F], path)
  {
  }

  class Vfs {
    const mountPoints: array<Entry>
    var numMountPoints: nat
    const pathBuffers: Buffers
    const deviceBuffers: Buffers

    ghost predicate Valid()
      reads this, mountPoints, pathBuffers, deviceBuffers
    {
      && GoodBuffers(pathBuffers) && GoodBuffers(deviceBuffers)
      && SeparateBuffers(pathBuffers, deviceBuffers)
      && mountPoints.Length == MAX_MOUNT_POINTS && numMountPoints <= MAX_MOUNT_POINTS
      && MountTable.Valid(Value())
    }

    ghost function Value(): Mounts
      reads this, mountPoints, pathBuffers, deviceBuffers
    {
      Mounts(numMountPoints, mountPoints[..], Texts(pathBuffers), Texts(deviceBuffers))
    }

    /** init_vfs. */
    constructor ()
      ensures Valid() && Value() == NO_MOUNTS
      ensures fresh(mountPoints) && fresh(pathBuffers) && fresh(deviceBuffers)
    {
      hide Texts, GoodBuffers, SeparateBuffers;
      numMountPoints := 0;
      mountPoints := new Entry[MAX_MOUNT_POINTS](_ => Entry(0, 0, NoOperations, 0));
      var paths, devices := AllBuffers();
      pathBuffers, deviceBuffers := paths, devices;
      new;
      assert mountPoints[..] == NO_MOUNTS.entries;
      assert Value() == NO_MOUNTS;
    }

    /** The loop that looks for an entry with the given path: its number, or the number of entries. */
    method FindEntry(path: seq<Byte>, at: nat) returns (i: nat)
      requires Valid() && Terminated(path, at)
      ensures i == FindPath(Value(), Text(path, at), 0)
      ensures i == numMountPoints <==> !Mounted(Value(), Text(path, at))
    {
      hide Text, Length, FindPath, Mounted, Texts;
      ghost var v, p := Value(), Text(path, at);
      i := 0;
      while i < numMountPoints
        invariant i <= numMountPoints && forall k :: 0 <= k < i ==> PathOf(v, k) != p
      {
        var c := Strcmp(pathBuffers[mountPoints[i].path][..], 0, path, at);
        IsPathOf(i);
        if c == 0 {
          FirstPath(v, p, i);
          return;
        }
        i := i + 1;
      }
      FirstPath(v, p, i);
    }

    method MountFs(path: seq<Byte>, pathAt: nat, device: seq<Byte>, deviceAt: nat, ops: Operations, data: Word)
      returns (r: int)
      requires Valid() && Terminated(path, pathAt) && Terminated(device, deviceAt)
      modifies this, mountPoints, pathBuffers, deviceBuffers
      ensures Valid()
      ensures (r, Value()) == MountTable.MountFs(old(Value()), Text(path, pathAt), Text(device, deviceAt), ops, data)
    {
      hide Text, Length, FindPath, Mounted, Kept, Texts;
      if numMountPoints >= MAX_MOUNT_POINTS {
        return -1;
      }
      var i := FindEntry(path, pathAt);
      if i < numMountPoints {
        return -1;
      }
      AddEntry(path, pathAt, device, deviceAt, ops, data);
      return 0;
    }

    method AddEntry(path: seq<Byte>, pathAt: nat, device: seq<Byte>, deviceAt: nat, ops: Operations, data: Word)
      requires Valid() && numMountPoints < MAX_MOUNT_POINTS && Terminated(path, pathAt) && Terminated(device, deviceAt)
      modifies this, mountPoints, pathBuffers, deviceBuffers
      ensures Valid()
      ensures Value() == Added(old(Value()), Text(path, pathAt), Text(device, deviceAt), ops, data)
    {
      hide Text, Length, Kept, Texts;
      ghost var v := Value();
      var idx := numMountPoints;
      StoreIn(pathBuffers, idx, path, pathAt);
      StoreIn(deviceBuffers, idx, device, deviceAt);
      assert GoodBuffers(pathBuffers) && GoodBuffers(deviceBuffers);
      assert |pathBuffers| == |deviceBuffers| == MAX_MOUNT_POINTS;
      hide GoodBuffers;
      mountPoints[idx] := Entry(idx, idx, ops, data);
      numMountPoints := numMountPoints + 1;
      assert mountPoints[..] == v.entries[idx := Entry(idx, idx, ops, data)];
      assert Value() == Added(v, Text(path, pathAt), Text(device, deviceAt), ops, data);
    }

    method UnmountFs(path: seq<Byte>, at: nat) returns (r: int)
      requires Valid() && Terminated(path, at)
      modifies this, mountPoints, pathBuffers, deviceBuffers
      ensures Valid()
      ensures (r, Value()) == MountTable.UnmountFs(old(Value()), Text(path, at))
    {
      hide Text, Length, FindPath, Mounted, Texts;
      ghost var v := Value();
      var i := FindEntry(path, at);
      if i == numMountPoints {
        return -1;
      }
      var j := i;
      while j < numMountPoints - 1
        invariant i <= j < numMountPoints == old(numMountPoints) && Valid()
        invariant ShiftFrom(Value(), j) == ShiftFrom(v, i)
      {
        ShiftDown(j);
        j := j + 1;
      }
      numMountPoints := numMountPoints - 1;
      return 0;
    }

    /** One round of the shifting loop. */
    method ShiftDown(j: nat)
      requires Valid() && j + 1 < numMountPoints
      modifies mountPoints, pathBuffers, deviceBuffers
      ensures Valid() && ShiftFrom(Value(), j + 1) == ShiftFrom(old(Value()), j)
    {
      hide Text, Length, Texts;
      ghost var v := Value();
      mountPoints[j] := mountPoints[j + 1];
      MoveDown(pathBuffers, j);
      MoveDown(deviceBuffers, j);
      assert mountPoints[..] == v.entries[j := v.entries[j + 1]];
    }

    /** The number of the entry found, or -1. */
    method FindMountPoint(path: seq<Byte>, at: nat) returns (best: int)
      requires Valid() && Terminated(path, at)
      ensures Best(Value(), Text(path, at), best)
    {
      hide Text, Length, PathOf, BestOf, Matches, Prefix, Texts;
      ghost var v, p := Value(), Text(path, at);
      best := -1;
      var bestLen := 0;
      CharIs(path, at, 0);
      NonePicked(v, p);
      for i := 0 to numMountPoints
        invariant -1 <= best < i && BestOf(v, p, i, best) && bestLen == LengthOf(v, best)
      {
        PickStep(v, p, i, best);
        ghost var mount := PathOf(v, i);
        var mountPath := pathBuffers[mountPoints[i].path][..];
        IsPathOf(i);
        var len := Strlen(mountPath, 0);
        CharIs(mountPath, 0, 0);
        if len == 1 && mountPath[0] == SLASH && path[at] == SLASH {
          RootIsShortest(v, p, i, best);
          RootCheck(mount, path, at);
          if bestLen == 0 {
            best, bestLen := i, 1;
          }
        } else {
          PrefixCheck(mount, path, at);
          var c := Strncmp(path, at, mountPath, 0, len);
          if c == 0 {
            if path[at + len] == SLASH || path[at + len] == 0 {
              if len > bestLen {
                best, bestLen := i, len;
              }
            }
          }
        }
      }
    }

    /** The entry found is returned beside the result. A failed open leaves the descriptor as it was. */
    method OpenFile(path: seq<Byte>, at: nat, fd: Initrd.Descriptor, disk: Initrd.Ramdisk)
      returns (r: int, ghost entry: int)
      requires Valid() && Terminated(path, at) && InitrdReader.WellFormed(disk.image)
      modifies fd
      ensures Best(Value(), Text(path, at), entry) && -1 <= entry < numMountPoints
      ensures match OpenThrough(Value(), entry, disk.image, Text(path, at))
              case NotFound => r == -1 && fd.Value() == old(fd.Value())
              case Found(v) => r == 0 && fd.Value() == v
    {
      hide Text, Length, InitrdReader.Open, InitrdReader.WellFormed, BestOf, Texts;
      var mount := FindMountPoint(path, at);
      entry := mount;
      BestInRange(Value(), Text(path, at), mount);
      if mount == -1 || mountPoints[mount].ops.NoOperations? {
        return -1, mount;
      }
      r := disk.OpenFile(path, at, fd);
    }

    /** read_file, seek_file and read_directory all ask the first mount point. */
    method ReadFile(fd: Initrd.Descriptor, buffer: array<Byte>, size: Word, disk: Initrd.Ramdisk) returns (r: int)
      requires Valid() && InitrdReader.WellFormed(disk.image) && size <= buffer.Length
      requires SeparateBuffers([buffer], pathBuffers) && SeparateBuffers([buffer], deviceBuffers)
      modifies fd, buffer
      ensures var result := ReadThrough(old(Value()), disk.image, old(fd.Value()), size);
              && r == result.count && fd.Value() == result.fd
              && |result.bytes| <= buffer.Length && buffer[..] == result.bytes + old(buffer[|result.bytes|..])
    {
      hide InitrdReader.Read, InitrdReader.WellFormed, Texts, GoodBuffers;
      if numMountPoints == 0 || mountPoints[0].ops.NoOperations? {
        return -1;
      }
      r := disk.ReadFile(fd, buffer, size);
    }

    method SeekFile(fd: Initrd.Descriptor, offset: Word, disk: Initrd.Ramdisk) returns (r: int)
      requires Valid() && InitrdReader.WellFormed(disk.image)
      modifies fd
      ensures (r, fd.Value()) == SeekThrough(old(Value()), disk.image, old(fd.Value()), offset)
    {
      hide InitrdReader.Seek, InitrdReader.WellFormed, Texts, GoodBuffers;
      if numMountPoints == 0 || mountPoints[0].ops.NoOperations? {
        return -1;
      }
      r := disk.SeekFile(fd, offset);
    }

    method ReadDirectory(fd: Initrd.Descriptor, name: array<Byte>, size: Word, disk: Initrd.Ramdisk) returns (r: int)
      requires Valid() && InitrdReader.WellFormed(disk.image) && 0 < size <= name.Length
      requires SeparateBuffers([name], pathBuffers) && SeparateBuffers([name], deviceBuffers)
      modifies disk, name
      ensures var (n, text, cursor) := ReadDirThrough(old(Value()), disk.image, old(fd.Value()), old(disk.currentFile),
                size);
              && r == n && disk.currentFile == cursor
              && name[..] == if n == 1 then Padded(text, size) + old(name[size..]) else old(name[..])
    {
      hide InitrdReader.ReadDir, InitrdReader.WellFormed, Texts, GoodBuffers;
      if numMountPoints == 0 || mountPoints[0].ops.NoOperations? {
        return -1;
      }
      r := disk.ReadDirectory(fd, name, size);
    }

    lemma IsPathOf(i: nat)
      requires Valid() && i < numMountPoints
      ensures mountPoints[i].path < |pathBuffers|
      ensures PathOf(Value(), i) == Text(pathBuffers[mountPoints[i].path][..], 0)
    {
      TextsAt(pathBuffers);
    }
  }
}

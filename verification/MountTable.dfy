/** The mount table of fs/vfs.c as a value, and what a lookup in it is meant to find. */
module MountTable {
  import opened Machine
  import opened CStrings
  import opened InitrdImage

  const MAX_MOUNT_POINTS: nat := 8
  const MAX_PATH_LEN: nat := 256

  /** A table of file-system operations: the initrd's, or one in which all are missing. */
  datatype Operations = InitrdOperations | NoOperations

  /** A mount point. Its path and device are pointers, here the numbers of the buffers they point to. */
  datatype Entry = Entry(path: nat, device: nat, ops: Operations, privateData: Word)

  datatype Mounts = Mounts(count: nat, entries: seq<Entry>, paths: seq<seq<Byte>>, devices: seq<seq<Byte>>)

  predicate Valid(v: Mounts) {
    && v.count <= |v.entries| == |v.paths| == |v.devices| == MAX_MOUNT_POINTS
    && forall i :: 0 <= i < v.count ==> v.entries[i].path < MAX_MOUNT_POINTS && v.entries[i].device < MAX_MOUNT_POINTS
  }

  function PathOf(v: Mounts, i: nat): seq<Byte>
    requires Valid(v) && i < v.count
  {
    v.paths[v.entries[i].path]
  }

  function DeviceOf(v: Mounts, i: nat): seq<Byte>
    requires Valid(v) && i < v.count
  {
    v.devices[v.entries[i].device]
  }

  predicate Mounted(v: Mounts, path: seq<Byte>)
    requires Valid(v)
  {
    exists i :: 0 <= i < v.count && PathOf(v, i) == path
  }

  /** What a buffer of MAX_PATH_LEN characters keeps of a text. */
  function Kept(t: seq<Byte>): seq<Byte> { Prefix(t, MAX_PATH_LEN - 1) }

  function Added(v: Mounts, path: seq<Byte>, device: seq<Byte>, ops: Operations, data: Word): (w: Mounts)
    requires Valid(v) && v.count < MAX_MOUNT_POINTS
    ensures Valid(w)
  {
    Mounts(v.count + 1, v.entries[v.count := Entry(v.count, v.count, ops, data)],
           v.paths[v.count := Kept(path)], v.devices[v.count := Kept(device)])
  }

  function MountFs(v: Mounts, path: seq<Byte>, device: seq<Byte>, ops: Operations, data: Word): (int, Mounts)
    requires Valid(v)
  {
    if v.count >= MAX_MOUNT_POINTS || Mounted(v, path) then (-1, v)
    else (0, Added(v, path, device, ops, data))
  }

  /** The shifting loop of unmount_fs from place j on: it moves the pointers and also what they point to. */
  function ShiftFrom(v: Mounts, j: nat): (r: Mounts)
    requires Valid(v)
    ensures Valid(r) && r.count == v.count
    decreases v.count - j
  {
    if j + 1 >= v.count then v
    else ShiftFrom(Mounts(v.count, v.entries[j := v.entries[j + 1]],
                          v.paths[j := v.paths[j + 1]], v.devices[j := v.devices[j + 1]]), j + 1)
  }

  function FindPath(v: Mounts, path: seq<Byte>, i: nat): (r: nat)
    requires Valid(v) && i <= v.count
    ensures i <= r <= v.count && (r < v.count ==> PathOf(v, r) == path)
    ensures forall k :: i <= k < r ==> PathOf(v, k) != path
    decreases v.count - i
  {
    if i == v.count || PathOf(v, i) == path then i else FindPath(v, path, i + 1)
  }

  function UnmountFs(v: Mounts, path: seq<Byte>): (int, Mounts)
    requires Valid(v)
  {
    var i := FindPath(v, path, 0);
    if i == v.count then (-1, v) else (0, ShiftFrom(v, i).(count := v.count - 1))
  }

  // ---- Lookup ----

  /** A mount at "/" covers every absolute path; any other nonempty mount path covers itself and what is below it. */
  predicate Matches(mount: seq<Byte>, path: seq<Byte>) {
    if mount == [SLASH] then path != [] && path[0] == SLASH
    else mount != [] && mount <= path && (|path| == |mount| || path[|mount|] == SLASH)
  }

  /** In terms of texts: the mount path itself, or it, a slash and anything more; for "/" anything after the slash. */
  lemma MatchesIff(mount: seq<Byte>, path: seq<Byte>)
    ensures mount == [0x2F] ==> (Matches(mount, path) <==> exists rest :: path == [0x2F] + rest)
    ensures mount != [0x2F] ==>
              (Matches(mount, path) <==> mount != [] && (path == mount || exists rest :: path == mount + [0x2F] + rest))
  {
    if Matches(mount, path) {
      if mount == [0x2F] {
        assert path == [0x2F] + path[1..];
      } else if path != mount {
        assert path == mount + [0x2F] + path[|mount| + 1..];
      }
    }
  }

  ghost predicate Covers(v: Mounts, i: nat, path: seq<Byte>)
    requires Valid(v) && i < v.count
  {
    Matches(PathOf(v, i), path)
  }

  /** Among the first n entries r is the first of the longest that cover the path, and -1 when none does. */
  ghost predicate BestOf(v: Mounts, path: seq<Byte>, n: nat, r: int)
    requires Valid(v) && n <= v.count
  {
    if r == -1 then forall i :: 0 <= i < n ==> !Covers(v, i, path)
    else
      && 0 <= r < n && Covers(v, r, path)
      && forall i :: 0 <= i < n && Covers(v, i, path) ==>
           |PathOf(v, i)| <= |PathOf(v, r)| && (i < r ==> |PathOf(v, i)| < |PathOf(v, r)|)
  }

  /** The entry a lookup is meant to find. */
  ghost predicate Best(v: Mounts, path: seq<Byte>, r: int)
    requires Valid(v)
  {
    BestOf(v, path, v.count, r)
  }

  ghost predicate Distinct(v: Mounts)
    requires Valid(v)
  {
    forall i, j :: 0 <= i < j < v.count ==> PathOf(v, i) != PathOf(v, j)
  }

  /** Every entry has its own buffers, the ones mount_fs gave it. */
  predicate Clean(v: Mounts)
    requires Valid(v)
  {
    forall i :: 0 <= i < v.count ==> v.entries[i].path == i && v.entries[i].device == i
  }

  lemma OneCoveringPathPerLength(a: seq<Byte>, b: seq<Byte>, path: seq<Byte>)
    requires Matches(a, path) && Matches(b, path) && |a| == |b|
    ensures a == b
  {
    assert a != [SLASH] ==> a == path[..|a|];
    assert b != [SLASH] ==> b == path[..|b|];
  }

  /** When the paths differ pairwise, the entry found is longer than every other that covers the path. */
  lemma BestIsUnique(v: Mounts, path: seq<Byte>, r: int)
    requires Valid(v) && Distinct(v) && Best(v, path, r) && r != -1
    ensures forall i :: 0 <= i < v.count && i != r && Covers(v, i, path) ==> |PathOf(v, i)| < |PathOf(v, r)|
  {
    forall i | 0 <= i < v.count && i != r && Covers(v, i, path)
      ensures |PathOf(v, i)| < |PathOf(v, r)|
    {
      if |PathOf(v, i)| == |PathOf(v, r)| {
        OneCoveringPathPerLength(PathOf(v, i), PathOf(v, r), path);
        assert false;
      }
    }
  }

  ghost predicate SomeCover(v: Mounts, path: seq<Byte>)
    requires Valid(v)
  {
    exists i :: 0 <= i < v.count && Covers(v, i, path)
  }

  lemma BestCovers(v: Mounts, path: seq<Byte>, r: int)
    requires Valid(v) && Best(v, path, r)
    ensures r == -1 <==> !SomeCover(v, path)
  {
  }

  /** The paths of v are paths of w. */
  ghost predicate PathsIn(v: Mounts, w: Mounts)
    requires Valid(v) && Valid(w)
  {
    forall i :: 0 <= i < v.count ==> Mounted(w, PathOf(v, i))
  }

  lemma LongestIn(v: Mounts, w: Mounts, path: seq<Byte>, r: int, q: int)
    requires Valid(v) && Valid(w) && PathsIn(v, w) && Best(v, path, r) && Best(w, path, q) && r != -1
    ensures q != -1 && |PathOf(v, r)| <= |PathOf(w, q)|
  {
    var k :| 0 <= k < w.count && PathOf(w, k) == PathOf(v, r);
    assert Covers(v, r, path);
    assert Covers(w, k, path);
  }

  /** What is found does not depend on the order in which the paths were mounted. */
  lemma OrderDoesNotMatter(v: Mounts, w: Mounts, path: seq<Byte>, r: int, q: int)
    requires Valid(v) && Valid(w) && PathsIn(v, w) && PathsIn(w, v) && Best(v, path, r) && Best(w, path, q)
    ensures r == -1 <==> q == -1
    ensures r != -1 ==> PathOf(v, r) == PathOf(w, q)
  {
    hide Valid, Matches, Mounted, PathOf;
    if r != -1 {
      LongestIn(v, w, path, r, q);
    }
    if q != -1 {
      LongestIn(w, v, path, q, r);
    }
    if r != -1 {
      assert Covers(v, r, path) && Covers(w, q, path);
      OneCoveringPathPerLength(PathOf(v, r), PathOf(w, q), path);
    }
  }

  // ---- Mounting ----

  lemma MountKeepsValid(v: Mounts, path: seq<Byte>, device: seq<Byte>, ops: Operations, data: Word)
    requires Valid(v)
    ensures Valid(MountFs(v, path, device, ops, data).1)
  {
  }

  /** The paths of a clean table after a mount. */
  lemma MountAppends(v: Mounts, path: seq<Byte>, device: seq<Byte>, ops: Operations, data: Word)
    requires Valid(v) && Clean(v) && MountFs(v, path, device, ops, data).0 == 0
    ensures var w := MountFs(v, path, device, ops, data).1;
            && Valid(w) && Clean(w) && w.count == v.count + 1 && PathOf(w, v.count) == Kept(path)
            && forall i :: 0 <= i < v.count ==> PathOf(w, i) == PathOf(v, i)
  {
  }

  /** Entry i is what the request asked for, path and device cut to 255 characters. */
  ghost predicate Serves(v: Mounts, i: nat, r: Request)
    requires Valid(v) && i < v.count
  {
    && PathOf(v, i) == Prefix(r.path, 255) && DeviceOf(v, i) == Prefix(r.device, 255)
    && v.entries[i].ops == r.ops && v.entries[i].privateData == r.data
  }

  /** Everything a mount stores in a clean table; the entries before keep everything they had. A mount is refused
      exactly when the table is full or the path is in it, and then changes nothing. */
  lemma MountStores(v: Mounts, r: Request)
    requires Valid(v) && Clean(v)
    ensures var (result, w) := MountFs(v, r.path, r.device, r.ops, r.data);
            if v.count == 8 || Mounted(v, r.path) then result == -1 && w == v
            else
              && result == 0 && Valid(w) && Clean(w) && w.count == v.count + 1 && Serves(w, v.count, r)
              && forall i :: 0 <= i < v.count ==>
                   && PathOf(w, i) == PathOf(v, i) && DeviceOf(w, i) == DeviceOf(v, i)
                   && w.entries[i].ops == v.entries[i].ops && w.entries[i].privateData == v.entries[i].privateData
  {
    hide Mounted;
  }

  /** The duplicate check compares the whole new path, but the buffer keeps 255 characters of it: the paths stay
      different exactly when the kept part is not mounted yet. */
  lemma MountKeepsDistinctIff(v: Mounts, path: seq<Byte>, device: seq<Byte>, ops: Operations, data: Word)
    requires Valid(v) && Clean(v) && Distinct(v) && MountFs(v, path, device, ops, data).0 == 0
    ensures Valid(MountFs(v, path, device, ops, data).1)
    ensures Distinct(MountFs(v, path, device, ops, data).1) <==> !Mounted(v, Kept(path))
    ensures |path| < MAX_PATH_LEN ==> Distinct(MountFs(v, path, device, ops, data).1)
  {
    hide Valid, Clean, Kept;
    MountAppends(v, path, device, ops, data);
    var w := MountFs(v, path, device, ops, data).1;
    hide MountFs;
    if Mounted(v, Kept(path)) {
      var i :| 0 <= i < v.count && PathOf(v, i) == Kept(path);
      assert PathOf(w, i) == PathOf(w, v.count);
    } else {
      forall i, j | 0 <= i < j < w.count
        ensures PathOf(w, i) != PathOf(w, j)
      {
      }
    }
    if |path| < MAX_PATH_LEN {
      KeptWhole(path);
      NotMountedTwice(v, path, device, ops, data);
    }
  }

  lemma KeptWhole(t: seq<Byte>)
    requires |t| < MAX_PATH_LEN
    ensures Kept(t) == t
  {
  }

  lemma NotMountedTwice(v: Mounts, path: seq<Byte>, device: seq<Byte>, ops: Operations, data: Word)
    requires Valid(v) && MountFs(v, path, device, ops, data).0 == 0
    ensures !Mounted(v, path)
  {
  }

  /** A path of 256 or more characters can be mounted twice in a row: its duplicate is not seen. */
  lemma LongPathsMountTwice(v: Mounts, path: seq<Byte>, device: seq<Byte>, ops: Operations, data: Word)
    requires Valid(v) && Clean(v) && v.count + 2 <= MAX_MOUNT_POINTS && |path| >= MAX_PATH_LEN
    requires forall i :: 0 <= i < v.count ==> |PathOf(v, i)| < MAX_PATH_LEN
    ensures var (r1, w) := MountFs(v, path, device, ops, data);
            && r1 == 0 && Valid(w) && MountFs(w, path, device, ops, data).0 == 0
  {
    assert !Mounted(v, path);
    MountAppends(v, path, device, ops, data);
  }

  /** A call to mount_fs. */
  datatype Request = Request(path: seq<Byte>, device: seq<Byte>, ops: Operations, data: Word)

  const NO_MOUNTS := Mounts(0, seq(MAX_MOUNT_POINTS, _ => Entry(0, 0, NoOperations, 0)),
                            seq(MAX_MOUNT_POINTS, _ => []), seq(MAX_MOUNT_POINTS, _ => []))

  function MountAll(v: Mounts, requests: seq<Request>): (w: Mounts)
    requires Valid(v)
    ensures Valid(w)
    decreases |requests|
  {
    if requests == [] then v
    else
      var r := requests[0];
      MountKeepsValid(v, r.path, r.device, r.ops, r.data);
      MountAll(MountFs(v, r.path, r.device, r.ops, r.data).1, requests[1..])
  }

  /** The requests that are granted, in order: while there is room, those whose path is not the kept path of one
      granted before. */
  ghost function Granted(before: seq<Request>, requests: seq<Request>): seq<Request>
    decreases |requests|
  {
    if requests == [] then before
    else
      var r := requests[0];
      var refused := |before| >= 8 || exists i :: 0 <= i < |before| && Prefix(before[i].path, 255) == r.path;
      Granted(if refused then before else before + [r], requests[1..])
  }

  /** The table is the list of requests granted. */
  ghost predicate HoldsRequests(v: Mounts, granted: seq<Request>)
    requires Valid(v)
  {
    Clean(v) && v.count == |granted| <= 8 && forall i :: 0 <= i < v.count ==> Serves(v, i, granted[i])
  }

  lemma MountHolds(v: Mounts, before: seq<Request>, r: Request)
    requires Valid(v) && HoldsRequests(v, before)
    ensures var w := MountFs(v, r.path, r.device, r.ops, r.data).1;
            var refused := |before| >= 8 || exists i :: 0 <= i < |before| && Prefix(before[i].path, 255) == r.path;
            Valid(w) && HoldsRequests(w, if refused then before else before + [r])
  {
    hide Valid, Clean, DeviceOf, Prefix, PathOf;
    MountStores(v, r);
    hide MountFs;
    if Mounted(v, r.path) {
      var i :| 0 <= i < v.count && PathOf(v, i) == r.path;
      assert Serves(v, i, before[i]);
    }
  }

  /** After any sequence of mounts the table holds the requests granted: path, device, operations and data. */
  lemma {:induction false} MountsHold(v: Mounts, before: seq<Request>, requests: seq<Request>)
    requires Valid(v) && HoldsRequests(v, before)
    ensures HoldsRequests(MountAll(v, requests), Granted(before, requests))
    decreases |requests|
  {
    hide Valid, HoldsRequests, MountFs;
    if requests != [] {
      var r := requests[0];
      MountHolds(v, before, r);
      var refused := |before| >= 8 || exists i :: 0 <= i < |before| && Prefix(before[i].path, 255) == r.path;
      MountsHold(MountFs(v, r.path, r.device, r.ops, r.data).1, if refused then before else before + [r],
                 requests[1..]);
    }
  }

  /** From an empty table, a lookup finds the entry of a request that was granted and covers the path, a longest such,
      with its device, operations and data; it finds nothing exactly when no granted request covers the path. */
  lemma LookupFindsTheRequest(requests: seq<Request>, path: seq<Byte>, r: int)
    requires Best(MountAll(NO_MOUNTS, requests), path, r)
    ensures var (v, granted) := (MountAll(NO_MOUNTS, requests), Granted([], requests));
            && v.count == |granted| && -1 <= r < v.count
            && (r == -1 <==> forall i :: 0 <= i < |granted| ==> !Matches(Prefix(granted[i].path, 255), path))
            && (r != -1 ==>
                  && Serves(v, r, granted[r]) && Matches(Prefix(granted[r].path, 255), path)
                  && forall i :: 0 <= i < |granted| && Matches(Prefix(granted[i].path, 255), path) ==>
                       |Prefix(granted[i].path, 255)| <= |Prefix(granted[r].path, 255)|)
  {
    hide Valid, Clean, Matches, Prefix, MountAll, Granted, PathOf, DeviceOf;
    EmptyHolds();
    MountsHold(NO_MOUNTS, [], requests);
    var (v, granted) := (MountAll(NO_MOUNTS, requests), Granted([], requests));
    assert forall i :: 0 <= i < |granted| ==> Serves(v, i, granted[i]);
    assert forall i :: 0 <= i < |granted| ==> (Covers(v, i, path) <==> Matches(Prefix(granted[i].path, 255), path));
  }

  lemma EmptyHolds()
    ensures Valid(NO_MOUNTS) && HoldsRequests(NO_MOUNTS, [])
  {
  }

  /** However mounts succeed and fail, while paths have at most 255 characters no path is in the table twice. */
  lemma {:induction false} MountsStayDistinct(v: Mounts, requests: seq<Request>)
    requires Valid(v) && Clean(v) && Distinct(v) && forall r :: r in requests ==> |r.path| < MAX_PATH_LEN
    ensures Clean(MountAll(v, requests)) && Distinct(MountAll(v, requests))
    decreases |requests|
  {
    hide Valid, Clean, Distinct;
    if requests != [] {
      var r := requests[0];
      assert r in requests;
      if MountFs(v, r.path, r.device, r.ops, r.data).0 == 0 {
        MountAppends(v, r.path, r.device, r.ops, r.data);
        MountKeepsDistinctIff(v, r.path, r.device, r.ops, r.data);
      }
      MountsStayDistinct(MountFs(v, r.path, r.device, r.ops, r.data).1, requests[1..]);
    }
  }

  /** A new mount takes over the paths it covers that no longer mount covered, and no others. */
  lemma MountRedirectsItsPathsOnly(v: Mounts, path: seq<Byte>, device: seq<Byte>, ops: Operations, data: Word,
                                   p: seq<Byte>, r: int, q: int)
    requires Valid(v) && Clean(v) && MountFs(v, path, device, ops, data).0 == 0 && |path| < MAX_PATH_LEN
    requires Valid(MountFs(v, path, device, ops, data).1)
    requires Best(v, p, r) && Best(MountFs(v, path, device, ops, data).1, p, q)
    ensures q == if Matches(path, p) && (r == -1 || |PathOf(v, r)| < |path|) then v.count else r
  {
    hide Valid, Clean, Matches, PathOf;
    MountAppends(v, path, device, ops, data);
    KeptWhole(path);
    var w := MountFs(v, path, device, ops, data).1;
    hide MountFs;
    assert Covers(w, v.count, p) == Matches(path, p);
    assert forall i :: 0 <= i < v.count ==> Covers(w, i, p) == Covers(v, i, p);
    var best := if Matches(path, p) && (r == -1 || |PathOf(v, r)| < |path|) then v.count else r;
    assert Best(w, p, best);
    BestIsOne(w, p, best, q);
  }

  lemma BestIsOne(v: Mounts, path: seq<Byte>, r: int, q: int)
    requires Valid(v) && Best(v, path, r) && Best(v, path, q)
    ensures r == q
  {
  }

  /** With one file system mounted at "/", as the kernel does, every absolute path finds it and no other path does. */
  lemma RootTakesAbsolutePaths(device: seq<Byte>, ops: Operations, data: Word, path: seq<Byte>, r: int)
    requires Valid(MountFs(NO_MOUNTS, [SLASH], device, ops, data).1)
    requires Best(MountFs(NO_MOUNTS, [SLASH], device, ops, data).1, path, r)
    ensures r == if path != [] && path[0] == SLASH then 0 else -1
  {
    MountAppends(NO_MOUNTS, [SLASH], device, ops, data);
    KeptWhole([SLASH]);
    var w := MountFs(NO_MOUNTS, [SLASH], device, ops, data).1;
    assert Covers(w, 0, path) == (path != [] && path[0] == SLASH);
  }

  // ---- Unmounting ----

  /** Where the entry now at k was before the places from i on moved down. */
  function Source(i: nat, k: nat, count: nat): nat { if i <= k && k + 1 < count then k + 1 else k }

  /** What the shifting loop leaves in place k. */
  lemma {:induction false} ShiftMoves(v: Mounts, j: nat, k: nat)
    requires Valid(v) && j < v.count && k < MAX_MOUNT_POINTS
    ensures Source(j, k, v.count) < MAX_MOUNT_POINTS
    ensures ShiftFrom(v, j).entries[k] == v.entries[Source(j, k, v.count)]
    ensures ShiftFrom(v, j).paths[k] == v.paths[Source(j, k, v.count)]
    ensures ShiftFrom(v, j).devices[k] == v.devices[Source(j, k, v.count)]
    decreases v.count - j
  {
    if j + 1 < v.count {
      ShiftMoves(Mounts(v.count, v.entries[j := v.entries[j + 1]],
                        v.paths[j := v.paths[j + 1]], v.devices[j := v.devices[j + 1]]), j + 1, k);
    }
  }

  /** The mount paths and devices after the entry at i is taken out of a clean table: the pointers and the buffers
      have both moved, so an entry that is not the last one left reads those of the entry after it. */
  lemma UnmountedPaths(v: Mounts, path: seq<Byte>, k: nat)
    requires Valid(v) && Clean(v) && Mounted(v, path) && k + 1 < v.count
    ensures var (i, w) := (FindPath(v, path, 0), UnmountFs(v, path).1);
            var from := if k < i then k else if k + 2 < v.count then k + 2 else k + 1;
            && i < v.count && UnmountFs(v, path).0 == 0 && Valid(w) && w.count == v.count - 1
            && PathOf(w, k) == PathOf(v, from) && DeviceOf(w, k) == DeviceOf(v, from)
            && w.entries[k].ops == v.entries[if k < i then k else k + 1].ops
            && w.entries[k].privateData == v.entries[if k < i then k else k + 1].privateData
  {
    hide ShiftFrom;
    FindsMounted(v, path);
    var i := FindPath(v, path, 0);
    hide FindPath;
    ShiftMoves(v, i, k);
    ShiftMoves(v, i, Source(i, k, v.count));
  }

  /** A path that is not mounted cannot be unmounted, and the table stays as it is. */
  lemma UnmountRefusesIff(v: Mounts, path: seq<Byte>)
    requires Valid(v)
    ensures var (r, w) := UnmountFs(v, path);
            && (r == -1 <==> !Mounted(v, path)) && (r == -1 ==> w == v) && (r != -1 ==> r == 0)
  {
    hide ShiftFrom;
    if Mounted(v, path) {
      FindsMounted(v, path);
    }
  }

  /** Three mounts, the first of them unmounted: both entries left have the path of the third. */
  lemma FirstOfThreeUnmounted(a: Request, b: Request, c: Request)
    requires |a.path| < MAX_PATH_LEN && |b.path| < MAX_PATH_LEN && |c.path| < MAX_PATH_LEN
    requires a.path != b.path && a.path != c.path && b.path != c.path
    ensures var v := MountAll(NO_MOUNTS, [a, b, c]);
            var (r, w) := UnmountFs(v, a.path);
            && v.count == 3 && PathOf(v, 0) == a.path && PathOf(v, 1) == b.path && PathOf(v, 2) == c.path
            && r == 0 && Valid(w) && w.count == 2 && PathOf(w, 0) == PathOf(w, 1) == c.path
  {
    hide UnmountFs, Kept;
    KeptWhole(a.path);
    KeptWhole(b.path);
    KeptWhole(c.path);
    var v1 := MountFs(NO_MOUNTS, a.path, a.device, a.ops, a.data).1;
    var v2 := MountFs(v1, b.path, b.device, b.ops, b.data).1;
    var v3 := MountFs(v2, c.path, c.device, c.ops, c.data).1;
    MountAppends(NO_MOUNTS, a.path, a.device, a.ops, a.data);
    MountAppends(v1, b.path, b.device, b.ops, b.data);
    MountAppends(v2, c.path, c.device, c.ops, c.data);
    ThreeRequests(NO_MOUNTS, v1, v2, a, b, c);
    hide MountFs, MountAll;
    assert PathOf(v3, 0) == a.path;
    FindsAt(v3, a.path, 0);
    UnmountedPaths(v3, a.path, 0);
    UnmountedPaths(v3, a.path, 1);
  }

  lemma ThreeRequests(v: Mounts, v1: Mounts, v2: Mounts, a: Request, b: Request, c: Request)
    requires Valid(v) && v1 == MountFs(v, a.path, a.device, a.ops, a.data).1
    requires Valid(v1) && v2 == MountFs(v1, b.path, b.device, b.ops, b.data).1 && Valid(v2)
    ensures MountAll(v, [a, b, c]) == MountFs(v2, c.path, c.device, c.ops, c.data).1
  {
    hide MountFs;
    MountKeepsValid(v2, c.path, c.device, c.ops, c.data);
    var v3 := MountFs(v2, c.path, c.device, c.ops, c.data).1;
    assert [a, b, c][1..] == [b, c] && [b, c][1..] == [c] && [c][1..] == [];
    assert MountAll(v3, []) == v3;
    assert MountAll(v2, [c]) == v3;
    assert MountAll(v1, [b, c]) == v3;
  }

  lemma FindsAt(v: Mounts, path: seq<Byte>, i: nat)
    requires Valid(v) && i < v.count && PathOf(v, i) == path && forall k :: 0 <= k < i ==> PathOf(v, k) != path
    ensures FindPath(v, path, 0) == i && Mounted(v, path)
  {
  }

  lemma FindsMounted(v: Mounts, path: seq<Byte>)
    requires Valid(v) && Mounted(v, path)
    ensures FindPath(v, path, 0) < v.count
  {
  }

  /** Unmounting leaves the other mounts in place exactly when it takes out one of the last two entries. */
  lemma UnmountIsFaithfulIff(v: Mounts, path: seq<Byte>)
    requires Valid(v) && Clean(v) && Distinct(v) && Mounted(v, path)
    ensures var (i, w) := (FindPath(v, path, 0), UnmountFs(v, path).1);
            && Valid(w) && w.count == v.count - 1
            && (i + 2 >= v.count <==>
                forall k :: 0 <= k < w.count ==> PathOf(w, k) == PathOf(v, if k < i then k else k + 1))
  {
    hide Clean, Mounted, ShiftFrom;
    FindsMounted(v, path);
    var (i, w) := (FindPath(v, path, 0), UnmountFs(v, path).1);
    hide FindPath;
    assert Valid(w) && w.count == v.count - 1 by { UnmountKeepsValid(v, path); }
    hide UnmountFs, PathOf, Valid;
    forall k | 0 <= k < w.count
      ensures PathOf(w, k) == PathOf(v, if k < i then k else if k + 2 < v.count then k + 2 else k + 1)
    {
      UnmountedPaths(v, path, k);
    }
    if i + 2 < v.count {
      assert PathOf(w, i) == PathOf(v, i + 2) != PathOf(v, i + 1);
    }
  }

  lemma UnmountKeepsValid(v: Mounts, path: seq<Byte>)
    requires Valid(v) && Mounted(v, path)
    ensures var w := UnmountFs(v, path).1;
            Valid(w) && w.count == v.count - 1
  {
    FindsMounted(v, path);
    ShrinkKeepsValid(ShiftFrom(v, FindPath(v, path, 0)));
  }

  lemma ShrinkKeepsValid(v: Mounts)
    requires Valid(v) && v.count > 0
    ensures Valid(v.(count := v.count - 1))
  {
  }

  /** Taking out the last entry leaves a clean table. */
  lemma UnmountingTheLastIsClean(v: Mounts, path: seq<Byte>)
    requires Valid(v) && Clean(v) && Mounted(v, path) && FindPath(v, path, 0) == v.count - 1
    ensures Valid(UnmountFs(v, path).1) && Clean(UnmountFs(v, path).1)
  {
  }

  /** Taking out the last but one leaves an entry that points into the next free buffer: the next mount
      changes its path too. */
  lemma NextMountOverwrites(v: Mounts, path: seq<Byte>, p: seq<Byte>, device: seq<Byte>, ops: Operations, data: Word)
    requires Valid(v) && Clean(v) && Mounted(v, path) && FindPath(v, path, 0) + 2 == v.count
    requires Valid(UnmountFs(v, path).1) && MountFs(UnmountFs(v, path).1, p, device, ops, data).0 == 0
    ensures var w := MountFs(UnmountFs(v, path).1, p, device, ops, data).1;
            Valid(w) && w.count == v.count && PathOf(w, v.count - 2) == PathOf(w, v.count - 1) == Kept(p)
  {
    hide ShiftFrom, Mounted, Kept;
    UnmountKeepsValid(v, path);
    ShiftMoves(v, v.count - 2, v.count - 2);
  }
}

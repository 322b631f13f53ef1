/** Finding, opening, reading and seeking in an initial RAM disk (fs/initrd.c), and what comes back of what
    the packer put in. */
module InitrdReader {
  import opened Machine
  import opened CStrings
  import opened InitrdImage

  // ---- Descriptors and operations ----

  datatype Fd = Fd(inode: Word, position: Word, kind: Word, size: Word, permissions: Word)

  const ROOT_INODE: Word := 0xFFFF_FFFF
  const ROOT_FD := Fd(ROOT_INODE, 0, 1, 0, 1)

  datatype Initialised = Ready | BadMagic | NoSignature

  /** init_initrd on a module of at least signature and header size; without the signature the C code goes on to
      scan for the magic number. */
  function Init(img: seq<Byte>): Initialised
    requires DATA_AT <= |img|
  {
    if img[..6] != Signature()[..6] then NoSignature
    else if U32At(img, HEADER_AT) != INITRD_MAGIC then BadMagic else Ready
  }

  function NumFiles(img: seq<Byte>): Word
    requires DATA_AT <= |img|
  {
    U32At(img, HEADER_AT + 4)
  }

  function NameAt(i: nat): nat { FILES_AT + i * FILE_SIZE }

  /** At most 64 files, each with a terminated name and its data inside the module. */
  ghost predicate WellFormed(img: seq<Byte>) {
    && DATA_AT <= |img| && NumFiles(img) <= MAX_FILES
    && forall i :: 0 <= i < NumFiles(img) ==> FileFits(img, i)
  }

  ghost predicate FileFits(img: seq<Byte>, i: nat)
    requires DATA_AT <= |img| && i < MAX_FILES
  {
    Terminated(img, NameAt(i)) && DATA_AT + FileAt(img, i).offset + FileAt(img, i).size <= |img|
  }

  lemma FileInside(img: seq<Byte>, i: nat)
    requires WellFormed(img) && i < NumFiles(img)
    ensures i < MAX_FILES && NameAt(i) <= |img| && Terminated(img, NameAt(i))
    ensures DATA_AT + FileAt(img, i).offset + FileAt(img, i).size <= |img|
  {
    hide FileAt, NumFiles, Terminated;
    assert FileFits(img, i);
  }

  function Stripped(path: seq<Byte>): seq<Byte> {
    if path != [] && path[0] == SLASH then path[1..] else path
  }

  function NameOf(img: seq<Byte>, i: nat): seq<Byte>
    requires WellFormed(img) && i < NumFiles(img)
  {
    FileInside(img, i);
    Text(img, NameAt(i))
  }

  /** The first file at or after i whose name is the given text, or the number of files. */
  function FindFrom(img: seq<Byte>, name: seq<Byte>, i: nat): (r: nat)
    requires WellFormed(img) && i <= NumFiles(img)
    ensures i <= r <= NumFiles(img)
    ensures forall k :: i <= k < r ==> NameOf(img, k) != name
    ensures r < NumFiles(img) ==> NameOf(img, r) == name
    decreases NumFiles(img) - i
  {
    if i == NumFiles(img) then i
    else if NameOf(img, i) == name then i else FindFrom(img, name, i + 1)
  }

  datatype Opened = NotFound | Found(fd: Fd)

  function Open(img: seq<Byte>, path: seq<Byte>): Opened
    requires WellFormed(img)
  {
    if path == [SLASH] then Found(ROOT_FD)
    else
      var i := FindFrom(img, Stripped(path), 0);
      if i == NumFiles(img) then NotFound
      else var f := FileAt(img, i); Found(Fd(i, 0, f.kind, f.size, f.permissions))
  }

  /** The return value, the bytes put in the buffer, and the descriptor afterwards. */
  datatype ReadResult = ReadResult(count: int, bytes: seq<Byte>, fd: Fd)

  function Min(a: nat, b: nat): nat { if a < b then a else b }

  function Read(img: seq<Byte>, fd: Fd, size: Word): ReadResult
    requires WellFormed(img)
  {
    if fd.inode >= NumFiles(img) then ReadResult(-1, [], fd)
    else
      var f := FileAt(img, fd.inode);
      if fd.position >= f.size then ReadResult(0, [], fd)
      else
        FileInside(img, fd.inode);
        var n := Min(size, f.size - fd.position);
        var from := DATA_AT + f.offset + fd.position;
        ReadResult(n, img[from..from + n], fd.(position := fd.position + n))
  }

  function Seek(img: seq<Byte>, fd: Fd, offset: Word): (int, Fd)
    requires WellFormed(img)
  {
    if fd.inode >= NumFiles(img) || offset > FileAt(img, fd.inode).size then (-1, fd) else (0, fd.(position := offset))
  }

  // ---- Chunks and seeks ----

  /** The data of file i. */
  function Contents(img: seq<Byte>, i: nat): (c: seq<Byte>)
    requires WellFormed(img) && i < NumFiles(img)
    ensures |c| == FileAt(img, i).size
  {
    FileInside(img, i);
    var f := FileAt(img, i);
    img[DATA_AT + f.offset..DATA_AT + f.offset + f.size]
  }

  function ReadAll(img: seq<Byte>, fd: Fd, sizes: seq<Word>): seq<Byte>
    requires WellFormed(img)
    decreases |sizes|
  {
    if sizes == [] then []
    else var r := Read(img, fd, sizes[0]); r.bytes + ReadAll(img, r.fd, sizes[1..])
  }

  function Sum(sizes: seq<Word>): nat {
    if sizes == [] then 0 else sizes[0] + Sum(sizes[1..])
  }

  /** A read returns the slice at the position and moves the position to its end. */
  lemma ReadIsSlice(img: seq<Byte>, fd: Fd, size: Word)
    requires WellFormed(img) && fd.inode < NumFiles(img) && fd.position <= |Contents(img, fd.inode)|
    ensures var (r, c) := (Read(img, fd, size), Contents(img, fd.inode));
            && r.bytes == c[fd.position..Min(fd.position + size, |c|)] && r.count == |r.bytes|
            && r.fd == fd.(position := Min(fd.position + size, |c|))
  {
    hide FileAt, WellFormed, NumFiles;
    FileInside(img, fd.inode);
    var f := FileAt(img, fd.inode);
    SubSlice(img, DATA_AT + f.offset, DATA_AT + f.offset + f.size, fd.position, Min(fd.position + size, f.size));
  }

  /** Reading in chunks of any sizes gives what one read of their sum gives. */
  lemma {:induction false} ChunksDoNotMatter(img: seq<Byte>, fd: Fd, sizes: seq<Word>)
    requires WellFormed(img) && fd.inode < NumFiles(img) && fd.position <= |Contents(img, fd.inode)|
    ensures var c := Contents(img, fd.inode);
            ReadAll(img, fd, sizes) == c[fd.position..Min(fd.position + Sum(sizes), |c|)]
    decreases |sizes|
  {
    hide Contents, Read, FileAt, NumFiles;
    if sizes != [] {
      ReadIsSlice(img, fd, sizes[0]);
      var c, fd' := Contents(img, fd.inode), Read(img, fd, sizes[0]).fd;
      ChunksDoNotMatter(img, fd', sizes[1..]);
      var a, b, e := fd.position, fd'.position, Min(fd.position + Sum(sizes), |c|);
      assert c[a..b] + c[b..e] == c[a..e];
    }
  }

  /** A seek is accepted exactly up to the file's size, and then the next read starts there. Where there is no such
      file, reads and seeks are refused and leave the descriptor alone. */
  lemma SeekThenRead(img: seq<Byte>, fd: Fd, x: Word, size: Word)
    requires WellFormed(img)
    ensures fd.inode < NumFiles(img) ==>
              var (c, (r, fd')) := (Contents(img, fd.inode), Seek(img, fd, x));
              && (r == 0 <==> x <= |c|) && (r != 0 ==> r == -1 && fd' == fd)
              && (r == 0 ==> fd' == Fd(fd.inode, x, fd.kind, fd.size, fd.permissions)
                             && Read(img, fd', size).bytes == c[x..Min(x + size, |c|)])
    ensures fd.inode >= NumFiles(img) ==>
              Seek(img, fd, x) == (-1, fd) && Read(img, fd, size) == ReadResult(-1, [], fd)
  {
    hide FileAt, FileFits, U32At, Read;
    if fd.inode < NumFiles(img) {
      if Seek(img, fd, x).0 == 0 {
        ReadIsSlice(img, fd.(position := x), size);
      }
    } else {
      NoSuchFile(img, fd, size);
    }
  }

  lemma NoSuchFile(img: seq<Byte>, fd: Fd, size: Word)
    requires WellFormed(img) && fd.inode >= NumFiles(img)
    ensures Read(img, fd, size) == ReadResult(-1, [], fd)
  {
    hide FileAt, U32At;
  }

  datatype Access = ReadSome(size: Word) | SeekTo(offset: Word)

  function Do(img: seq<Byte>, fd: Fd, a: Access): Fd
    requires WellFormed(img)
  {
    match a
    case ReadSome(size) => Read(img, fd, size).fd
    case SeekTo(offset) => Seek(img, fd, offset).1
  }

  function DoAll(img: seq<Byte>, fd: Fd, accesses: seq<Access>): Fd
    requires WellFormed(img)
    decreases |accesses|
  {
    if accesses == [] then fd else DoAll(img, Do(img, fd, accesses[0]), accesses[1..])
  }

  /** After any mix of reads and seeks, accepted or not, the position is inside the file, and so the next read
      returns the slice there. */
  lemma {:induction false} PositionStaysInFile(img: seq<Byte>, fd: Fd, accesses: seq<Access>, size: Word)
    requires WellFormed(img) && fd.inode < NumFiles(img) && fd.position <= |Contents(img, fd.inode)|
    ensures var (fd', c) := (DoAll(img, fd, accesses), Contents(img, fd.inode));
            && fd'.inode == fd.inode && fd'.position <= |c|
            && Read(img, fd', size).bytes == c[fd'.position..Min(fd'.position + size, |c|)]
    decreases |accesses|
  {
    hide FileAt, NumFiles, WellFormed, Contents, Read;
    if accesses == [] {
      ReadIsSlice(img, fd, size);
    } else {
      if accesses[0].ReadSome? {
        ReadIsSlice(img, fd, accesses[0].size);
      }
      PositionStaysInFile(img, Do(img, fd, accesses[0]), accesses[1..], size);
    }
  }

  // ---- Listing ----

  /** initrd_readdir on a directory, with the cursor it keeps between calls: whether there was a file, the name
      written (cut to size - 1), and the cursor afterwards. */
  function NextName(img: seq<Byte>, cursor: Word, size: Word): (bool, seq<Byte>, Word)
    requires WellFormed(img) && size > 0
  {
    if cursor >= NumFiles(img) then (false, [], 0)
    else (true, Prefix(NameOf(img, cursor), size - 1), cursor + 1)
  }

  /** Calls until one reports the end. */
  function List(img: seq<Byte>, cursor: Word, size: Word): (seq<seq<Byte>>, Word)
    requires WellFormed(img) && size > 0
    decreases NumFiles(img) - cursor
  {
    var (more, name, cursor') := NextName(img, cursor, size);
    if !more then ([], cursor') else var (rest, end) := List(img, cursor', size); ([name] + rest, end)
  }

  /** A listing names every file once, in order, and leaves the cursor ready for the next listing. */
  lemma {:induction false} ListNamesAll(img: seq<Byte>, cursor: Word, size: Word)
    requires WellFormed(img) && size > 0 && cursor <= NumFiles(img)
    ensures var (names, end) := List(img, cursor, size);
            && end == 0 && |names| == NumFiles(img) - cursor
            && forall n :: 0 <= n < |names| ==> names[n] == Prefix(NameOf(img, cursor + n), size - 1)
    decreases NumFiles(img) - cursor
  {
    hide FileAt, FileFits, NameOf, U32At;
    if cursor < NumFiles(img) {
      ListNamesAll(img, cursor + 1, size);
    }
  }

  /** initrd_readdir: 1 and a name from a directory, or 0 at its end; 0 at once from anything else. */
  function ReadDir(img: seq<Byte>, fd: Fd, cursor: Word, size: Word): (int, seq<Byte>, Word)
    requires WellFormed(img) && size > 0
  {
    if fd.kind == 1 then
      var (more, name, cursor') := NextName(img, cursor, size);
      (if more then 1 else 0, name, cursor')
    else (0, [], cursor)
  }

  /** What a loop that calls it until it returns 0 collects, and the cursor then. */
  function ListDir(img: seq<Byte>, fd: Fd, cursor: Word, size: Word): (seq<seq<Byte>>, Word)
    requires WellFormed(img) && size > 0
    decreases NumFiles(img) - cursor
  {
    var (r, name, cursor') := ReadDir(img, fd, cursor, size);
    if r == 0 then ([], cursor') else var (rest, end) := ListDir(img, fd, cursor', size); ([name] + rest, end)
  }

  lemma {:induction false} DirectoryLists(img: seq<Byte>, fd: Fd, cursor: Word, size: Word)
    requires WellFormed(img) && size > 0 && fd.kind == 1
    ensures ListDir(img, fd, cursor, size) == List(img, cursor, size)
    decreases NumFiles(img) - cursor
  {
    hide FileAt, FileFits, NameOf, U32At;
    if cursor < NumFiles(img) {
      DirectoryLists(img, fd, cursor + 1, size);
    }
  }

  /** The descriptor that opening "/" gives lists every file once, in order, from the cursor on, and leaves the cursor
      ready for the next listing. It can be neither read nor moved. */
  lemma RootLists(img: seq<Byte>, cursor: Word, size: Word)
    requires WellFormed(img) && size > 0 && cursor <= NumFiles(img)
    ensures Open(img, [0x2F]).Found?
    ensures var (names, end) := ListDir(img, Open(img, [0x2F]).fd, cursor, size);
            && end == 0 && |names| == NumFiles(img) - cursor
            && forall n :: 0 <= n < |names| ==> names[n] == Prefix(NameOf(img, cursor + n), size - 1)
    ensures ReadDir(img, Open(img, [0x2F]).fd, cursor, size).0 == if cursor < NumFiles(img) then 1 else 0
    ensures forall length: Word :: Read(img, Open(img, [0x2F]).fd, length).count == -1
    ensures forall offset: Word :: Seek(img, Open(img, [0x2F]).fd, offset).0 == -1
  {
    hide FileAt, FileFits, U32At, NameOf, ListDir, List, Read, Seek;
    DirectoryLists(img, ROOT_FD, cursor, size);
    ListNamesAll(img, cursor, size);
    forall x: Word
      ensures Read(img, ROOT_FD, x).count == -1 && Seek(img, ROOT_FD, x).0 == -1
    {
      SeekThenRead(img, ROOT_FD, x, x);
    }
  }

  /** Anything that is not a directory lists nothing, and leaves the cursor alone. */
  lemma OthersListNothing(img: seq<Byte>, fd: Fd, cursor: Word, size: Word)
    requires WellFormed(img) && size > 0 && fd.kind != 1
    ensures ListDir(img, fd, cursor, size) == ([], cursor)
  {
    hide FileAt, FileFits, U32At, NameOf;
  }

  /** One leading slash makes no difference to a file's name. */
  lemma LeadingSlashIsDropped(img: seq<Byte>, name: seq<Byte>)
    requires WellFormed(img) && name != [] && name[0] != 0x2F
    ensures Open(img, [0x2F] + name) == Open(img, name)
  {
    hide FileAt, NumFiles, WellFormed, FindFrom;
    assert ([0x2F] + name)[1..] == name;
  }

  // ---- Round trip ----

  /** The text a stored name reads back as. */
  lemma StoredNameText(img: seq<Byte>, at: nat, name: seq<Byte>)
    requires at + NAME_SIZE <= |img| && img[at..at + NAME_SIZE] == StoredName(name) && 0 !in name
    ensures Terminated(img, at) && Text(img, at) == Prefix(name, 31)
  {
    hide Text, Length, StoredName, Prefix;
    var t := Prefix(name, 31);
    StoredNameBytes(name);
    assert 0 !in t;
    forall k | 0 <= k <= |t|
      ensures img[at + k] == if k < |t| then t[k] else 0
    {
      assert img[at + k] == img[at..at + NAME_SIZE][k];
    }
    assert img[at..at + |t|] == t;
    TextIs(img, at, t);
  }

  lemma StoredNameBytes(name: seq<Byte>)
    ensures |Prefix(name, 31)| <= 31
    ensures forall k :: 0 <= k <= |Prefix(name, 31)| ==>
              StoredName(name)[k] == if k < |Prefix(name, 31)| then Prefix(name, 31)[k] else 0
    ensures 0 !in name ==> 0 !in Prefix(name, 31)
  {
  }

  /** Names as the packer takes them from paths: not empty, and free of zeros. */
  ghost predicate GoodNames(ps: seq<Input>) {
    forall i :: 0 <= i < |ps| ==> ps[i].Readable? && ps[i].name != [] && 0 !in ps[i].name && SLASH !in ps[i].name
  }

  lemma DataInImage(img: seq<Byte>, data: seq<Byte>, offset: nat, size: nat)
    requires DATA_AT <= |img| && img[DATA_AT..] == data && offset + size <= |data|
    ensures img[DATA_AT + offset..DATA_AT + offset + size] == data[offset..offset + size]
  {
    SubSlice(img, DATA_AT, |img|, offset, offset + size);
    assert img[DATA_AT..] == img[DATA_AT..|img|];
  }

  lemma NameInImage(img: seq<Byte>, i: nat)
    requires i < MAX_FILES && DATA_AT <= |img|
    ensures NameAt(i) + NAME_SIZE <= |img| && img[NameAt(i)..NameAt(i) + NAME_SIZE] == FileAt(img, i).name
  {
    hide U32At;
  }

  lemma PackedFile(inputs: seq<Input>, i: nat)
    requires |ReadableOnes(inputs)| <= MAX_FILES && TotalSize(inputs) < 0x8000_0000 && GoodNames(ReadableOnes(inputs))
    requires i < |ReadableOnes(inputs)|
    ensures var (img, p) := (Pack(inputs), ReadableOnes(inputs)[i]);
            && DATA_AT <= |img| && NumFiles(img) == |ReadableOnes(inputs)|
            && Terminated(img, NameAt(i)) && Text(img, NameAt(i)) == Prefix(p.name, 31)
            && FileAt(img, i).size == |p.contents| && FileAt(img, i).kind == 0 && FileAt(img, i).permissions == 1
            && DATA_AT + FileAt(img, i).offset + FileAt(img, i).size <= |img|
            && img[DATA_AT + FileAt(img, i).offset..DATA_AT + FileAt(img, i).offset + FileAt(img, i).size] == p.contents
  {
    hide StoredName, U32At, Image, AddFiles, Text, SizeSum, Length, FileAt;
    PackPlacesFiles(inputs);
    var q, ps := AddFiles(EMPTY_PACKING, inputs), ReadableOnes(inputs);
    var img, f := Image(q.header, q.data), q.header.files[i];
    ImageDecodes(q.header, q.data, i);
    assert PackedAt(q, ps, i);
    NameInImage(img, i);
    hide Prefix;
    StoredNameText(img, NameAt(i), ps[i].name);
    DataInImage(img, q.data, f.offset, f.size);
  }

  lemma PackReads(inputs: seq<Input>)
    requires |ReadableOnes(inputs)| <= MAX_FILES && TotalSize(inputs) < 0x8000_0000 && GoodNames(ReadableOnes(inputs))
    ensures WellFormed(Pack(inputs)) && Init(Pack(inputs)) == Ready && NumFiles(Pack(inputs)) == |ReadableOnes(inputs)|
  {
    hide FileAt, Text, Length, Pack, U32At;
    var img := Pack(inputs);
    PackHeader(inputs);
    forall i | 0 <= i < NumFiles(img)
      ensures FileFits(img, i)
    {
      PackedFile(inputs, i);
    }
  }

  lemma PackHeader(inputs: seq<Input>)
    requires |ReadableOnes(inputs)| <= MAX_FILES && TotalSize(inputs) < 0x8000_0000
    ensures DATA_AT <= |Pack(inputs)| && NumFiles(Pack(inputs)) == |ReadableOnes(inputs)| && Init(Pack(inputs)) == Ready
  {
    hide FileAt, U32At, Image, AddFiles, SizeSum;
    PackPlacesFiles(inputs);
    var q := AddFiles(EMPTY_PACKING, inputs);
    ImageDecodes(q.header, q.data, 0);
    var img := Image(q.header, q.data);
    assert img[..6] == img[..8][..6];
  }

  /** Opening "/name" in the image reaches file i. */
  ghost predicate Reaches(img: seq<Byte>, name: seq<Byte>, i: nat)
    requires WellFormed(img)
  {
    var found := Open(img, [SLASH] + name);
    found.Found? && found.fd.inode == i
  }

  /** Opening "/name" gives a descriptor with the size of contents, from which they read back, at once or in chunks. */
  ghost predicate ComesBack(img: seq<Byte>, name: seq<Byte>, contents: seq<Byte>)
    requires WellFormed(img)
  {
    var found := Open(img, [SLASH] + name);
    && found.Found? && found.fd.size == |contents| && Read(img, found.fd, found.fd.size).bytes == contents
    && forall sizes :: ReadAll(img, found.fd, sizes) == contents[..Min(Sum(sizes), |contents|)]
  }

  lemma OpenFinds(img: seq<Byte>, name: seq<Byte>)
    requires WellFormed(img) && name != [] && SLASH !in name
    ensures var r := FindFrom(img, name, 0);
            Open(img, [SLASH] + name) ==
            if r == NumFiles(img) then NotFound
            else Found(Fd(r, 0, FileAt(img, r).kind, FileAt(img, r).size, FileAt(img, r).permissions))
  {
    hide FileAt, NumFiles, WellFormed, FindFrom;
    assert ([SLASH] + name)[1..] == name;
  }

  lemma FileComesBack(img: seq<Byte>, name: seq<Byte>, i: nat)
    requires WellFormed(img) && name != [] && SLASH !in name && i < NumFiles(img) && Reaches(img, name, i)
    ensures ComesBack(img, name, Contents(img, i))
  {
    hide FileAt, NumFiles, WellFormed, FindFrom, Read, Open;
    OpenFinds(img, name);
    var fd, c := Open(img, [SLASH] + name).fd, Contents(img, i);
    ReadIsSlice(img, fd, fd.size);
    assert c[0..|c|] == c;
    forall sizes
      ensures ReadAll(img, fd, sizes) == c[..Min(Sum(sizes), |c|)]
    {
      ChunksDoNotMatter(img, fd, sizes);
    }
  }

  /** Opening "/" and the name of a packed file reaches that file if and only if the name has at most 31 bytes
      and is not the stored name of an earlier file; then its contents come back. */
  lemma RoundTrip(inputs: seq<Input>, i: nat)
    requires |ReadableOnes(inputs)| <= MAX_FILES && TotalSize(inputs) < 0x8000_0000 && GoodNames(ReadableOnes(inputs))
    requires i < |ReadableOnes(inputs)|
    ensures WellFormed(Pack(inputs)) && Init(Pack(inputs)) == Ready
    ensures var (img, ps) := (Pack(inputs), ReadableOnes(inputs));
            && (Reaches(img, ps[i].name, i) <==>
                  |ps[i].name| <= 31 && forall j :: 0 <= j < i ==> Prefix(ps[j].name, 31) != ps[i].name)
            && (Reaches(img, ps[i].name, i) ==> ComesBack(img, ps[i].name, ps[i].contents))
  {
    hide FileAt, Text, Length, Pack, NumFiles, FindFrom, ReadableOnes, Open, ComesBack, WellFormed, Init;
    var img, ps := Pack(inputs), ReadableOnes(inputs);
    PackReads(inputs);
    OpenFinds(img, ps[i].name);
    forall j | 0 <= j < |ps|
      ensures NameOf(img, j) == Prefix(ps[j].name, 31) && Contents(img, j) == ps[j].contents
    {
      PackedFile(inputs, j);
    }
    if Reaches(img, ps[i].name, i) {
      FileComesBack(img, ps[i].name, i);
    }
  }

  /** "/name" opens file i at its beginning, as a file of the given length, for reading; listed as if it were a
      directory it yields nothing. */
  ghost predicate OpensAsFile(img: seq<Byte>, name: seq<Byte>, i: Word, length: Word, cursor: Word, size: Word)
    requires WellFormed(img) && size > 0
  {
    && Open(img, [0x2F] + name) == Found(Fd(i, 0, 0, length, 1))
    && ListDir(img, Fd(i, 0, 0, length, 1), cursor, size) == ([], cursor)
  }

  /** A packed file that opens by its name opens as a file. */
  lemma PackedFilesAreFiles(inputs: seq<Input>, img: seq<Byte>, i: nat, cursor: Word, size: Word)
    requires |ReadableOnes(inputs)| <= MAX_FILES && TotalSize(inputs) < 0x8000_0000 && GoodNames(ReadableOnes(inputs))
    requires img == Pack(inputs) && i < |ReadableOnes(inputs)| && size > 0
    ensures WellFormed(img) && |ReadableOnes(inputs)[i].contents| < 0x8000_0000
    ensures var p := ReadableOnes(inputs)[i];
            Reaches(img, p.name, i) ==> OpensAsFile(img, p.name, i, |p.contents|, cursor, size)
  {
    hide FileAt, Text, Length, Pack, NumFiles, FindFrom, ReadableOnes, Open, WellFormed, Init, ListDir;
    var p := ReadableOnes(inputs)[i];
    PackReads(inputs);
    OpenFinds(img, p.name);
    PackedFile(inputs, i);
    OneSize(inputs, i);
    OthersListNothing(img, Fd(i, 0, 0, |p.contents|, 1), cursor, size);
  }

  lemma {:induction false} OneSize(inputs: seq<Input>, i: nat)
    requires i < |ReadableOnes(inputs)|
    ensures ReadableOnes(inputs)[i].Readable? && |ReadableOnes(inputs)[i].contents| <= TotalSize(inputs)
  {
    if inputs[0].Unreadable? {
      OneSize(inputs[1..], i);
    } else if i > 0 {
      OneSize(inputs[1..], i - 1);
    }
  }

  /** Listing the root of a packed image gives the stored names of the files, in the order they were packed. */
  lemma PackedListing(inputs: seq<Input>, size: Word)
    requires |ReadableOnes(inputs)| <= MAX_FILES && TotalSize(inputs) < 0x8000_0000 && GoodNames(ReadableOnes(inputs))
    requires size >= 32
    ensures var (img, ps) := (Pack(inputs), ReadableOnes(inputs));
            && WellFormed(img) && Open(img, [0x2F]).Found?
            && var (names, end) := ListDir(img, Open(img, [0x2F]).fd, 0, size);
               && end == 0 && |names| == |ps| && forall n :: 0 <= n < |ps| ==> names[n] == Prefix(ps[n].name, 31)
  {
    hide FileAt, Text, Length, Pack, NumFiles, ReadableOnes, Open, WellFormed, Init, ListDir, Prefix;
    var img, ps := Pack(inputs), ReadableOnes(inputs);
    PackReads(inputs);
    RootLists(img, 0, size);
    forall n | 0 <= n < |ps|
      ensures NameOf(img, n) == Prefix(ps[n].name, 31)
      ensures Prefix(Prefix(ps[n].name, 31), size - 1) == Prefix(ps[n].name, 31)
    {
      PackedFile(inputs, n);
      CutTwice(ps[n].name, size - 1);
    }
  }

  lemma CutTwice(t: seq<Byte>, n: nat)
    requires n >= 31
    ensures Prefix(Prefix(t, 31), n) == Prefix(t, 31)
  {
  }

  /** A name of 32 bytes: the file is in the image, and opening it by its name finds nothing. */
  lemma LongNameIsNotFound(contents: seq<Byte>)
    requires |contents| < 0x8000_0000
    ensures var name := seq<Byte>(32, _ => 0x61);
            var img := Pack([Readable(name, contents)]);
            WellFormed(img) && Open(img, [SLASH] + name) == NotFound
  {
    hide Pack, WellFormed, Init, FileAt, Open, Reaches, ComesBack, FindFrom, NumFiles;
    var name := seq<Byte>(32, _ => 0x61);
    var inputs := [Readable(name, contents)];
    OneInput(name, contents);
    RoundTrip(inputs, 0);
    PackReads(inputs);
    OnlyFile(Pack(inputs), name);
  }

  lemma OneInput(name: seq<Byte>, contents: seq<Byte>)
    requires |contents| < 0x8000_0000
    ensures ReadableOnes([Readable(name, contents)]) == [Readable(name, contents)]
    ensures TotalSize([Readable(name, contents)]) < 0x8000_0000
  {
    var inputs := [Readable(name, contents)];
    assert inputs[1..] == [];
  }

  lemma OnlyFile(img: seq<Byte>, name: seq<Byte>)
    requires WellFormed(img) && name != [] && SLASH !in name && NumFiles(img) == 1 && !Reaches(img, name, 0)
    ensures Open(img, [SLASH] + name) == NotFound
  {
    hide FileAt, WellFormed, NumFiles;
    OpenFinds(img, name);
  }

  /** In particular, distinct names of at most 31 bytes all come back. */
  lemma DistinctNamesComeBack(inputs: seq<Input>)
    requires |ReadableOnes(inputs)| <= MAX_FILES && TotalSize(inputs) < 0x8000_0000 && GoodNames(ReadableOnes(inputs))
    requires forall j :: 0 <= j < |ReadableOnes(inputs)| ==> |ReadableOnes(inputs)[j].name| <= 31
    requires forall j, j' :: 0 <= j < j' < |ReadableOnes(inputs)| ==>
               ReadableOnes(inputs)[j].name != ReadableOnes(inputs)[j'].name
    ensures WellFormed(Pack(inputs)) && Init(Pack(inputs)) == Ready
    ensures forall i :: 0 <= i < |ReadableOnes(inputs)| ==>
              ComesBack(Pack(inputs), ReadableOnes(inputs)[i].name, ReadableOnes(inputs)[i].contents)
  {
    hide Pack, ReadableOnes, ComesBack, WellFormed, Init, Reaches, NumFiles;
    PackReads(inputs);
    forall i | 0 <= i < |ReadableOnes(inputs)|
      ensures ComesBack(Pack(inputs), ReadableOnes(inputs)[i].name, ReadableOnes(inputs)[i].contents)
    {
      RoundTrip(inputs, i);
    }
  }
}

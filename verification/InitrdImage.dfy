/** The initial RAM disk: how tools/create_initrd.c lays an image out, byte for byte. */
module InitrdImage {
  import opened Machine
  import opened Bytes
  import opened CStrings

  const INITRD_MAGIC: Word := 0xBF
  const SLASH: Byte := 0x2F
  const MAX_FILES := 64
  const NAME_SIZE := 32
  const FILE_SIZE := 48 // name[32], then size, offset, type and permissions
  const HEADER_SIZE := 8 + MAX_FILES * FILE_SIZE
  const HEADER_AT := 8
  const FILES_AT := HEADER_AT + 8
  const DATA_AT := HEADER_AT + HEADER_SIZE

  type Name = n: seq<Byte> | |n| == NAME_SIZE witness seq<Byte>(NAME_SIZE, _ => 0)
  datatype FileHeader = FileHeader(name: Name, size: Word, offset: Word, kind: Word, permissions: Word)
  type FileTable = t: seq<FileHeader> | |t| == MAX_FILES witness seq<FileHeader>(MAX_FILES, _ => EmptyFile())
  datatype Header = Header(magic: Word, numFiles: Word, files: FileTable)

  function EmptyName(): Name { seq<Byte>(NAME_SIZE, _ => 0) }
  function EmptyFile(): FileHeader { FileHeader(EmptyName(), 0, 0, 0, 0) }
  function EmptyHeader(): Header { Header(INITRD_MAGIC, 0, seq<FileHeader>(MAX_FILES, _ => EmptyFile())) }

  // ---- Encoding ----

  function U32(w: Word): (s: seq<Byte>)
    ensures |s| == 4
  {
    [ByteOf(w, 0), ByteOf(w, 1), ByteOf(w, 2), ByteOf(w, 3)]
  }

  function EncodeFile(f: FileHeader): (s: seq<Byte>)
    ensures |s| == FILE_SIZE
  {
    f.name + U32(f.size) + U32(f.offset) + U32(f.kind) + U32(f.permissions)
  }

  function EncodeFiles(fs: seq<FileHeader>): (s: seq<Byte>)
    ensures |s| == FILE_SIZE * |fs|
  {
    if fs == [] then [] else EncodeFile(fs[0]) + EncodeFiles(fs[1..])
  }

  function EncodeHeader(h: Header): (s: seq<Byte>)
    ensures |s| == HEADER_SIZE
  {
    U32(h.magic) + U32(h.numFiles) + EncodeFiles(h.files)
  }

  function Signature(): (s: seq<Byte>)
    ensures |s| == 8
  {
    [0x49, 0x4E, 0x49, 0x54, 0x52, 0x44, 0, 0]
  }

  // ---- Decoding, at a position in an image ----

  function U32At(img: seq<Byte>, at: nat): Word
    requires at + 4 <= |img|
  {
    img[at] as int + img[at + 1] as int * 0x100 + img[at + 2] as int * 0x1_0000 + img[at + 3] as int * 0x100_0000
  }

  function FileAt(img: seq<Byte>, i: nat): FileHeader
    requires i < MAX_FILES && DATA_AT <= |img|
  {
    var at := FILES_AT + i * FILE_SIZE;
    FileHeader(img[at..at + NAME_SIZE], U32At(img, at + 32), U32At(img, at + 36), U32At(img, at + 40),
      U32At(img, at + 44))
  }

  lemma U32Decodes(w: Word, img: seq<Byte>, at: nat)
    requires at + 4 <= |img| && img[at..at + 4] == U32(w)
    ensures U32At(img, at) == w
  {
    hide ByteOf;
    WordFromBytes(w);
    assert img[at] == img[at..at + 4][0] && img[at + 1] == img[at..at + 4][1];
    assert img[at + 2] == img[at..at + 4][2] && img[at + 3] == img[at..at + 4][3];
  }

  lemma {:induction false} EncodedFileAt(fs: seq<FileHeader>, i: nat)
    requires i < |fs|
    ensures EncodeFiles(fs)[i * FILE_SIZE..(i + 1) * FILE_SIZE] == EncodeFile(fs[i])
  {
    hide EncodeFile;
    if i > 0 {
      EncodedFileAt(fs[1..], i - 1);
      var tail := EncodeFiles(fs[1..]);
      assert EncodeFiles(fs) == EncodeFile(fs[0]) + tail;
      assert EncodeFiles(fs)[i * FILE_SIZE..(i + 1) * FILE_SIZE] == tail[(i - 1) * FILE_SIZE..i * FILE_SIZE];
    }
  }

  /** An image: signature, header, then the data. */
  function Image(h: Header, data: seq<Byte>): seq<Byte> {
    Signature() + EncodeHeader(h) + data
  }

  lemma SubSlice<T>(s: seq<T>, a: nat, b: nat, c: nat, d: nat)
    requires a <= b <= |s| && c <= d <= b - a
    ensures s[a..b][c..d] == s[a + c..a + d]
  {
    var l, r := s[a..b][c..d], s[a + c..a + d];
    forall k | 0 <= k < d - c
      ensures l[k] == r[k]
    {
      assert s[a..b][c + k] == s[a + (c + k)];
    }
  }

  lemma FileDecodes(f: FileHeader, img: seq<Byte>, i: nat)
    requires i < MAX_FILES && DATA_AT <= |img|
    requires img[FILES_AT + i * FILE_SIZE..FILES_AT + i * FILE_SIZE + FILE_SIZE] == EncodeFile(f)
    ensures FileAt(img, i) == f
  {
    hide U32, U32At;
    var at := FILES_AT + i * FILE_SIZE;
    var s := img[at..at + FILE_SIZE];
    SubSlice(img, at, at + FILE_SIZE, 0, 32);
    SubSlice(img, at, at + FILE_SIZE, 32, 36);
    SubSlice(img, at, at + FILE_SIZE, 36, 40);
    SubSlice(img, at, at + FILE_SIZE, 40, 44);
    SubSlice(img, at, at + FILE_SIZE, 44, 48);
    FieldsOf(f);
    U32Decodes(f.size, img, at + 32);
    U32Decodes(f.offset, img, at + 36);
    U32Decodes(f.kind, img, at + 40);
    U32Decodes(f.permissions, img, at + 44);
  }

  lemma FieldsOf(f: FileHeader)
    ensures var s := EncodeFile(f);
            && s[0..32] == f.name && s[32..36] == U32(f.size) && s[36..40] == U32(f.offset)
            && s[40..44] == U32(f.kind) && s[44..48] == U32(f.permissions)
  {
    hide U32;
  }

  /** Reading an image back gives the header it was written from. */
  lemma ImageDecodes(h: Header, data: seq<Byte>, i: nat)
    requires i < MAX_FILES
    ensures var img := Image(h, data);
            && |img| == DATA_AT + |data| && img[..8] == Signature() && img[DATA_AT..] == data
            && U32At(img, HEADER_AT) == h.magic && U32At(img, HEADER_AT + 4) == h.numFiles
            && FileAt(img, i) == h.files[i]
  {
    hide U32, U32At, FileAt, EncodeFile;
    var img, e := Image(h, data), EncodeHeader(h);
    var fs := EncodeFiles(h.files);
    assert img[HEADER_AT..HEADER_AT + 4] == U32(h.magic);
    assert img[HEADER_AT + 4..HEADER_AT + 8] == U32(h.numFiles);
    U32Decodes(h.magic, img, HEADER_AT);
    U32Decodes(h.numFiles, img, HEADER_AT + 4);
    EncodedFileAt(h.files, i);
    assert img[FILES_AT..DATA_AT] == fs;
    SubSlice(img, FILES_AT, DATA_AT, i * FILE_SIZE, (i + 1) * FILE_SIZE);
    FileDecodes(h.files[i], img, i);
  }

  // ---- The packer ----

  /** What is given to the packer for one argument: a readable file's base name and contents, or nothing. */
  datatype Input = Unreadable | Readable(name: seq<Byte>, contents: seq<Byte>)

  /** name is what follows the last slash of the path. */
  function BaseName(path: seq<Byte>): (name: seq<Byte>)
    ensures SLASH !in name
  {
    if path == [] then []
    else
      var rest := BaseName(path[1..]);
      if SLASH in path[1..] then rest else if path[0] == SLASH then path[1..] else path
  }

  /** strncpy into 32 zero bytes, and a final zero. */
  function StoredName(name: seq<Byte>): Name {
    Padded(name, 31) + [0]
  }

  function SizeSum(files: seq<FileHeader>, n: nat): nat
    requires n <= |files|
  {
    if n == 0 then 0 else SizeSum(files, n - 1) + files[n - 1].size
  }

  function ReadableOnes(inputs: seq<Input>): seq<Input> {
    if inputs == [] then []
    else (if inputs[0].Readable? then [inputs[0]] else []) + ReadableOnes(inputs[1..])
  }

  datatype Packing = Packing(header: Header, data: seq<Byte>)

  function AddFile(p: Packing, input: Input): Packing
    requires input.Readable? ==> p.header.numFiles < MAX_FILES
  {
    match input
    case Unreadable => p
    case Readable(name, contents) =>
      var n := p.header.numFiles;
      var f := FileHeader(StoredName(name), |contents| % 0x1_0000_0000,
        SizeSum(p.header.files, n) % 0x1_0000_0000, 0, 1);
      Packing(p.header.(files := p.header.files[n := f], numFiles := n + 1), p.data + contents)
  }

  function AddFiles(p: Packing, inputs: seq<Input>): Packing
    requires p.header.numFiles + |ReadableOnes(inputs)| <= MAX_FILES
    decreases |inputs|
  {
    if inputs == [] then p else AddFiles(AddFile(p, inputs[0]), inputs[1..])
  }

  const EMPTY_PACKING := Packing(EmptyHeader(), [])

  /** The image main writes. */
  function Pack(inputs: seq<Input>): seq<Byte>
    requires |ReadableOnes(inputs)| <= MAX_FILES
  {
    var p := AddFiles(EMPTY_PACKING, inputs);
    Image(p.header, p.data)
  }

  // ---- What ends up where ----

  function TotalSize(inputs: seq<Input>): nat {
    if inputs == [] then 0
    else (if inputs[0].Readable? then |inputs[0].contents| else 0) + TotalSize(inputs[1..])
  }

  /** The files ps are packed: each header names its file, and its offset and size mark its contents in the data. */
  ghost predicate Packed(p: Packing, ps: seq<Input>) {
    && p.header.magic == INITRD_MAGIC && p.header.numFiles == |ps| <= MAX_FILES
    && SizeSum(p.header.files, |ps|) == |p.data|
    && forall i {:trigger PackedAt(p, ps, i)} {:trigger p.header.files[i]} :: 0 <= i < |ps| ==> PackedAt(p, ps, i)
  }

  ghost predicate PackedAt(p: Packing, ps: seq<Input>, i: nat)
    requires i < |ps| && i < MAX_FILES
  {
    var f := p.header.files[i];
    && ps[i].Readable? && f.name == StoredName(ps[i].name) && f.kind == 0 && f.permissions == 1
    && f.size == |ps[i].contents| && f.offset == SizeSum(p.header.files, i) && f.offset + f.size <= |p.data|
    && p.data[f.offset..f.offset + f.size] == ps[i].contents
  }

  lemma {:induction false} SizeSumSame(fs: seq<FileHeader>, fs': seq<FileHeader>, n: nat)
    requires n <= |fs| && n <= |fs'| && forall i :: 0 <= i < n ==> fs'[i] == fs[i]
    ensures SizeSum(fs', n) == SizeSum(fs, n)
  {
    if n > 0 {
      SizeSumSame(fs, fs', n - 1);
    }
  }

  lemma AddFileSums(p: Packing, input: Input, i: nat)
    requires input.Readable? && i <= p.header.numFiles < MAX_FILES
    ensures SizeSum(AddFile(p, input).header.files, i) == SizeSum(p.header.files, i)
  {
    hide StoredName;
    SizeSumSame(p.header.files, AddFile(p, input).header.files, i);
  }

  lemma OldFileStays(p: Packing, ps: seq<Input>, input: Input, i: nat)
    requires Packed(p, ps) && input.Readable? && i < |ps| < MAX_FILES
    ensures PackedAt(AddFile(p, input), ps + [input], i)
  {
    hide StoredName, SizeSum;
    assert PackedAt(p, ps, i);
    AddFileSums(p, input, i);
    var f, p' := p.header.files[i], AddFile(p, input);
    assert p'.data[f.offset..f.offset + f.size] == p.data[f.offset..f.offset + f.size];
  }

  lemma NewFilePlaced(p: Packing, ps: seq<Input>, input: Input)
    requires Packed(p, ps) && input.Readable? && |ps| < MAX_FILES && |p.data| + |input.contents| < 0x1_0000_0000
    ensures PackedAt(AddFile(p, input), ps + [input], |ps|)
    ensures SizeSum(AddFile(p, input).header.files, |ps| + 1) == |AddFile(p, input).data|
  {
    hide StoredName, PackedAt;
    AddFileSums(p, input, |ps|);
    var p' := AddFile(p, input);
    assert p'.header.files[|ps|].size == |input.contents|;
    assert PackedAt(p', ps + [input], |ps|) by { LastFileAt(p, ps, input); }
  }

  lemma LastFileAt(p: Packing, ps: seq<Input>, input: Input)
    requires Packed(p, ps) && input.Readable? && |ps| < MAX_FILES && |p.data| + |input.contents| < 0x1_0000_0000
    requires SizeSum(AddFile(p, input).header.files, |ps|) == |p.data|
    ensures PackedAt(AddFile(p, input), ps + [input], |ps|)
  {
    hide StoredName, SizeSum;
    assert (p.data + input.contents)[|p.data|..|p.data| + |input.contents|] == input.contents;
  }

  lemma AddFileKeeps(p: Packing, ps: seq<Input>, input: Input)
    requires Packed(p, ps) && input.Readable? && |ps| < MAX_FILES && |p.data| + |input.contents| < 0x1_0000_0000
    ensures Packed(AddFile(p, input), ps + [input]) && |AddFile(p, input).data| == |p.data| + |input.contents|
  {
    hide StoredName, SizeSum, PackedAt;
    NewFilePlaced(p, ps, input);
    forall i | 0 <= i < |ps|
      ensures PackedAt(AddFile(p, input), ps + [input], i)
    {
      OldFileStays(p, ps, input, i);
    }
  }

  lemma {:induction false} AddFilesKeeps(p: Packing, ps: seq<Input>, inputs: seq<Input>)
    requires Packed(p, ps) && |ps| + |ReadableOnes(inputs)| <= MAX_FILES && |p.data| + TotalSize(inputs) < 0x1_0000_0000
    ensures Packed(AddFiles(p, inputs), ps + ReadableOnes(inputs))
    decreases |inputs|
  {
    hide Packed, AddFile, EmptyHeader;
    PackedCount(p, ps);
    if inputs == [] {
      assert ps + [] == ps;
    } else if inputs[0].Unreadable? {
      SkipUnreadable(p, inputs[0]);
      AddFilesKeeps(p, ps, inputs[1..]);
      assert ps + ReadableOnes(inputs[1..]) == ps + ReadableOnes(inputs);
    } else {
      AddFileKeeps(p, ps, inputs[0]);
      PackedCount(AddFile(p, inputs[0]), ps + [inputs[0]]);
      AddFilesKeeps(AddFile(p, inputs[0]), ps + [inputs[0]], inputs[1..]);
      assert ps + [inputs[0]] + ReadableOnes(inputs[1..]) == ps + ReadableOnes(inputs);
    }
  }

  lemma SkipUnreadable(p: Packing, input: Input)
    requires input.Unreadable?
    ensures AddFile(p, input) == p
  {
  }

  lemma PackedCount(p: Packing, ps: seq<Input>)
    requires Packed(p, ps)
    ensures p.header.numFiles == |ps|
  {
  }

  /** Packing any readable files, unreadable ones skipped, puts each where its header says. */
  lemma PackPlacesFiles(inputs: seq<Input>)
    requires |ReadableOnes(inputs)| <= MAX_FILES && TotalSize(inputs) < 0x1_0000_0000
    ensures Packed(AddFiles(EMPTY_PACKING, inputs), ReadableOnes(inputs))
  {
    AddFilesKeeps(EMPTY_PACKING, [], inputs);
    assert [] + ReadableOnes(inputs) == ReadableOnes(inputs);
  }
}

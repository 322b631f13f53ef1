/** tools/create_initrd.c and fs/initrd.c as they run: the packer updates its header table in place, and
    the reader moves descriptors and its listing cursor. */
module Initrd {
  import opened Machine
  import opened CStrings
  import opened InitrdImage
  import opened InitrdReader

  // ---- The packer ----

  /** A command-line argument: a path, and the file behind it if it can be opened. */
  datatype Argument = Argument(path: seq<Byte>, readable: bool, contents: seq<Byte>)

  function InputOf(a: Argument): Input {
    if a.readable then Readable(BaseName(a.path), a.contents) else Unreadable
  }

  function InputsOf(args: seq<Argument>): (inputs: seq<Input>)
    ensures |inputs| == |args|
  {
    if args == [] then [] else [InputOf(args[0])] + InputsOf(args[1..])
  }

  lemma SumStep(a: nat, b: nat)
    ensures (a % 0x1_0000_0000 + b) % 0x1_0000_0000 == (a + b) % 0x1_0000_0000
  {
    var q := a / 0x1_0000_0000;
    assert a + b == 0x1_0000_0000 * q + (a % 0x1_0000_0000 + b);
  }

  lemma {:induction false} BaseNameAfter(path: seq<Byte>, k: nat)
    requires k <= |path| && SLASH !in path[k..] && (k > 0 ==> path[k - 1] == SLASH)
    ensures BaseName(path) == path[k..]
  {
    if k == 0 {
      assert path[0..] == path;
      NoSlash(path);
    } else {
      assert path[1..][k - 1..] == path[k..];
      if k > 1 {
        assert path[1..][k - 2] == SLASH;
        BaseNameAfter(path[1..], k - 1);
      } else {
        assert SLASH !in path[1..];
      }
    }
  }

  lemma NoSlash(path: seq<Byte>)
    requires SLASH !in path
    ensures BaseName(path) == path
  {
    if path != [] {
      assert path[0] in path;
      assert SLASH !in path[1..];
    }
  }

  /** The part after strrchr(path, '/'), or all of it. */
  method FileName(path: seq<Byte>) returns (name: seq<Byte>)
    ensures name == BaseName(path)
  {
    var k := |path|;
    while k > 0 && path[k - 1] != SLASH
      invariant 0 <= k <= |path| && SLASH !in path[k..]
    {
      assert path[k - 1..] == [path[k - 1]] + path[k..];
      k := k - 1;
    }
    BaseNameAfter(path, k);
    return path[k..];
  }

  class Packer {
    var numFiles: Word
    const files: array<FileHeader>
    var output: seq<Byte>

    ghost predicate Valid()
      reads this
    {
      files.Length == MAX_FILES && numFiles <= MAX_FILES && |output| >= DATA_AT && output[..8] == Signature()
    }

    ghost function Value(): Packing
      requires Valid()
      reads this, files
    {
      Packing(Header(INITRD_MAGIC, numFiles, files[..]), output[DATA_AT..])
    }

    /** The start of main: an empty header, written after the signature to keep its place. */
    constructor ()
      ensures Valid() && fresh(files) && Value() == EMPTY_PACKING
    {
      numFiles := 0;
      files := new FileHeader[MAX_FILES](_ => EmptyFile());
      output := Signature() + EncodeHeader(EmptyHeader());
      new;
      assert files[..] == EmptyHeader().files;
    }

    method NameField(filename: seq<Byte>) returns (name: Name)
      requires 0 !in filename
      ensures name == StoredName(filename)
    {
      var field := new Byte[NAME_SIZE](_ => 0);
      StoredText(filename);
      Strncpy(field, Stored(filename), 0, 31);
      field[31] := 0;
      name := field[..];
    }

    method AddFile(filename: seq<Byte>, readable: bool, contents: seq<Byte>)
      requires Valid() && 0 !in filename && (readable ==> numFiles < MAX_FILES)
      modifies this, files
      ensures Valid()
      ensures Value() == InitrdImage.AddFile(old(Value()), if readable then Readable(filename, contents)
                else Unreadable)
    {
      hide StoredName, EncodeHeader;
      if !readable {
        return;
      }
      var name := NameField(filename);
      var offset: Word := 0;
      for i := 0 to numFiles
        modifies {}
        invariant offset == SizeSum(files[..], i) % 0x1_0000_0000
      {
        SumStep(SizeSum(files[..], i), files[i].size);
        offset := (offset + files[i].size) % 0x1_0000_0000;
      }
      ghost var table, n, before := files[..], numFiles, output;
      files[numFiles] := FileHeader(name, |contents| % 0x1_0000_0000, offset, 0, 1);
      assert files[..] == table[n := FileHeader(name, |contents| % 0x1_0000_0000, offset, 0, 1)];
      numFiles := numFiles + 1;
      AppendContents(contents);
      assert output[DATA_AT..] == before[DATA_AT..] + contents;
      assert old(Value()) == Packing(Header(INITRD_MAGIC, n, table), before[DATA_AT..]);
      assert files[..] == table[n := FileHeader(name, |contents| % 0x1_0000_0000, offset, 0, 1)];
      assert offset == SizeSum(table, n) % 0x1_0000_0000;
    }

    /** The copy loop of add_file, 1024 bytes at a time. */
    method AppendContents(contents: seq<Byte>)
      requires |output| >= DATA_AT
      modifies this`output
      ensures output == old(output) + contents
    {
      var done := 0;
      while done < |contents|
        invariant 0 <= done <= |contents| && output == old(output) + contents[..done]
      {
        var n := if |contents| - done < 1024 then |contents| - done else 1024;
        assert contents[..done + n] == contents[..done] + contents[done..done + n];
        output := output + contents[done..done + n];
        done := done + n;
      }
      assert contents[..done] == contents;
    }

    /** The end of main: the finished header goes over the placeholder. */
    method Finish()
      requires Valid()
      modifies this`output
      ensures output == Image(old(Value()).header, old(Value()).data)
    {
      hide EncodeHeader;
      output := output[..8] + EncodeHeader(Header(INITRD_MAGIC, numFiles, files[..])) + output[DATA_AT..];
    }
  }

  method PackArguments(args: seq<Argument>) returns (img: seq<Byte>)
    requires forall a :: a in args ==> 0 !in a.path
    requires |ReadableOnes(InputsOf(args))| <= MAX_FILES
    ensures img == Pack(InputsOf(args))
  {
    hide InitrdImage.AddFile, Image;
    var p := new Packer();
    assert args[0..] == args;
    for i := 0 to |args|
      invariant p.Valid() && fresh(p) && fresh(p.files)
      invariant p.numFiles + |ReadableOnes(InputsOf(args[i..]))| <= MAX_FILES
      invariant AddFiles(p.Value(), InputsOf(args[i..])) == AddFiles(EMPTY_PACKING, InputsOf(args))
    {
      assert args[i] in args;
      assert args[i..][1..] == args[i + 1..];
      var name := FileName(args[i].path);
      NameKeeps(args[i].path);
      CountStep(p.Value(), InputOf(args[i]));
      p.AddFile(name, args[i].readable, args[i].contents);
    }
    p.Finish();
    return p.output;
  }

  lemma CountStep(p: Packing, input: Input)
    requires input.Readable? ==> p.header.numFiles < MAX_FILES
    ensures InitrdImage.AddFile(p, input).header.numFiles == p.header.numFiles + if input.Readable? then 1 else 0
  {
  }

  lemma {:induction false} NameKeeps(path: seq<Byte>)
    requires 0 !in path
    ensures 0 !in BaseName(path)
  {
    if path != [] {
      NameKeeps(path[1..]);
    }
  }

  // ---- The reader ----

  class Descriptor {
    var inode: Word
    var position: Word
    var kind: Word
    var size: Word
    var permissions: Word

    ghost function Value(): Fd
      reads this
    {
      Fd(inode, position, kind, size, permissions)
    }
  }

  class Ramdisk {
    const image: seq<Byte>
    var currentFile: Word

    constructor (image: seq<Byte>)
      ensures this.image == image && currentFile == 0
    {
      this.image := image;
      currentFile := 0;
    }

    /** The index of the file, or the number of files. */
    method FindFile(path: seq<Byte>, at: nat) returns (i: nat)
      requires WellFormed(image) && Terminated(path, at)
      ensures i == FindFrom(image, Stripped(Text(path, at)), 0)
    {
      hide Length, U32At, FileFits, FileAt, Text, FindFrom;
      CharIs(path, at, 0);
      var p := at;
      if path[p] == SLASH {
        p := p + 1;
      }
      StripIs(path, at, p);
      i := 0;
      while i < NumFiles(image)
        invariant i <= NumFiles(image)
        invariant forall k :: 0 <= k < i ==> NameOf(image, k) != Text(path, p)
        decreases NumFiles(image) - i
      {
        FileInside(image, i);
        var c := Strcmp(image, NameAt(i), path, p);
        if c == 0 {
          FirstFound(image, Text(path, p), i);
          return;
        }
        i := i + 1;
      }
      FirstFound(image, Text(path, p), i);
    }

    method OpenFile(path: seq<Byte>, at: nat, fd: Descriptor) returns (r: int)
      requires WellFormed(image) && Terminated(path, at)
      modifies fd
      ensures match Open(image, Text(path, at))
              case NotFound => r == -1 && fd.Value() == old(fd.Value())
              case Found(v) => r == 0 && fd.Value() == v
    {
      hide Length, U32At, FileFits, FileAt, Text, FindFrom;
      StoredText([SLASH]);
      var c := Strcmp(path, at, Stored([SLASH]), 0);
      if c == 0 {
        fd.inode, fd.position, fd.kind, fd.size, fd.permissions := ROOT_INODE, 0, 1, 0, 1;
        return 0;
      }
      var i := FindFile(path, at);
      if i == NumFiles(image) {
        return -1;
      }
      var f := FileAt(image, i);
      fd.inode, fd.position, fd.kind, fd.size, fd.permissions := i, 0, f.kind, f.size, f.permissions;
      return 0;
    }

    method ReadFile(fd: Descriptor, buffer: array<Byte>, size: Word) returns (r: int)
      requires WellFormed(image) && size <= buffer.Length
      modifies fd, buffer
      ensures var result := Read(image, old(fd.Value()), size);
              && r == result.count && fd.Value() == result.fd
              && |result.bytes| <= buffer.Length && buffer[..] == result.bytes + old(buffer[|result.bytes|..])
    {
      hide U32At, FileFits, FileAt;
      if fd.inode >= NumFiles(image) {
        return -1;
      }
      FileInside(image, fd.inode);
      var f := FileAt(image, fd.inode);
      if fd.position >= f.size {
        return 0;
      }
      var remaining := f.size - fd.position;
      var toRead := if size < remaining then size else remaining;
      var from := DATA_AT + f.offset + fd.position;
      for k := 0 to toRead
        invariant forall x :: 0 <= x < buffer.Length ==> buffer[x] == if x < k then image[from + x] else old(buffer[x])
        invariant fd.Value() == old(fd.Value())
      {
        buffer[k] := image[from + k];
      }
      assert buffer[..] == image[from..from + toRead] + old(buffer[toRead..]);
      fd.position := fd.position + toRead;
      return toRead;
    }

    method SeekFile(fd: Descriptor, offset: Word) returns (r: int)
      requires WellFormed(image)
      modifies fd
      ensures (r, fd.Value()) == Seek(image, old(fd.Value()), offset)
    {
      if fd.inode >= NumFiles(image) {
        return -1;
      }
      if offset > FileAt(image, fd.inode).size {
        return -1;
      }
      fd.position := offset;
      return 0;
    }

    /** For a directory: 1 and a name in the buffer, or 0 at the end. For anything else 0. */
    method ReadDirectory(fd: Descriptor, name: array<Byte>, size: Word) returns (r: int)
      requires WellFormed(image) && 0 < size <= name.Length
      modifies this, name
      ensures var (n, text, cursor) := ReadDir(image, fd.Value(), old(currentFile), size);
              && r == n && currentFile == cursor
              && name[..] == if n == 1 then Padded(text, size) + old(name[size..]) else old(name[..])
    {
      hide U32At, FileFits, FileAt, Text, Length;
      if fd.kind == 1 {
        if currentFile >= NumFiles(image) {
          currentFile := 0;
          return 0;
        }
        FileInside(image, currentFile);
        ghost var text, was := NameOf(image, currentFile), name[..];
        PadOneMore(text, size);
        Strncpy(name, image, NameAt(currentFile), size - 1);
        hide Padded, Prefix;
        ghost var copied := name[..];
        assert copied == Padded(text, size - 1) + was[size - 1..];
        name[size - 1] := 0;
        assert name[..] == Padded(text, size - 1) + [0] + was[size..];
        currentFile := currentFile + 1;
        return 1;
      }
      return 0;
    }
  }

  lemma FirstFound(img: seq<Byte>, name: seq<Byte>, r: nat)
    requires WellFormed(img) && r <= NumFiles(img)
    requires forall k :: 0 <= k < r ==> NameOf(img, k) != name
    requires r < NumFiles(img) ==> NameOf(img, r) == name
    ensures FindFrom(img, name, 0) == r
  {
    hide FindFrom, NameOf, FileFits, U32At;
  }

  lemma PadOneMore(t: seq<Byte>, size: nat)
    requires size > 0
    ensures Padded(Prefix(t, size - 1), size) == Padded(t, size - 1) + [0]
  {
  }

  lemma StripIs(path: seq<Byte>, at: nat, p: nat)
    requires Terminated(path, at) && p == if path[at] == SLASH then at + 1 else at
    ensures Terminated(path, p) && Text(path, p) == Stripped(Text(path, at))
  {
    if path[at] == SLASH {
      assert Length(path, at) == 1 + Length(path, at + 1);
    }
  }
}

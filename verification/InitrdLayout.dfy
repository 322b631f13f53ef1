/** Where every byte of a packed image is, in numbers: the format tools/create_initrd.c and fs/initrd.c share. */
module InitrdLayout {
  import opened Machine
  import opened InitrdImage
  import opened InitrdReader

  /** A little-endian 32-bit word at position at. */
  ghost predicate HasWord(img: seq<Byte>, at: nat, w: int) {
    && at + 4 <= |img|
    && w == img[at] as int + img[at + 1] as int * 0x100 + img[at + 2] as int * 0x1_0000
            + img[at + 3] as int * 0x100_0000
  }

  /** A name in a field of 32 bytes: at most 31 of its characters, and zeros. */
  ghost predicate HasName(img: seq<Byte>, at: nat, name: seq<Byte>) {
    && at + 32 <= |img|
    && forall k :: 0 <= k < 32 ==> img[at + k] == if k < 31 && k < |name| then name[k] else 0
  }

  /** The sizes of the first n files together. */
  function SizesBefore(ps: seq<Input>, n: nat): nat
    requires n <= |ps| && forall i :: 0 <= i < |ps| ==> ps[i].Readable?
  {
    if n == 0 then 0 else SizesBefore(ps, n - 1) + |ps[n - 1].contents|
  }

  lemma {:induction false} OnlyReadable(inputs: seq<Input>)
    ensures forall i :: 0 <= i < |ReadableOnes(inputs)| ==> ReadableOnes(inputs)[i].Readable?
  {
    if inputs != [] {
      OnlyReadable(inputs[1..]);
    }
  }

  lemma {:induction false} SumsAgree(p: Packing, ps: seq<Input>, n: nat)
    requires Packed(p, ps) && n <= |ps| && forall i :: 0 <= i < |ps| ==> ps[i].Readable?
    ensures SizeSum(p.header.files, n) == SizesBefore(ps, n)
  {
    if n > 0 {
      assert PackedAt(p, ps, n - 1);
      SumsAgree(p, ps, n - 1);
    }
  }

  lemma NameField(img: seq<Byte>, at: nat, name: seq<Byte>)
    requires at + 32 <= |img| && img[at..at + 32] == StoredName(name)
    ensures HasName(img, at, name)
  {
    forall k | 0 <= k < 32
      ensures img[at + k] == if k < 31 && k < |name| then name[k] else 0
    {
      assert img[at + k] == img[at..at + 32][k];
    }
  }

  lemma HeaderField(img: seq<Byte>, f: FileHeader, i: nat)
    requires i < 64 && 3088 <= |img| && FileAt(img, i) == f
    ensures var at := 16 + 48 * i;
            && img[at..at + 32] == f.name && HasWord(img, at + 32, f.size) && HasWord(img, at + 36, f.offset)
            && HasWord(img, at + 40, f.kind) && HasWord(img, at + 44, f.permissions)
  {
  }

  /** Signature at 0, magic at 8, number of files at 12, headers of 48 bytes from 16 on, data from 3088 on, file
      after file. */
  lemma PackedLayout(inputs: seq<Input>, ps: seq<Input>, img: seq<Byte>, i: nat)
    requires ps == ReadableOnes(inputs) && |ps| <= 64 && img == Pack(inputs) && TotalSize(inputs) < 0x1_0000_0000
    requires i < |ps| && forall i :: 0 <= i < |ps| ==> ps[i].Readable?
    ensures |img| == 3088 + SizesBefore(ps, |ps|) && img[..8] == [0x49, 0x4E, 0x49, 0x54, 0x52, 0x44, 0, 0]
    ensures HasWord(img, 8, 0xBF) && HasWord(img, 12, |ps|)
    ensures var at := 16 + 48 * i;
            && HasName(img, at, ps[i].name) && HasWord(img, at + 32, |ps[i].contents|)
            && HasWord(img, at + 36, SizesBefore(ps, i)) && HasWord(img, at + 40, 0) && HasWord(img, at + 44, 1)
    ensures 3088 + SizesBefore(ps, i) + |ps[i].contents| <= |img|
    ensures img[3088 + SizesBefore(ps, i)..3088 + SizesBefore(ps, i) + |ps[i].contents|] == ps[i].contents
  {
    hide StoredName, SizesBefore, FileAt, HasName, HasWord, Image, Packed, Pack, ReadableOnes, TotalSize;
    var q := PackedFrom(inputs, img);
    HeaderOf(q, ps, i);
    ImageLayout(q.header, q.data, img, i);
    NameField(img, 16 + 48 * i, ps[i].name);
  }

  lemma PackedFrom(inputs: seq<Input>, img: seq<Byte>)
    returns (q: Packing)
    requires |ReadableOnes(inputs)| <= 64 && img == Pack(inputs) && TotalSize(inputs) < 0x1_0000_0000
    ensures img == Image(q.header, q.data) && Packed(q, ReadableOnes(inputs))
  {
    hide AddFiles, Image, Packed, ReadableOnes, TotalSize;
    q := AddFiles(EMPTY_PACKING, inputs);
    PackPlacesFiles(inputs);
  }

  /** The same for an image of any header and data. */
  lemma ImageLayout(h: Header, data: seq<Byte>, img: seq<Byte>, i: nat)
    requires img == Image(h, data) && h.magic == INITRD_MAGIC && i < 64
    requires h.files[i].offset + h.files[i].size <= |data|
    ensures |img| == 3088 + |data| && img[..8] == [0x49, 0x4E, 0x49, 0x54, 0x52, 0x44, 0, 0]
    ensures HasWord(img, 8, 0xBF) && HasWord(img, 12, h.numFiles)
    ensures var (at, f) := (16 + 48 * i, h.files[i]);
            && img[at..at + 32] == f.name && HasWord(img, at + 32, f.size) && HasWord(img, at + 36, f.offset)
            && HasWord(img, at + 40, f.kind) && HasWord(img, at + 44, f.permissions)
            && img[3088 + f.offset..3088 + f.offset + f.size] == data[f.offset..f.offset + f.size]
  {
    hide FileAt, HasWord, Image, U32At;
    ImageDecodes(h, data, i);
    HeaderWords(img, h.numFiles);
    HeaderField(img, h.files[i], i);
    DataInImage(img, data, h.files[i].offset, h.files[i].size);
  }

  lemma HeaderWords(img: seq<Byte>, n: Word)
    requires 3088 <= |img| && U32At(img, HEADER_AT) == INITRD_MAGIC && U32At(img, HEADER_AT + 4) == n
    ensures HasWord(img, 8, 0xBF) && HasWord(img, 12, n)
  {
  }

  lemma HeaderOf(q: Packing, ps: seq<Input>, i: nat)
    requires Packed(q, ps) && i < |ps| && forall i :: 0 <= i < |ps| ==> ps[i].Readable?
    ensures q.header.magic == INITRD_MAGIC && q.header.numFiles == |ps| <= 64 && |q.data| == SizesBefore(ps, |ps|)
    ensures var f := q.header.files[i];
            && f.name == StoredName(ps[i].name) && f.kind == 0 && f.permissions == 1
            && f.size == |ps[i].contents| && f.offset == SizesBefore(ps, i) && f.offset + f.size <= |q.data|
            && q.data[f.offset..f.offset + f.size] == ps[i].contents
  {
    hide StoredName, SizeSum, SizesBefore;
    SumsAgree(q, ps, i);
    SumsAgree(q, ps, |ps|);
    assert PackedAt(q, ps, i);
  }

  /** The reader takes a module for an image exactly when it starts with INITRD and has the magic number at 8. */
  lemma ReadyIff(img: seq<Byte>)
    requires 3088 <= |img|
    ensures Init(img) == Ready <==> img[..6] == [0x49, 0x4E, 0x49, 0x54, 0x52, 0x44] && HasWord(img, 8, 0xBF)
  {
    assert Signature()[..6] == [0x49, 0x4E, 0x49, 0x54, 0x52, 0x44];
  }

  /** The name of a file is what follows the last slash of its path. */
  lemma BaseNameIs(dir: seq<Byte>, name: seq<Byte>)
    requires 0x2F !in name
    ensures BaseName(dir + [0x2F] + name) == name && BaseName(name) == name
  {
    WholeName(name);
    LastPart(dir, name);
  }

  lemma {:induction false} LastPart(dir: seq<Byte>, name: seq<Byte>)
    requires 0x2F !in name
    ensures BaseName(dir + [0x2F] + name) == name
  {
    var path := dir + [0x2F] + name;
    if dir == [] {
      assert path[1..] == name;
    } else {
      assert path[1..] == dir[1..] + [0x2F] + name;
      assert 0x2F in path[1..] by { assert path[1..][|dir| - 1] == 0x2F; }
      LastPart(dir[1..], name);
    }
  }

  lemma WholeName(name: seq<Byte>)
    requires 0x2F !in name
    ensures BaseName(name) == name
  {
    if name != [] {
      assert name[0] in name;
      assert 0x2F !in name[1..];
    }
  }
}

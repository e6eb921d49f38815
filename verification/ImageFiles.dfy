/**
 The split raw image of `process_raw` (`src/image_process.cpp`): a list of files
 read as one, and the search for the size of a device that reports none.
 */
module ImageFiles {
  import opened Bytes
  import opened Arithmetic

  /** One file of the image: where it starts, how long it is, what it holds. */
  datatype FileInfo = FileInfo(offset: nat, length: nat, content: bytes)

  function Joined(files: seq<FileInfo>): bytes {
    if files == [] then [] else Joined(files[..|files| - 1]) + files[|files| - 1].content
  }

  /** Every file starts where the ones before it end. */
  ghost predicate Laid(files: seq<FileInfo>) {
    forall i :: 0 <= i < |files| ==>
      files[i].length == |files[i].content| && files[i].offset == |Joined(files[..i])|
  }

  lemma JoinedSnoc(files: seq<FileInfo>, f: FileInfo)
    ensures Joined(files + [f]) == Joined(files) + f.content
  {
    assert (files + [f])[..|files + [f]| - 1] == files;
  }

  /** A file's content is its slice of the whole. */
  lemma {:induction false} FileSlice(files: seq<FileInfo>, i: nat)
    requires Laid(files) && i < |files|
    ensures files[i].offset + files[i].length <= |Joined(files)|
    ensures Joined(files)[files[i].offset..files[i].offset + files[i].length] == files[i].content
  {
    var n := |files| - 1;
    if i < n {
      var init := files[..n];
      assert forall k :: 0 <= k < n ==> init[..k] == files[..k];
      FileSlice(init, i);
    }
  }

  /** Every byte of the whole lies in some file. */
  lemma {:induction false} FileFor(files: seq<FileInfo>, pos: nat) returns (i: nat)
    requires Laid(files) && pos < |Joined(files)|
    ensures i < |files| && files[i].offset <= pos < files[i].offset + files[i].length
  {
    var n := |files| - 1;
    var init := files[..n];
    assert forall k :: 0 <= k < n ==> init[..k] == files[..k];
    if pos < |Joined(init)| {
      i := FileFor(init, pos);
    } else {
      i := n;
    }
  }

  function Min(a: int, b: int): int { if a < b then a else b }

  const MAX_SIZE := 0x8000_0000_0000_0000

  class ProcessRaw {
    var fileList: seq<FileInfo>
    var rawFilesize: nat
    const pagesize: nat
    const margin: nat

    ghost predicate Valid()
      reads this
    {
      Laid(fileList) && rawFilesize == |Image()| && rawFilesize < MAX_SIZE
    }

    /** The image as one byte string. */
    ghost function Image(): bytes
      reads this
    {
      Joined(fileList)
    }

    constructor (pagesize: nat, margin: nat)
      ensures Valid() && Image() == []
      ensures this.pagesize == pagesize && this.margin == margin
    {
      this.pagesize, this.margin := pagesize, margin;
      fileList, rawFilesize := [], 0;
    }

    method AddFile(content: bytes)
      requires Valid() && rawFilesize + |content| < MAX_SIZE
      modifies this
      ensures Valid() && Image() == old(Image()) + content
    {
      var f := FileInfo(rawFilesize, |content|, content);
      JoinedSnoc(fileList, f);
      assert forall k :: 0 <= k <= |fileList| ==> (fileList + [f])[..k] == fileList[..k];
      fileList := fileList + [f];
      rawFilesize := rawFilesize + |content|;
    }

    /** The first file holding the byte at `pos`. */
    method FindOffset(pos: nat) returns (r: Option<FileInfo>)
      requires Valid()
      ensures r.Some? <==> pos < |Image()|
      ensures r.Some? ==> r.value in fileList && r.value.offset <= pos < r.value.offset + r.value.length
    {
      for i := 0 to |fileList|
        invariant forall k :: 0 <= k < i ==> !(fileList[k].offset <= pos < fileList[k].offset + fileList[k].length)
      {
        if fileList[i].offset <= pos < fileList[i].offset + fileList[i].length {
          FileSlice(fileList, i);
          return Some(fileList[i]);
        }
      }
      if pos < |Image()| {
        var i := FileFor(fileList, pos);
      }
      return None;
    }

    /** Reads up to `count` bytes at `offset` into `buf` from index `at` on. */
    method Pread(buf: array<byte>, at: nat, count: nat, offset: nat) returns (n: nat)
      requires Valid() && at + count <= buf.Length
      modifies buf
      ensures n == |ReadAt(Image(), offset, count)|
      ensures at + n <= buf.Length
      ensures buf[..] == Overwritten(old(buf[..]), at, ReadAt(Image(), offset, count))
      decreases count
    {
      hide Overwritten, ReadAt, Joined, Laid;
      var fi := FindOffset(offset);
      if fi.None? {
        ReadAtEnd(Image(), offset, count);
        OverwrittenNone(buf[..], at);
        return 0;
      }
      var file := fi.value;
      ghost var i :| 0 <= i < |fileList| && fileList[i] == file;
      FileSlice(fileList, i);
      var fileOffset := offset - file.offset;
      var available := file.length - fileOffset;
      var toRead := if count > available then available else count;
      ReadAtSplit(Image(), offset, count, file, toRead);
      ghost var before := buf[..];
      StreamRead(file.content[fileOffset..fileOffset + toRead], buf, at);
      if toRead == count || toRead == 0 {
        return toRead;
      }
      ghost var rest := ReadAt(Image(), offset + toRead, count - toRead);
      OverwrittenTwice(before, at, file.content[fileOffset..fileOffset + toRead], rest);
      var more := Pread(buf, at + toRead, count - toRead, offset + toRead);
      return toRead + more;
    }

    /** `ifstream::read` of bytes the file has. */
    method StreamRead(data: bytes, buf: array<byte>, at: nat)
      requires at + |data| <= buf.Length
      modifies buf
      ensures buf[..] == Overwritten(old(buf[..]), at, data)
    {
      forall k | 0 <= k < |data| {
        buf[at + k] := data[k];
      }
    }
  }

  /** The bytes of `image` at `offset`, as many of `count` as there are. */
  function ReadAt(image: bytes, offset: nat, count: nat): (r: bytes)
    ensures |r| == if offset < |image| then Min(count, |image| - offset) else 0
  {
    if offset < |image| then image[offset..offset + Min(count, |image| - offset)] else []
  }

  /** `s` with `data` written over it from index `at` on. */
  function Overwritten(s: bytes, at: nat, data: bytes): (r: bytes)
    requires at + |data| <= |s|
    ensures |r| == |s|
  {
    s[..at] + data + s[at + |data|..]
  }

  lemma OverwrittenNone(s: bytes, at: nat)
    requires at <= |s|
    ensures Overwritten(s, at, []) == s
  {}

  lemma OverwrittenTwice(s: bytes, at: nat, a: bytes, b: bytes)
    requires at + |a| + |b| <= |s|
    ensures Overwritten(Overwritten(s, at, a), at + |a|, b) == Overwritten(s, at, a + b)
  {}

  lemma ReadAtEnd(image: bytes, offset: nat, count: nat)
    requires offset >= |image|
    ensures ReadAt(image, offset, count) == []
  {}

  lemma PartOfFile(image: bytes, file: FileInfo, offset: nat, m: nat)
    requires file.length == |file.content| && file.offset + file.length <= |image|
    requires image[file.offset..file.offset + file.length] == file.content
    requires file.offset <= offset && offset + m <= file.offset + file.length
    ensures file.content[offset - file.offset..offset - file.offset + m] == image[offset..offset + m]
  {
    var o := offset - file.offset;
    var a, b := file.content[o..o + m], image[offset..offset + m];
    forall k | 0 <= k < m ensures a[k] == b[k] {
      assert a[k] == file.content[o + k] == image[file.offset..file.offset + file.length][o + k];
    }
    assert a == b;
  }

  lemma SliceInTwo(s: bytes, i: nat, m: nat, n: nat)
    requires m <= n && i + n <= |s|
    ensures s[i..i + n] == s[i..i + m] + s[i + m..i + n]
  {
    assert s[i..i + n] == s[i..i + m] + s[i + m..i + n];
  }

  /** Reading on behind the part one file holds. */
  lemma ReadAtSplit(image: bytes, offset: nat, count: nat, file: FileInfo, toRead: nat)
    requires file.length == |file.content| && file.offset + file.length <= |image|
    requires image[file.offset..file.offset + file.length] == file.content
    requires file.offset <= offset < file.offset + file.length
    requires toRead == Min(count, file.offset + file.length - offset)
    ensures var o := offset - file.offset;
      && ReadAt(image, offset, count) == file.content[o..o + toRead] + ReadAt(image, offset + toRead, count - toRead)
      && (toRead == count ==> ReadAt(image, offset, count) == file.content[o..o + toRead])
  {
    PartOfFile(image, file, offset, toRead);
    ReadInTwo(image, offset, count, toRead);
    hide ReadAt;
  }

  lemma ReadInTwo(image: bytes, offset: nat, count: nat, toRead: nat)
    requires offset < |image| && toRead <= count && offset + toRead <= |image|
    ensures ReadAt(image, offset, count)
         == image[offset..offset + toRead] + ReadAt(image, offset + toRead, count - toRead)
    ensures toRead == count ==> ReadAt(image, offset, count) == image[offset..offset + toRead]
  {
    SliceInTwo(image, offset, toRead, Min(count, |image| - offset));
  }

  // ---- Probing a device for its size ----

  datatype Probe = Size(size: nat) | SeekError

  predicate BitSet(v: nat, k: nat) { v / Pow2(k) % 2 == 1 }

  /** `v | 1 << k` and `v & ~(1 << k)`. */
  function SetBit(v: nat, k: nat): nat { if BitSet(v, k) then v else v + Pow2(k) }

  function ClearBit(v: nat, k: nat): int { if BitSet(v, k) then v - Pow2(k) else v }

  /** Whether one byte can be read at `p` on a device of `n` bytes. */
  predicate Readable(n: nat, p: nat) { p < n }

  lemma MultipleBit(v: nat, k: nat)
    requires v % Pow2(k + 1) == 0
    ensures !BitSet(v, k) && v % Pow2(k) == 0 && (v + Pow2(k)) % Pow2(k) == 0
  {
    var p, q := Pow2(k), v / Pow2(k + 1);
    assert v == (2 * p) * q + v % (2 * p);
    Regroup(p, q);
    DivExact(p, 2 * q);
    DivExact(p, 2 * q + 1);
    hide Pow2;
  }

  lemma Regroup(p: nat, q: nat)
    ensures (2 * p) * q == p * (2 * q) && p * (2 * q + 1) == p * (2 * q) + p
  {}

  lemma DivExact(p: nat, q: nat)
    requires p > 0
    ensures p * q / p == q && p * q % p == 0
  {
    Euclid(p * q, p, q, 0);
  }

  /** Phase 1: the first power of two that cannot be read, or 60 if there is none below 2^60. */
  method FindBits(n: nat) returns (bits: nat)
    ensures bits <= 60
    ensures forall k :: 0 <= k < bits ==> Pow2(k) < n
    ensures bits < 60 ==> Pow2(bits) >= n
  {
    bits := 0;
    while bits < 60
      invariant bits <= 60
      invariant forall k :: 0 <= k < bits ==> Pow2(k) < n
    {
      if !Readable(n, Pow2(bits)) {
        break;
      }
      bits := bits + 1;
    }
  }

  /** Clearing or keeping bit `i` halves the interval in which the size lies. */
  lemma Halve(n: nat, filesize: nat, i: nat)
    requires filesize % Pow2(i + 1) == 0
    requires (n == 0 && filesize == 0) || filesize < n <= filesize + Pow2(i + 1)
    ensures var f := if Readable(n, SetBit(filesize, i)) then SetBit(filesize, i) else ClearBit(filesize, i);
      f >= 0 && f % Pow2(i) == 0 && ((n == 0 && f == 0) || f < n <= f + Pow2(i))
  {
    MultipleBit(filesize, i);
  }

  /** The highest bit, which cannot be read, is cleared first. */
  lemma ClearTop(n: nat, bits: nat)
    requires Pow2(bits) >= n
    ensures !Readable(n, SetBit(Pow2(bits), bits)) && ClearBit(Pow2(bits), bits) == 0
    ensures 0 % Pow2(bits) == 0
  {
    DivExact(Pow2(bits), 1);
  }

  /** The probing phases of `get_filesize`: right for every device they do not
      refuse, except one of a single byte. */
  method ProbeSize(n: nat) returns (r: Probe)
    ensures r == Size(n) <==> n <= Pow2(59) && n != 1
    ensures r == if n > Pow2(59) then SeekError else if n <= 1 then Size(0) else Size(n)
  {
    hide Pow2, BitSet, SetBit, ClearBit, Readable;
    var bits := FindBits(n);
    if bits == 60 {
      assert Pow2(59) < n;
      return SeekError;
    }
    Pow2Monotonic(bits, 59);
    var filesize: int := Pow2(bits);
    var i: int := bits;
    while i >= 0
      invariant -1 <= i <= bits && filesize >= 0
      invariant i == bits ==> filesize == Pow2(bits)
      invariant i < bits ==> filesize % Pow2(i + 1) == 0
      invariant i < bits ==> (n == 0 && filesize == 0) || filesize < n <= filesize + Pow2(i + 1)
      decreases i
    {
      if i == bits {
        ClearTop(n, bits);
      } else {
        Halve(n, filesize, i);
      }
      if Readable(n, SetBit(filesize, i)) {
        filesize := SetBit(filesize, i);
      } else {
        filesize := ClearBit(filesize, i);
      }
      i := i - 1;
    }
    PowZero();
    if filesize > 0 {
      filesize := filesize + 1;
    }
    return Size(filesize);
  }

  lemma PowZero()
    ensures Pow2(0) == 1
  {}
}

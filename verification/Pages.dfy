/**
 The page iterator of `src/image_process.h` over a raw image: where it stands,
 when it has come to the end, and the buffer read at its position.
 */
module Pages {
  import opened Bytes
  import opened ImageFiles
  import Arithmetic

  /** A page with its margin: `data` is the buffer, its first `pagesize` bytes the page. */
  datatype Sbuf = Sbuf(pos: nat, data: bytes, pagesize: nat)

  datatype Read = Page(sbuf: Sbuf) | EndOfImage | Failed

  /** The page at `offset`, as many bytes of it and its margin as there are; a
      byte count past 2^31 is misread through a 32-bit `int`. */
  function PageAt(image: bytes, pagesize: nat, margin: nat, offset: nat): Read {
    if offset > |image| then Failed
    else
      var data := ReadAt(image, offset, pagesize + margin);
      var count := ToInt32(|data|);
      if count == 0 then EndOfImage
      else if count < 0 then Failed
      else Page(Sbuf(offset, data[..count], Min(pagesize, count)))
  }

  /** The position behind a page. */
  function NextOffset(size: nat, pagesize: nat, offset: nat): nat { Min(offset + pagesize, size) }

  /** The position of a block; one beyond the image becomes the last one. */
  function BlockOffset(size: nat, pagesize: nat, block: nat): nat
    requires pagesize > 0
  {
    if block * pagesize > size then size / pagesize * pagesize else block * pagesize
  }

  class ImageIterator {
    const image: ProcessRaw
    var rawOffset: nat
    var pageNumber: nat
    var fileNumber: nat
    var eof: bool

    constructor Begin(image: ProcessRaw)
      ensures this.image == image && rawOffset == 0 && pageNumber == 0 && fileNumber == 0 && !eof
    {
      this.image := image;
      rawOffset, pageNumber, fileNumber, eof := 0, 0, 0, false;
    }

    constructor End(image: ProcessRaw)
      ensures this.image == image && rawOffset == image.rawFilesize && pageNumber == 0 && fileNumber == 0 && eof
    {
      this.image := image;
      rawOffset, pageNumber, fileNumber, eof := image.rawFilesize, 0, 0, true;
    }

    predicate Differs(that: ImageIterator)
      reads this, that
    {
      !(eof && that.eof)
      && (rawOffset != that.rawOffset || pageNumber != that.pageNumber || fileNumber != that.fileNumber)
    }

    method Increment()
      modifies this`rawOffset
      ensures rawOffset == NextOffset(image.rawFilesize, image.pagesize, old(rawOffset))
    {
      rawOffset := rawOffset + image.pagesize;
      if rawOffset > image.rawFilesize {
        rawOffset := image.rawFilesize;
      }
    }

    method SeekBlock(wanted: nat) returns (block: nat)
      requires image.pagesize > 0
      modifies this`rawOffset
      ensures rawOffset == BlockOffset(image.rawFilesize, image.pagesize, wanted) == block * image.pagesize
    {
      block := wanted;
      if block * image.pagesize > image.rawFilesize {
        block := image.rawFilesize / image.pagesize;
      }
      rawOffset := block * image.pagesize;
    }

    method MaxBlocks() returns (n: nat)
      requires image.pagesize > 0
      ensures n == (image.rawFilesize + image.pagesize - 1) / image.pagesize
    {
      n := (image.rawFilesize + image.pagesize - 1) / image.pagesize;
    }

    /** Reads the page at the iterator's position. */
    method SbufAlloc() returns (r: Read)
      requires image.Valid()
      modifies this`eof
      ensures r == PageAt(image.Image(), image.pagesize, image.margin, rawOffset)
      ensures eof == (old(eof) || r.EndOfImage?)
    {
      hide Overwritten, ReadAt, ToInt32, PageAt, Joined, Laid;
      if rawOffset > image.rawFilesize {
        PageBeyond(image.Image(), image.pagesize, image.margin, rawOffset);
        return Failed; // the count wraps around to more memory than there is
      }
      var count := image.pagesize + image.margin;
      var thisPagesize := image.pagesize;
      if image.rawFilesize < rawOffset + count {
        count := image.rawFilesize - rawOffset;
      }
      if thisPagesize > count {
        thisPagesize := count;
      }
      var buf := new byte[count](_ => 0);
      ghost var data := ReadAt(image.Image(), rawOffset, count);
      PageAtCount(image.Image(), image.pagesize, image.margin, rawOffset, count);
      OverwrittenWhole(buf[..], data);
      var n := image.Pread(buf, 0, count, rawOffset);
      assert buf[..] == data;
      var countRead := ToInt32(n);
      if countRead == 0 {
        eof := true;
        return EndOfImage;
      }
      if countRead < 0 {
        return Failed;
      }
      if countRead < count {
        return Page(Sbuf(rawOffset, buf[..countRead], Min(thisPagesize, countRead)));
      }
      assert data[..count] == data;
      return Page(Sbuf(rawOffset, buf[..], thisPagesize));
    }
  }

  lemma PageBeyond(image: bytes, pagesize: nat, margin: nat, offset: nat)
    requires offset > |image|
    ensures PageAt(image, pagesize, margin, offset) == Failed
  {}

  /** The page in terms of the bytes asked for. */
  lemma PageAtCount(image: bytes, pagesize: nat, margin: nat, offset: nat, count: nat)
    requires offset <= |image| && count == Min(pagesize + margin, |image| - offset)
    ensures |ReadAt(image, offset, count)| == count && ToInt32(count) <= count
    ensures PageAt(image, pagesize, margin, offset) ==
      if ToInt32(count) == 0 then EndOfImage
      else if ToInt32(count) < 0 then Failed
      else Page(Sbuf(offset, ReadAt(image, offset, count)[..ToInt32(count)], Min(Min(pagesize, count), ToInt32(count))))
  {
    SameRead(image, offset, pagesize + margin, count);
    IntExact(count);
  }

  /** Asking for no more than there is changes nothing. */
  lemma SameRead(image: bytes, offset: nat, wanted: nat, count: nat)
    requires offset <= |image| && count == Min(wanted, |image| - offset)
    ensures ReadAt(image, offset, wanted) == ReadAt(image, offset, count) && |ReadAt(image, offset, count)| == count
  {}

  lemma OverwrittenWhole(s: bytes, data: bytes)
    requires |s| == |data|
    ensures Overwritten(s, 0, data) == data
  {}

  // ---- The pages of an image ----

  /** The offsets a sequential reader comes to, from `offset` on. */
  function PageOffsets(size: nat, pagesize: nat, scanEnd: nat, offset: nat): seq<nat>
    requires pagesize > 0
    decreases if offset > size then 1 else size - offset + if offset < size then 1 else 0
  {
    if offset == size || (scanEnd != 0 && scanEnd <= offset) then []
    else [offset] + PageOffsets(size, pagesize, scanEnd, NextOffset(size, pagesize, offset))
  }

  /** The byte count of a page with its margin, as the `int` it is stored in. */
  function Count(size: nat, pagesize: nat, margin: nat, offset: nat): int
    requires offset <= size
  {
    ToInt32(Min(pagesize + margin, size - offset))
  }

  /** What is read at a position inside the image, for any page size and margin. */
  lemma PageMeaning(image: bytes, pagesize: nat, margin: nat, offset: nat)
    requires pagesize > 0 && offset < |image|
    ensures var c := Count(|image|, pagesize, margin, offset);
      && offset + c <= |image|
      && PageAt(image, pagesize, margin, offset) ==
           if c == 0 then EndOfImage
           else if c < 0 then Failed
           else Page(Sbuf(offset, image[offset..offset + c], Min(NextOffset(|image|, pagesize, offset) - offset, c)))
  {
    IntExact(Min(pagesize + margin, |image| - offset));
    hide ToInt32;
  }

  /** The page itself arrives complete. */
  predicate WholePage(image: bytes, pagesize: nat, offset: nat, r: Read)
    requires offset <= |image|
  {
    && r.Page? && r.sbuf.pos == offset && r.sbuf.pagesize <= |r.sbuf.data|
    && r.sbuf.data[..r.sbuf.pagesize] == image[offset..NextOffset(|image|, pagesize, offset)]
  }

  /** A page arrives complete if and only if its byte count, misread as an `int`, still covers it. */
  lemma PageWhole(image: bytes, pagesize: nat, margin: nat, offset: nat)
    requires pagesize > 0 && offset < |image|
    ensures WholePage(image, pagesize, offset, PageAt(image, pagesize, margin, offset))
       <==> Count(|image|, pagesize, margin, offset) >= NextOffset(|image|, pagesize, offset) - offset
  {
    PageMeaning(image, pagesize, margin, offset);
    hide PageAt, Count;
    var c := Count(|image|, pagesize, margin, offset);
    var n := NextOffset(|image|, pagesize, offset) - offset;
    if c >= n {
      assert image[offset..offset + c][..n] == image[offset..offset + n];
    }
  }

  /** A page of 2^31 bytes without a margin is not read but reported as unreadable. */
  lemma HugePageFails(image: bytes)
    requires |image| >= 0x8000_0000
    ensures PageAt(image, 0x8000_0000, 0, 0) == Failed
  {
    PageMeaning(image, 0x8000_0000, 0, 0);
    hide PageAt;
  }

  /** A span of at most margin + 1 bytes that starts in the page at `offset`. */
  predicate Span(size: nat, pagesize: nat, margin: nat, offset: nat, at: nat, len: nat) {
    offset <= at < offset + pagesize && len <= margin + 1 && at + len <= size
  }

  predicate InBuffer(image: bytes, r: Read, offset: nat, at: nat, len: nat)
    requires offset <= at && at + len <= |image|
  {
    r.Page? && at - offset + len <= |r.sbuf.data| && r.sbuf.data[at - offset..at - offset + len] == image[at..at + len]
  }

  /** Every such span lies in the page's buffer if and only if fewer than 2^31 bytes are asked for. */
  lemma SpanInBuffer(image: bytes, pagesize: nat, margin: nat, offset: nat)
    requires pagesize > 0 && offset < |image|
    ensures var r := PageAt(image, pagesize, margin, offset);
      (forall at: nat, len: nat | Span(|image|, pagesize, margin, offset, at, len) ::
         InBuffer(image, r, offset, at, len))
      <==> Min(pagesize + margin, |image| - offset) < 0x8000_0000
  {
    PageMeaning(image, pagesize, margin, offset);
    var n := Min(pagesize + margin, |image| - offset);
    var r := PageAt(image, pagesize, margin, offset);
    IntExact(n);
    hide PageAt, ToInt32, InBuffer, Span;
    if n < 0x8000_0000 {
      forall at: nat, len: nat | Span(|image|, pagesize, margin, offset, at, len)
        ensures InBuffer(image, r, offset, at, len)
      {
        SpanCovered(image, pagesize, margin, offset, r, at, len);
      }
    } else {
      LastSpan(image, pagesize, margin, offset, r);
    }
  }

  lemma SpanCovered(image: bytes, pagesize: nat, margin: nat, offset: nat, r: Read, at: nat, len: nat)
    requires pagesize > 0 && offset < |image| && Span(|image|, pagesize, margin, offset, at, len)
    requires r.Page? && r.sbuf.data == image[offset..offset + Min(pagesize + margin, |image| - offset)]
    ensures InBuffer(image, r, offset, at, len)
  {
    var n := Min(pagesize + margin, |image| - offset);
    assert at - offset + len <= n;
    SliceOfSlice(image, offset, n, at - offset, len);
  }

  lemma SliceOfSlice(s: bytes, a: nat, n: nat, i: nat, len: nat)
    requires a + n <= |s| && i + len <= n
    ensures s[a..a + n][i..i + len] == s[a + i..a + i + len]
  {
    var t := s[a..a + n];
    var u, v := t[i..i + len], s[a + i..a + i + len];
    forall k | 0 <= k < len ensures u[k] == v[k] {
      assert u[k] == t[i + k] == s[a + (i + k)];
    }
    assert u == v;
  }

  /** The span at the end of the bytes asked for is not in a shorter buffer. */
  lemma LastSpan(image: bytes, pagesize: nat, margin: nat, offset: nat, r: Read)
    requires pagesize > 0 && offset < |image|
    requires r.Page? ==> |r.sbuf.data| < Min(pagesize + margin, |image| - offset)
    ensures exists at: nat, len: nat ::
      Span(|image|, pagesize, margin, offset, at, len) && !InBuffer(image, r, offset, at, len)
  {
    var n := Min(pagesize + margin, |image| - offset);
    var at := offset + if n <= pagesize then n - 1 else pagesize - 1;
    var len := offset + n - at;
    assert Span(|image|, pagesize, margin, offset, at, len) && !InBuffer(image, r, offset, at, len);
  }

  /** The offsets are those multiples of the page size, from `offset` on, that lie in the image. */
  lemma {:induction false} OffsetAt(size: nat, pagesize: nat, scanEnd: nat, offset: nat, i: nat)
    requires pagesize > 0 && offset <= size && i < |PageOffsets(size, pagesize, scanEnd, offset)|
    ensures PageOffsets(size, pagesize, scanEnd, offset)[i] == offset + i * pagesize < size
    decreases i
  {
    if i > 0 {
      var next := NextOffset(size, pagesize, offset);
      OffsetAt(size, pagesize, scanEnd, next, i - 1);
      assert i * pagesize == (i - 1) * pagesize + pagesize;
    }
  }

  /** Exactly those offsets are read: whole pages on from the first, inside the image and below the end of the scan. */
  lemma {:induction false} OffsetsExactly(size: nat, pagesize: nat, scanEnd: nat, offset: nat, o: nat)
    requires pagesize > 0 && offset <= size
    ensures o in PageOffsets(size, pagesize, scanEnd, offset)
       <==> offset <= o < size && (o - offset) % pagesize == 0 && (scanEnd == 0 || o < scanEnd)
    decreases size - offset
  {
    if offset < size && !(scanEnd != 0 && scanEnd <= offset) {
      var next := NextOffset(size, pagesize, offset);
      OffsetsExactly(size, pagesize, scanEnd, next, o);
      var all := PageOffsets(size, pagesize, scanEnd, offset);
      assert all == [offset] + PageOffsets(size, pagesize, scanEnd, next);
      if offset < o {
        OnePageOn(o - offset, pagesize);
      }
    }
  }

  /** A distance is a number of pages if and only if it is one after a page is taken off. */
  lemma OnePageOn(d: nat, p: nat)
    requires p > 0 && d > 0
    ensures d % p == 0 ==> d >= p
    ensures d >= p ==> (d % p == 0 <==> (d - p) % p == 0)
  {
    if d >= p {
      var q, r := (d - p) / p, (d - p) % p;
      assert d == p * (q + 1) + r;
      Arithmetic.Euclid(d, p, q + 1, r);
    } else {
      Arithmetic.Euclid(d, p, 0, d);
    }
  }

  predicate Ascending(s: seq<nat>) { forall i, j :: 0 <= i < j < |s| ==> s[i] < s[j] }

  lemma {:induction false} OffsetsAscend(size: nat, pagesize: nat, offset: nat)
    requires pagesize > 0 && offset <= size
    ensures var s := PageOffsets(size, pagesize, 0, offset);
      Ascending(s) && forall i :: 0 <= i < |s| ==> offset <= s[i] < size
    decreases size - offset
  {
    if offset < size {
      OffsetsAscend(size, pagesize, NextOffset(size, pagesize, offset));
    }
  }
}

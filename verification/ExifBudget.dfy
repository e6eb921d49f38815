/** What the IFD walk keeps: an exact account of bytes that no wrap-around defeats, and bounds on what it visits. */
module ExifBudget {
  import opened Bytes
  import opened Exif

  /** The true, unbounded sum. */
  function Sum(sizes: seq<nat>): nat {
    if sizes == [] then 0 else Sum(sizes[..|sizes| - 1]) + sizes[|sizes| - 1]
  }

  /** The 32-bit account is the true sum, and below the limit. */
  predicate Good(st: State) { st.bytesRead == Sum(st.sizes) < MAX_EXIF_BYTES }

  /** A value is charged without failure if and only if the true sum stays below the limit,
      although the multiplication and the addition wrap at 32 bits. */
  lemma ChargeIsExact(bytesRead: nat, count: nat, width: nat)
    requires bytesRead < MAX_EXIF_BYTES && (width == 1 || width == 2 || width == 4 || width == 8)
    ensures count < MAX_EXIF_BYTES / width && Charged(bytesRead, count, width) < MAX_EXIF_BYTES
       <==> bytesRead + count * width < MAX_EXIF_BYTES
    ensures bytesRead + count * width < MAX_EXIF_BYTES ==> Charged(bytesRead, count, width) == bytesRead + count * width
  {
    LimitIsSize(count, width);
    ChargedBelow(bytesRead, count, width);
    hide Charged;
  }

  lemma LimitIsSize(count: nat, width: nat)
    requires width == 1 || width == 2 || width == 4 || width == 8
    ensures count < MAX_EXIF_BYTES / width <==> count * width < MAX_EXIF_BYTES
  {
    if width == 1 {
      assert MAX_EXIF_BYTES / width == 0x10000;
    } else if width == 2 {
      assert MAX_EXIF_BYTES / width == 0x8000;
    } else if width == 4 {
      assert MAX_EXIF_BYTES / width == 0x4000;
    } else {
      assert MAX_EXIF_BYTES / width == 0x2000;
    }
  }

  lemma ChargedBelow(bytesRead: nat, count: nat, width: nat)
    requires bytesRead < MAX_EXIF_BYTES
    ensures count * width < MAX_EXIF_BYTES ==> Charged(bytesRead, count, width) == bytesRead + count * width
  {
    var size := count * width;
    assert Charged(bytesRead, count, width) == (bytesRead + size % TWO_TO_32) % TWO_TO_32;
  }

  /** An entry recorded below `root`: it lies in the buffer, has a tag to record in its own
      directory, and that directory belongs to the same of the two top directories. */
  predicate Sound(t: Tiff, root: IfdType, e: Entry) {
    && e.offset + 12 <= |t.buf| && e.tag == Get16(t, e.offset) && IsValueTag(e.ifd, e.tag)
    && First(e.ifd) == First(root) && Rank(e.ifd) <= Rank(root)
  }

  /** What every part of the walk keeps. `most` bounds the entries it records. */
  predicate Kept(t: Tiff, root: IfdType, st: State, next: State, status: Status, most: nat) {
    && st.sizes <= next.sizes && st.entries <= next.entries
    && Sum(next.sizes) < MAX_EXIF_BYTES && (status == Running ==> Good(next))
    && |next.entries| - |st.entries| <= |next.sizes| - |st.sizes|
    && |next.entries| - |st.entries| <= most
    && forall k :: |st.entries| <= k < |next.entries| ==> Sound(t, root, next.entries[k])
  }

  lemma KeptThen(t: Tiff, root: IfdType, a: State, b: State, c: State, status: Status, m: nat, n: nat)
    requires Kept(t, root, a, b, Running, m) && Kept(t, root, b, c, status, n)
    ensures Kept(t, root, a, c, status, m + n)
  {
    hide Sound, Sum;
    forall k | |a.entries| <= k < |c.entries| ensures Sound(t, root, c.entries[k]) {
      if k < |b.entries| {
        assert c.entries[k] == b.entries[k];
      }
    }
  }

  lemma KeptWithin(t: Tiff, root: IfdType, a: State, b: State, status: Status, m: nat, n: nat)
    requires Kept(t, root, a, b, status, m) && m <= n
    ensures Kept(t, root, a, b, status, n)
  {}

  lemma KeptNothing(t: Tiff, root: IfdType, a: State, status: Status)
    requires Good(a)
    ensures Kept(t, root, a, a, status, 0)
  {}

  lemma KeptGood(t: Tiff, root: IfdType, a: State, b: State, m: nat)
    requires Kept(t, root, a, b, Running, m)
    ensures Good(b)
  {}

  /** How many entries one entry of a directory can lead to. */
  function PerEntry(rank: nat): nat {
    if rank == 0 then 1 else MAX_IFD_ENTRIES * PerEntry(rank - 1)
  }

  /** Reading a value accepts it if and only if the true sum stays below the limit, and then adds its size. */
  lemma ValueKeeps(t: Tiff, off: nat, st: State)
    requires off + 12 <= |t.buf| && Good(st)
    ensures var (next, status) := Value(t, off, st);
      var size := Get32(t, At(off, 4), 0) * Width(Get16(t, At(off, 2)));
      && next.entries == st.entries
      && (next.sizes == if Sum(st.sizes) + size < MAX_EXIF_BYTES then st.sizes + [size] else st.sizes)
      && (status == Running ==> Good(next) && |next.sizes| == |st.sizes| + 1) && Sum(next.sizes) < MAX_EXIF_BYTES
  {
    var count, width := Get32(t, At(off, 4), 0), Width(Get16(t, At(off, 2)));
    ChargeIsExact(st.bytesRead, count, width);
    assert (st.sizes + [count * width])[..|st.sizes|] == st.sizes;
    hide Get16, Get32, Readable, Charged;
  }

  lemma {:induction false} OneEntryKeeps(t: Tiff, ifd: IfdType, off: nat, st: State)
    requires Good(st)
    ensures Kept(t, ifd, st, OneEntry(t, ifd, off, st).0, OneEntry(t, ifd, off, st).1, PerEntry(Rank(ifd)))
    decreases Rank(ifd), 0, 0
  {
    hide IsValueTag, Get16, Get32, Value, Sum;
    PerEntryPositive(Rank(ifd));
    if off + 12 <= |t.buf| {
      var tag := Get16(t, off);
      if Target(ifd, tag).Some? {
        var child := Target(ifd, tag).value;
        DirectoryKeeps(t, child, Get32(t, At(off, 8), 0), st);
        PerEntryMonotonic(Rank(child), Rank(ifd) - 1);
      } else if IsValueTag(ifd, tag) {
        ValueKeeps(t, off, st);
      }
    }
  }

  lemma {:induction false} EntriesKeep(t: Tiff, ifd: IfdType, at: nat, i: nat, n: nat, st: State)
    requires i <= n && Good(st)
    ensures Kept(t, ifd, st, EntriesFrom(t, ifd, at, i, n, st).0, EntriesFrom(t, ifd, at, i, n, st).1,
                 (n - i) * PerEntry(Rank(ifd)))
    decreases Rank(ifd), 1, n - i
  {
    var per := PerEntry(Rank(ifd));
    hide OneEntry, EntryOffset, PerEntry, Good, Kept;
    Products(n - i, per);
    KeptNothing(t, ifd, st, Running);
    KeptNothing(t, ifd, st, ExifFailure);
    if i < n {
      var (next, status) := OneEntry(t, ifd, EntryOffset(at, i), st);
      OneEntryKeeps(t, ifd, EntryOffset(at, i), st);
      if status == Running {
        KeptGood(t, ifd, st, next, per);
        EntriesKeep(t, ifd, at, i + 1, n, next);
        var (last, end) := EntriesFrom(t, ifd, at, i + 1, n, next);
        KeptThen(t, ifd, st, next, last, end, per, (n - i - 1) * per);
      } else {
        KeptWithin(t, ifd, st, next, status, per, (n - i) * per);
      }
      KeptWithin(t, ifd, st, st, ExifFailure, 0, (n - i) * per);
    }
  }

  lemma Products(n: nat, per: nat)
    ensures n * per >= 0 && (n > 0 ==> n * per == per + (n - 1) * per >= per)
  {}

  lemma {:induction false} DirectoryKeeps(t: Tiff, ifd: IfdType, at: nat, st: State)
    requires Good(st)
    ensures Kept(t, ifd, st, Directory(t, ifd, at, st).0, Directory(t, ifd, at, st).1,
                 MAX_IFD_ENTRIES * PerEntry(Rank(ifd)))
    decreases Rank(ifd), 2, 0
  {
    var n, per := Get16(t, at), PerEntry(Rank(ifd));
    hide EntriesFrom, PerEntry, Good, Kept, Get16;
    if n <= MAX_IFD_ENTRIES {
      EntriesKeep(t, ifd, at, 0, n, st);
      var (next, status) := EntriesFrom(t, ifd, at, 0, n, st);
      assert n * per <= MAX_IFD_ENTRIES * per by {
        assert MAX_IFD_ENTRIES * per == n * per + (MAX_IFD_ENTRIES - n) * per && (MAX_IFD_ENTRIES - n) * per >= 0;
      }
      KeptWithin(t, ifd, st, next, status, n * per, MAX_IFD_ENTRIES * per);
    } else {
      KeptNothing(t, ifd, st, ExifFailure);
      KeptWithin(t, ifd, st, st, ExifFailure, 0, MAX_IFD_ENTRIES * per);
    }
  }

  lemma {:induction false} PerEntryMonotonic(a: nat, b: nat)
    requires a <= b
    ensures PerEntry(a) <= PerEntry(b)
    decreases b
  {
    if a < b {
      PerEntryMonotonic(a, b - 1);
    }
  }

  lemma PerEntryPositive(rank: nat)
    ensures PerEntry(rank) >= 1
  {
    PerEntryMonotonic(0, rank);
  }

  /** For every buffer, whatever its offsets point to: the values accepted by the whole walk take fewer than
      0x10000 bytes in truth, `bytes_read` is their sum unless the walk failed, and no more than 1000 entries
      at each of three levels are recorded under either top directory. */
  lemma WalkKeepsBudget(t: Tiff)
    ensures var (st, status) := TiffData(t);
      && Sum(st.sizes) < MAX_EXIF_BYTES && (status == Running ==> st.bytesRead == Sum(st.sizes))
      && |st.entries| <= |st.sizes| && |st.entries| <= 2 * 1000 * 1000 * 1000
      && forall k :: 0 <= k < |st.entries| ==>
           Sound(t, IFD0_TIFF, st.entries[k]) || Sound(t, IFD1_TIFF, st.entries[k])
  {
    hide Directory, Sum, Sound, Get32, NextIfd;
    var start := State(0, [], []);
    SumEmpty();
    assert PerEntry(2) == 1000 * 1000 by {
      assert PerEntry(1) == 1000 * PerEntry(0);
    }
    var at0 := Get32(t, 4, 0);
    DirectoryKeeps(t, IFD0_TIFF, at0, start);
    var (st, status) := Directory(t, IFD0_TIFF, at0, start);
    if status == Running {
      DirectoryKeeps(t, IFD1_TIFF, NextIfd(t, at0), st);
    }
  }

  lemma SumEmpty()
    ensures Sum([]) == 0
  {}
}

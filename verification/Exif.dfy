/**
 The walk over the image file directories (IFDs) of a TIFF in
 `src/exif_entry.cpp` and `src/exif_reader.cpp`: which entries it visits, and
 its account of the bytes their values take. Values themselves are text and are
 left out, but for the size and the failures they cause.
 */
module Exif {
  import opened Bytes

  datatype IfdType =
    | IFD0_TIFF | IFD0_EXIF | IFD0_GPS | IFD0_INTEROPERABILITY
    | IFD1_TIFF | IFD1_EXIF | IFD1_GPS | IFD1_INTEROPERABILITY

  /** A buffer, its byte order, and the number the text of a value starts with
      (`atol`), by the offset of the entry. */
  datatype Tiff = Tiff(buf: bytes, bigEndian: bool, number: nat -> nat)

  /** An entry that was recorded. */
  datatype Entry = Entry(ifd: IfdType, tag: nat, offset: nat)

  /** The walk goes on, or an exception has ended it. */
  datatype Status = Running | ExifFailure | RangeError

  /** `bytes_read` (32 bits), the list of entries, and the sizes of all values accepted so far. */
  datatype State = State(bytesRead: nat, entries: seq<Entry>, sizes: seq<nat>)

  const MAX_IFD_ENTRIES := 1000
  const MAX_EXIF_BYTES := 0x10000
  const MAX_IMAGE_SIZE := 65535

  // ---- Readers: a read past the end gives a default ----

  function Get16(t: Tiff, i: nat): (r: nat)
    ensures r < 0x10000
  {
    if i + 2 > |t.buf| then 0
    else if t.bigEndian then t.buf[i] as int * 256 + t.buf[i + 1]
    else t.buf[i + 1] as int * 256 + t.buf[i]
  }

  function Get32(t: Tiff, i: nat, default: nat): (r: nat)
    requires default < TWO_TO_32
    ensures r < TWO_TO_32
  {
    if i + 4 > |t.buf| then default
    else if t.bigEndian then Get16(t, i) * 0x10000 + Get16(t, i + 2)
    else Get16(t, i + 2) * 0x10000 + Get16(t, i)
  }

  /** The size of one item of a value; entries of unknown types are read as bytes. */
  function Width(entryType: nat): nat {
    match entryType
    case 3 => 2
    case 4 => 4
    case 5 => 8
    case 9 => 4
    case 10 => 8
    case _ => 1
  }

  predicate KnownType(entryType: nat) { 1 <= entryType <= 5 || entryType == 7 || entryType == 9 || entryType == 10 }

  /** A place in the entry at `off`, in 32-bit arithmetic. */
  function At(off: nat, k: nat): nat { (off + k) % TWO_TO_32 }

  /** `get_data_offset`, cut to 16 bits by its return type. */
  function DataOffset(t: Tiff, off: nat): nat
    requires off + 12 <= |t.buf|
  {
    var entryType := Get16(t, At(off, 2));
    var size := Get32(t, At(off, 4), 0) * Width(entryType) % TWO_TO_32;
    if !KnownType(entryType) then 0
    else if size <= 4 then (off + 8) % 0x10000
    else Get32(t, At(off, 8), 0) % 0x10000
  }

  // ---- Tags ----

  predicate IsTiff(ifd: IfdType) { ifd.IFD0_TIFF? || ifd.IFD1_TIFF? }

  predicate IsExif(ifd: IfdType) { ifd.IFD0_EXIF? || ifd.IFD1_EXIF? }

  predicate IsGps(ifd: IfdType) { ifd.IFD0_GPS? || ifd.IFD1_GPS? }

  predicate First(ifd: IfdType) {
    ifd.IFD0_TIFF? || ifd.IFD0_EXIF? || ifd.IFD0_GPS? || ifd.IFD0_INTEROPERABILITY?
  }

  /** Tags whose value is recorded. */
  predicate IsValueTag(ifd: IfdType, tag: nat) {
    if IsTiff(ifd) then IsTiffTag(tag)
    else if IsExif(ifd) then IsExifTag(tag)
    else if IsGps(ifd) then tag <= 0x1f
    else tag == 1
  }

  predicate IsTiffTag(tag: nat) {
    || tag == 0x100 || tag == 0x102 || tag == 0x103 || tag == 0x106 || tag == 0x10e || tag == 0x10f
    || tag == 0x110 || tag == 0x111 || tag == 0x112 || tag == 0x115 || tag == 0x116 || tag == 0x117
    || tag == 0x11a || tag == 0x11b || tag == 0x11c || tag == 0x128 || tag == 0x12d || tag == 0x131
    || tag == 0x132 || tag == 0x13b || tag == 0x13e || tag == 0x13f || tag == 0x201 || tag == 0x202
    || tag == 0x211 || tag == 0x212 || tag == 0x213 || tag == 0x214 || tag == 0x8298
  }

  predicate IsExifTag(tag: nat) {
    || tag == 0x829a || tag == 0x829d || tag == 0x8822 || tag == 0x8824 || tag == 0x8827 || tag == 0x8828
    || tag == 0x8830 || tag == 0x8831 || tag == 0x8832 || tag == 0x8833 || tag == 0x8834 || tag == 0x8835
    || tag == 0x9000 || tag == 0x9003 || tag == 0x9004 || tag == 0x9101 || tag == 0x9102 || tag == 0x9201
    || tag == 0x9202 || tag == 0x9203 || tag == 0x9204 || tag == 0x9205 || tag == 0x9206 || tag == 0x9207
    || tag == 0x9208 || tag == 0x9209 || tag == 0x920a || tag == 0x9214 || tag == 0x9286 || tag == 0x9290
    || tag == 0x9291 || tag == 0x9292 || tag == 0xa000 || tag == 0xa001 || tag == 0xa002 || tag == 0xa003
    || tag == 0xa004 || tag == 0xa20b || tag == 0xa20c || tag == 0xa20e || tag == 0xa20f || tag == 0xa210
    || tag == 0xa214 || tag == 0xa215 || tag == 0xa217 || tag == 0xa300 || tag == 0xa301 || tag == 0xa302
    || tag == 0xa401 || tag == 0xa402 || tag == 0xa403 || tag == 0xa404 || tag == 0xa405 || tag == 0xa406
    || tag == 0xa407 || tag == 0xa408 || tag == 0xa409 || tag == 0xa40a || tag == 0xa40b || tag == 0xa40c
    || tag == 0xa420 || tag == 0xa430 || tag == 0xa431 || tag == 0xa432 || tag == 0xa433 || tag == 0xa434
    || tag == 0xa435 || tag == 0xa500
  }

  /** The directory a tag points to, if it points to one. */
  function Target(ifd: IfdType, tag: nat): Option<IfdType> {
    match ifd
    case IFD0_TIFF => if tag == 0x8769 then Some(IFD0_EXIF) else if tag == 0x8825 then Some(IFD0_GPS) else None
    case IFD1_TIFF => if tag == 0x8769 then Some(IFD1_EXIF) else if tag == 0x8825 then Some(IFD1_GPS) else None
    case IFD0_EXIF => if tag == 0xa005 then Some(IFD0_INTEROPERABILITY) else None
    case IFD1_EXIF => if tag == 0xa005 then Some(IFD1_INTEROPERABILITY) else None
    case _ => None
  }

  /** How deep directories can still nest below one. */
  function Rank(ifd: IfdType): nat { if IsTiff(ifd) then 2 else if IsExif(ifd) then 1 else 0 }

  // ---- The walk as a function ----

  /** Reading one value: the account first, then the failures of the reading itself. */
  function Value(t: Tiff, off: nat, st: State): (State, Status)
    requires off + 12 <= |t.buf|
  {
    var entryType, count := Get16(t, At(off, 2)), Get32(t, At(off, 4), 0);
    var charged := st.(bytesRead := Charged(st.bytesRead, count, Width(entryType)));
    if count >= MAX_EXIF_BYTES / Width(entryType) || charged.bytesRead >= MAX_EXIF_BYTES then (charged, ExifFailure)
    else (charged.(sizes := st.sizes + [count * Width(entryType)]), Readable(t, off))
  }

  /** The new value of `bytes_read`, in 32-bit arithmetic. */
  function Charged(bytesRead: nat, count: nat, width: nat): nat {
    (bytesRead + count * width % TWO_TO_32) % TWO_TO_32
  }

  /** Whether a value within the account can be turned into text. */
  function Readable(t: Tiff, off: nat): Status
    requires off + 12 <= |t.buf|
  {
    var entryType, count, at := Get16(t, At(off, 2)), Get32(t, At(off, 4), 0), DataOffset(t, off);
    if entryType == 5 || entryType == 9 || entryType == 10 then Running
    else if entryType == 2 then
      if count > (if at < |t.buf| then |t.buf| - at else 0) then ExifFailure
      else if at > |t.buf| then RangeError
      else Running
    else if count != 1 && at > |t.buf| then RangeError
    else Running
  }

  /** The entry at `off`. */
  function OneEntry(t: Tiff, ifd: IfdType, off: nat, st: State): (State, Status)
    decreases Rank(ifd), 0, 0
  {
    if off + 12 > |t.buf| then (st, Running)
    else
      var tag := Get16(t, off);
      if Target(ifd, tag).Some? then Directory(t, Target(ifd, tag).value, Get32(t, At(off, 8), 0), st)
      else if !IsValueTag(ifd, tag) then (st, Running)
      else
        var (read, status) := Value(t, off, st);
        if status != Running then (read, status)
        else if IsExif(ifd) && (tag == 0xa002 || tag == 0xa003) && t.number(off) % TWO_TO_32 > MAX_IMAGE_SIZE then
          (read, ExifFailure)
        else (read.(entries := read.entries + [Entry(ifd, tag, off)]), Running)
  }

  /** `get_entry_offset`, cut to 32 bits where it is used. */
  function EntryOffset(at: nat, i: nat): nat { (at + 2 + i * 12) % TWO_TO_32 }

  /** The entries from index `i` on. */
  function EntriesFrom(t: Tiff, ifd: IfdType, at: nat, i: nat, n: nat, st: State): (State, Status)
    requires i <= n
    decreases Rank(ifd), 1, n - i
  {
    if i == n then (st, Running)
    else if st.bytesRead >= MAX_EXIF_BYTES || (EntryOffset(at, i) + 12) % TWO_TO_32 > |t.buf| then (st, ExifFailure)
    else
      var (next, status) := OneEntry(t, ifd, EntryOffset(at, i), st);
      if status != Running then (next, status) else EntriesFrom(t, ifd, at, i + 1, n, next)
  }

  /** The directory at `at`. */
  function Directory(t: Tiff, ifd: IfdType, at: nat, st: State): (State, Status)
    decreases Rank(ifd), 2, 0
  {
    var n := Get16(t, at);
    if n > MAX_IFD_ENTRIES then (st, ExifFailure) else EntriesFrom(t, ifd, at, 0, n, st)
  }

  /** Both directories of a TIFF. */
  function TiffData(t: Tiff): (State, Status)
  {
    var start := State(0, [], []);
    var at0 := Get32(t, 4, 0);
    if |t.buf| < 4 || at0 == 0 then (start, Running)
    else
      var (st, status) := Directory(t, IFD0_TIFF, at0, start);
      var at1 := NextIfd(t, at0);
      if status != Running || at1 == 0 then (st, status) else Directory(t, IFD1_TIFF, at1, st)
  }

  /** `get_next_ifd_offset`; the place of the pointer is cut to 32 bits. */
  function NextIfd(t: Tiff, at: nat): nat {
    if at == 0 then 0 else Get32(t, (at + 2 + Get16(t, at) * 12) % TWO_TO_32, 0)
  }

  // ---- The walk ----

  class EntryReader {
    const t: Tiff
    var bytesRead: nat
    var entries: seq<Entry>
    ghost var sizes: seq<nat>

    constructor (t: Tiff)
      ensures this.t == t && Now() == State(0, [], [])
    {
      this.t := t;
      bytesRead, entries, sizes := 0, [], [];
    }

    ghost function Now(): State
      reads this
    {
      State(bytesRead, entries, sizes)
    }

    /** The account at the head of every value reader. */
    method Charge(count: nat, width: nat, limit: nat) returns (ok: bool)
      modifies this`bytesRead, this`sizes
      ensures bytesRead == Charged(old(bytesRead), count, width)
      ensures ok <==> count < limit && bytesRead < 0x10000
      ensures sizes == if ok then old(sizes) + [count * width] else old(sizes)
    {
      bytesRead := (bytesRead + count * width % TWO_TO_32) % TWO_TO_32;
      if count >= limit || bytesRead >= 0x10000 {
        return false;
      }
      sizes := sizes + [count * width];
      return true;
    }

    /** `get_value` and the readers it chooses from. */
    method GetValue(off: nat) returns (status: Status)
      requires off + 12 <= |t.buf|
      modifies this`bytesRead, this`sizes
      ensures (Now(), status) == Value(t, off, old(Now()))
    {
      var entryType, count, offset := Get16(t, At(off, 2)), Get32(t, At(off, 4), 0), DataOffset(t, off);
      var ok;
      match entryType {
        case 2 => // EXIF_ASCII
          ok := Charge(count, 1, 0x10000);
          if !ok {
            return ExifFailure;
          }
          if count > Left(offset) {
            return ExifFailure;
          }
          return Slice(offset);
        case 3 => // EXIF_SHORT
          ok := Charge(count, 2, 0x8000);
          if !ok {
            return ExifFailure;
          }
          return if count == 1 then Running else Slice(offset);
        case 4 => // EXIF_LONG
          ok := Charge(count, 4, 0x4000);
          if !ok {
            return ExifFailure;
          }
          return if count == 1 then Running else Slice(offset);
        case 5 => // EXIF_RATIONAL
          ok := Charge(count, 8, 0x2000);
          return if ok then Running else ExifFailure;
        case 9 => // EXIF_SLONG
          ok := Charge(count, 4, 0x4000);
          return if ok then Running else ExifFailure;
        case 10 => // EXIF_SRATIONAL
          ok := Charge(count, 8, 0x2000);
          return if ok then Running else ExifFailure;
        case _ => // EXIF_BYTE, EXIF_UNDEFINED and unknown types
          ok := Charge(count, 1, 0x10000);
          if !ok {
            return ExifFailure;
          }
          return if count == 1 then Running else Slice(offset);
      }
    }

    function Left(n: nat): nat { if n < |t.buf| then |t.buf| - n else 0 }

    /** Taking the rest of the buffer from an offset past its end raises an exception. */
    function Slice(offset: nat): Status { if offset > |t.buf| then RangeError else Running }

    /** `parse_entry`. */
    method ParseEntry(ifd: IfdType, off: nat) returns (status: Status)
      modifies this
      ensures (Now(), status) == OneEntry(t, ifd, off, old(Now()))
      decreases Rank(ifd), 0
    {
      hide IsValueTag, Value, Get16, Get32;
      if off + 12 > |t.buf| {
        return Running;
      }
      var tag := Get16(t, off);
      if IsTiff(ifd) && tag == 0x8769 {
        status := ParseIfdEntries(if ifd == IFD0_TIFF then IFD0_EXIF else IFD1_EXIF, Get32(t, At(off, 8), 0));
        return;
      }
      if IsTiff(ifd) && tag == 0x8825 {
        status := ParseIfdEntries(if ifd == IFD0_TIFF then IFD0_GPS else IFD1_GPS, Get32(t, At(off, 8), 0));
        return;
      }
      if IsExif(ifd) && tag == 0xa005 {
        status := ParseIfdEntries(if ifd == IFD0_EXIF then IFD0_INTEROPERABILITY else IFD1_INTEROPERABILITY,
                                  Get32(t, At(off, 8), 0));
        return;
      }
      if !IsValueTag(ifd, tag) {
        return Running;
      }
      status := GetValue(off);
      if status != Running {
        return;
      }
      if IsExif(ifd) && (tag == 0xa002 || tag == 0xa003) {
        var length := t.number(off) % TWO_TO_32;
        if length > MAX_IMAGE_SIZE {
          return ExifFailure;
        }
      }
      entries := entries + [Entry(ifd, tag, off)];
    }

    /** `parse_ifd_entries`. */
    method ParseIfdEntries(ifd: IfdType, at: nat) returns (status: Status)
      modifies this
      ensures (Now(), status) == Directory(t, ifd, at, old(Now()))
      decreases Rank(ifd), 1
    {
      hide OneEntry, EntryOffset;
      var numEntries := Get16(t, at);
      if numEntries == 0 {
        return Running;
      }
      if numEntries > MAX_IFD_ENTRIES {
        return ExifFailure;
      }
      for i := 0 to numEntries
        invariant EntriesFrom(t, ifd, at, i, numEntries, Now()) == Directory(t, ifd, at, old(Now()))
      {
        if bytesRead >= MAX_EXIF_BYTES {
          return ExifFailure;
        }
        var off := EntryOffset(at, i);
        if (off + 12) % TWO_TO_32 > |t.buf| {
          return ExifFailure;
        }
        status := ParseEntry(ifd, off);
        if status != Running {
          return;
        }
      }
      return Running;
    }
  }

  /** `read_tiff_data`; the callers have checked the header. */
  method ReadTiffData(buf: bytes, number: nat -> nat) returns (entries: seq<Entry>, status: Status)
    requires |buf| >= 4 ==> HasHeader(buf)
    ensures |buf| >= 4 ==>
      var (st, end) := TiffData(Tiff(buf, buf[0] == 'M' as int, number)); entries == st.entries && status == end
    ensures |buf| < 4 ==> entries == [] && status == Running
  {
    hide Directory, NextIfd, Get32;
    if |buf| < 4 {
      return [], Running;
    }
    var t := Tiff(buf, buf[0] == 'M' as int, number);
    var reader := new EntryReader(t);
    var ifd0 := Get32(t, 4, 0);
    if ifd0 == 0 {
      return [], Running;
    }
    status := reader.ParseIfdEntries(IFD0_TIFF, ifd0);
    if status != Running {
      return reader.entries, status;
    }
    var ifd1 := NextIfd(t, ifd0);
    if ifd1 == 0 {
      return reader.entries, Running;
    }
    status := reader.ParseIfdEntries(IFD1_TIFF, ifd1);
    return reader.entries, status;
  }

  predicate HasHeader(buf: bytes)
    requires |buf| >= 4
  {
    || (buf[0] == 'I' as int && buf[1] == 'I' as int && buf[2] == 42 && buf[3] == 0)
    || (buf[0] == 'M' as int && buf[1] == 'M' as int && buf[2] == 0 && buf[3] == 42)
  }
}

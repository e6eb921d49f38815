/** What the walk makes of directories laid out in a buffer, whichever its byte order. */
module ExifLayout {
  import opened Bytes
  import opened Exif
  import opened ExifBudget

  // ---- Numbers in a buffer ----

  function U16(big: bool, n: nat): bytes
    requires n < 0x1_0000
  {
    if big then [n / 256, n % 256] else [n % 256, n / 256]
  }

  function U32(big: bool, n: nat): bytes
    requires n < TWO_TO_32
  {
    if big then U16(big, n / 0x1_0000) + U16(big, n % 0x1_0000) else U16(big, n % 0x1_0000) + U16(big, n / 0x1_0000)
  }

  /** `t` stands in `s` at `i`. */
  predicate Stands(s: bytes, i: nat, t: bytes) { i + |t| <= |s| && s[i..i + |t|] == t }

  lemma StandsParts(s: bytes, i: nat, a: bytes, b: bytes)
    requires Stands(s, i, a + b)
    ensures Stands(s, i, a) && Stands(s, i + |a|, b)
  {
    assert s[i..i + |a|] == (a + b)[..|a|] && s[i + |a|..i + |a| + |b|] == (a + b)[|a|..];
  }

  lemma Read16(t: Tiff, i: nat, n: nat)
    requires n < 0x1_0000 && Stands(t.buf, i, U16(t.bigEndian, n))
    ensures Get16(t, i) == n && i + 2 <= |t.buf|
  {
    var u := U16(t.bigEndian, n);
    assert t.buf[i] == u[0] && t.buf[i + 1] == u[1];
  }

  lemma Read32(t: Tiff, i: nat, n: nat, default: nat)
    requires n < TWO_TO_32 && default < TWO_TO_32 && Stands(t.buf, i, U32(t.bigEndian, n))
    ensures Get32(t, i, default) == n && i + 4 <= |t.buf|
  {
    var high, low := n / 0x1_0000, n % 0x1_0000;
    if t.bigEndian {
      StandsParts(t.buf, i, U16(true, high), U16(true, low));
      Read16(t, i, high);
      Read16(t, i + 2, low);
    } else {
      StandsParts(t.buf, i, U16(false, low), U16(false, high));
      Read16(t, i, low);
      Read16(t, i + 2, high);
    }
  }

  // ---- Layouts ----

  /** An entry of a directory: a value, or a directory it points to. `data` is the last field of a value. */
  datatype Field =
    | Simple(tag: nat, kind: nat, count: nat, data: nat)
    | Pointer(tag: nat, kind: nat, count: nat, to: Dir)

  /** A directory at a place. It states `stated` entries; `fields` are those there is room for. */
  datatype Dir = Dir(at: nat, stated: nat, fields: seq<Field>)

  predicate InRange(f: Field) {
    f.tag < 0x1_0000 && f.kind < 0x1_0000 && f.count < TWO_TO_32 && (if f.Simple? then f.data else f.to.at) < TWO_TO_32
  }

  function FieldBytes(big: bool, f: Field): bytes
    requires InRange(f)
  {
    U16(big, f.tag) + U16(big, f.kind) + U32(big, f.count) + U32(big, if f.Simple? then f.data else f.to.at)
  }

  /** Where the i-th entry stands. */
  function Place(dir: Dir, i: nat): nat { dir.at + 2 + 12 * i }

  /** The kind of directory a tag leads to: the Exif and GPS directories from the top, Interoperability from Exif. */
  function Below(from: IfdType, tag: nat): Option<IfdType> {
    if tag == 0x8769 && from == IFD0_TIFF then Some(IFD0_EXIF)
    else if tag == 0x8769 && from == IFD1_TIFF then Some(IFD1_EXIF)
    else if tag == 0x8825 && from == IFD0_TIFF then Some(IFD0_GPS)
    else if tag == 0x8825 && from == IFD1_TIFF then Some(IFD1_GPS)
    else if tag == 0xa005 && from == IFD0_EXIF then Some(IFD0_INTEROPERABILITY)
    else if tag == 0xa005 && from == IFD1_EXIF then Some(IFD1_INTEROPERABILITY)
    else None
  }

  /** The buffer holds the directory: its count, then its entries of 12 bytes, and the directories they lead to. Where
      the count does not fit, the directory is empty; where entries are missing, the buffer ends before the next. */
  ghost predicate Holds(t: Tiff, ifd: IfdType, dir: Dir)
    decreases dir
  {
    && dir.stated < 0x1_0000 && |dir.fields| <= dir.stated
    && (if dir.at + 2 > |t.buf| then dir.stated == 0 else Stands(t.buf, dir.at, U16(t.bigEndian, dir.stated)))
    && (dir.stated <= 1000 && |dir.fields| < dir.stated ==> Place(dir, |dir.fields|) + 12 > |t.buf|)
    && (dir.stated > 0 ==> Place(dir, dir.stated) + 12 < TWO_TO_32)
    && forall i :: 0 <= i < |dir.fields| ==> HoldsField(t, ifd, Place(dir, i), dir.fields[i])
  }

  ghost predicate HoldsField(t: Tiff, ifd: IfdType, place: nat, f: Field)
    decreases f
  {
    && InRange(f) && Stands(t.buf, place, FieldBytes(t.bigEndian, f))
    && (f.Pointer? <==> Below(ifd, f.tag).Some?)
    && (f.Pointer? ==> Holds(t, Below(ifd, f.tag).value, f.to))
  }

  // ---- What is to be recorded ----

  /** A value in the order of the walk, or the end of a directory that is too long or cut off. */
  datatype Item = Item(ifd: IfdType, place: nat, tag: nat, kind: nat, count: nat, data: nat) | Broken

  function Items(ifd: IfdType, dir: Dir): seq<Item>
    decreases dir, 1, 0
  {
    if dir.stated > 1000 then [Broken]
    else ItemsFrom(ifd, dir, 0) + Rest(dir)
  }

  function ItemsFrom(ifd: IfdType, dir: Dir, i: nat): seq<Item>
    requires i <= |dir.fields|
    decreases dir, 0, |dir.fields| - i
  {
    if i == |dir.fields| then [] else FieldItems(ifd, Place(dir, i), dir.fields[i]) + ItemsFrom(ifd, dir, i + 1)
  }

  function FieldItems(ifd: IfdType, place: nat, f: Field): seq<Item>
    decreases f, 0, 0
  {
    match f
    case Simple(tag, kind, count, data) => [Item(ifd, place, tag, kind, count, data)]
    case Pointer(tag, _, _, to) => Items(if Below(ifd, tag).Some? then Below(ifd, tag).value else ifd, to)
  }

  /** Bytes of one item of a value: 2 for SHORT, 4 for LONG and SLONG, 8 for the rationals, else 1. */
  function ItemSize(kind: nat): (r: nat)
    ensures r > 0
  {
    if kind == 3 then 2 else if kind == 4 || kind == 9 then 4 else if kind == 5 || kind == 10 then 8 else 1
  }

  predicate Between(tag: nat, low: nat, high: nat) { low <= tag <= high }

  /** The tags that are recorded, by ranges. */
  predicate RecordedTag(ifd: IfdType, tag: nat) {
    match ifd
    case IFD0_TIFF => TiffTag(tag)
    case IFD1_TIFF => TiffTag(tag)
    case IFD0_EXIF => ExifTag(tag)
    case IFD1_EXIF => ExifTag(tag)
    case IFD0_GPS => tag <= 31
    case IFD1_GPS => tag <= 31
    case _ => tag == 1
  }

  predicate TiffTag(tag: nat) {
    || tag == 0x100 || Between(tag, 0x102, 0x103) || tag == 0x106 || Between(tag, 0x10e, 0x112)
    || Between(tag, 0x115, 0x117) || Between(tag, 0x11a, 0x11c) || tag == 0x128 || tag == 0x12d
    || Between(tag, 0x131, 0x132) || tag == 0x13b || Between(tag, 0x13e, 0x13f) || Between(tag, 0x201, 0x202)
    || Between(tag, 0x211, 0x214) || tag == 0x8298
  }

  predicate ExifTag(tag: nat) {
    || tag == 0x829a || tag == 0x829d || tag == 0x8822 || tag == 0x8824 || Between(tag, 0x8827, 0x8828)
    || Between(tag, 0x8830, 0x8835) || tag == 0x9000 || Between(tag, 0x9003, 0x9004) || Between(tag, 0x9101, 0x9102)
    || Between(tag, 0x9201, 0x920a) || tag == 0x9214 || tag == 0x9286 || Between(tag, 0x9290, 0x9292)
    || Between(tag, 0xa000, 0xa004) || Between(tag, 0xa20b, 0xa20c) || Between(tag, 0xa20e, 0xa210)
    || Between(tag, 0xa214, 0xa215) || tag == 0xa217 || Between(tag, 0xa300, 0xa302) || Between(tag, 0xa401, 0xa40c)
    || tag == 0xa420 || Between(tag, 0xa430, 0xa435) || tag == 0xa500
  }

  lemma TagsAgree(ifd: IfdType, tag: nat)
    ensures IsValueTag(ifd, tag) <==> RecordedTag(ifd, tag)
  {
    hide TiffTag, ExifTag, IsTiffTag, IsExifTag;
    TiffTagsAgree(tag);
    ExifTagsAgree(tag);
  }

  lemma TiffTagsAgree(tag: nat)
    ensures IsTiffTag(tag) <==> TiffTag(tag)
  {}

  lemma ExifTagsAgree(tag: nat)
    ensures IsExifTag(tag) <==> ExifTag(tag)
  {}

  /** A value whose tag is recorded. */
  predicate Recorded(it: Item) { it.Item? && RecordedTag(it.ifd, it.tag) }

  /** The bytes a value takes. */
  function ItemBytes(it: Item): nat { if it.Item? then it.count * ItemSize(it.kind) else 0 }

  /** Where the value is read: in the entry if it fits there, and otherwise at the low 16 bits of its last field. */
  function ValueAt(it: Item): nat
    requires it.Item?
  {
    if !(1 <= it.kind <= 5 || it.kind == 7 || it.kind == 9 || it.kind == 10) then 0
    else if ItemBytes(it) <= 4 then (it.place + 8) % 0x1_0000
    else it.data % 0x1_0000
  }

  /** How reading the value ends. */
  function ReadStatus(t: Tiff, it: Item): Status
    requires it.Item?
  {
    var at := ValueAt(it);
    if it.kind == 5 || it.kind == 9 || it.kind == 10 then Running
    else if it.kind == 2 && at + it.count > |t.buf| && it.count > 0 then ExifFailure
    else if at > |t.buf| && (it.kind == 2 || it.count != 1) then RangeError
    else Running
  }

  /** The image is said to be wider or higher than 65535. */
  predicate TooLarge(t: Tiff, it: Item)
    requires it.Item?
  {
    (it.ifd == IFD0_EXIF || it.ifd == IFD1_EXIF) && (it.tag == 0xa002 || it.tag == 0xa003)
    && t.number(it.place) % TWO_TO_32 > 65535
  }

  /** What has been recorded, the bytes its values take, and whether the walk goes on. */
  datatype Report = Report(sum: nat, entries: seq<Entry>, status: Status)

  /** One value after a walk that goes on. */
  function Record(t: Tiff, it: Item, r: Report): Report {
    if it.Broken? then Report(r.sum, r.entries, ExifFailure)
    else if Recorded(it) then RecordValue(t, it, r)
    else r
  }

  function RecordValue(t: Tiff, it: Item, r: Report): Report
    requires it.Item?
  {
    var sum := r.sum + ItemBytes(it);
    if sum >= 0x1_0000 then Report(r.sum, r.entries, ExifFailure)
    else if ReadStatus(t, it) != Running then Report(sum, r.entries, ReadStatus(t, it))
    else if TooLarge(t, it) then Report(sum, r.entries, ExifFailure)
    else Report(sum, r.entries + [Entry(it.ifd, it.tag, it.place)], Running)
  }

  /** The values in order, up to the first that ends the walk. */
  function RecordAll(t: Tiff, items: seq<Item>, r: Report): Report
    decreases |items|
  {
    if r.status != Running || items == [] then r else RecordAll(t, items[1..], Record(t, items[0], r))
  }

  lemma {:induction false} RecordConcat(t: Tiff, a: seq<Item>, b: seq<Item>, r: Report)
    ensures RecordAll(t, a + b, r) == RecordAll(t, b, RecordAll(t, a, r))
    decreases |a|
  {
    hide Record;
    if a == [] {
      assert a + b == b;
    } else if r.status == Running {
      assert (a + b)[1..] == a[1..] + b;
      RecordConcat(t, a[1..], b, Record(t, a[0], r));
    }
  }

  // ---- The walk does that ----

  /** The state of the walk is what the report says. */
  predicate Tells(st: State, status: Status, r: Report) {
    st.entries == r.entries && status == r.status && (status == Running ==> st.bytesRead == r.sum < 0x1_0000)
  }

  lemma BelowIsTarget(ifd: IfdType, tag: nat)
    ensures Below(ifd, tag) == Target(ifd, tag)
  {}

  lemma SizeIsWidth(kind: nat)
    ensures ItemSize(kind) == Width(kind)
  {}

  lemma Lengths(big: bool, n: nat)
    ensures n < 0x1_0000 ==> |U16(big, n)| == 2
    ensures n < TWO_TO_32 ==> |U32(big, n)| == 4
  {}

  /** The four fields of an entry are read back. */
  lemma FieldRead(t: Tiff, place: nat, f: Field)
    requires InRange(f) && Stands(t.buf, place, FieldBytes(t.bigEndian, f)) && place + 12 < TWO_TO_32
    ensures place + 12 <= |t.buf|
    ensures Get16(t, place) == f.tag && Get16(t, At(place, 2)) == f.kind
    ensures Get32(t, At(place, 4), 0) == f.count
    ensures Get32(t, At(place, 8), 0) == if f.Simple? then f.data else f.to.at
  {
    hide Get16, Get32, U16, U32, Stands;
    var big, last := t.bigEndian, if f.Simple? then f.data else f.to.at;
    var a, b, c, d := U16(big, f.tag), U16(big, f.kind), U32(big, f.count), U32(big, last);
    Lengths(big, f.tag);
    Lengths(big, f.kind);
    Lengths(big, f.count);
    Lengths(big, last);
    StandsParts(t.buf, place, a + b + c, d);
    StandsParts(t.buf, place, a + b, c);
    StandsParts(t.buf, place, a, b);
    Read16(t, place, f.tag);
    Read16(t, place + 2, f.kind);
    Read32(t, place + 4, f.count, 0);
    Read32(t, place + 8, last, 0);
  }

  /** The value at `place` by the numbers its entry holds. */
  lemma ValueRecorded(t: Tiff, it: Item, st: State, r: Report)
    requires it.Item? && it.place + 12 <= |t.buf| && it.place + 12 < TWO_TO_32
    requires Get16(t, At(it.place, 2)) == it.kind && Get32(t, At(it.place, 4), 0) == it.count
    requires Get32(t, At(it.place, 8), 0) == it.data && Tells(st, Running, r)
    ensures var (next, status) := Value(t, it.place, st);
      var sum := r.sum + ItemBytes(it);
      if sum >= 0x1_0000 then next.entries == st.entries && status == ExifFailure
      else next.entries == st.entries && next.bytesRead == sum && status == ReadStatus(t, it)
  {
    hide Get16, Get32, Charged;
    SizeIsWidth(it.kind);
    ChargeIsExact(st.bytesRead, it.count, Width(it.kind));
    if r.sum + it.count * ItemSize(it.kind) < 0x1_0000 {
      StatusAgrees(t, it);
    }
  }

  lemma StatusAgrees(t: Tiff, it: Item)
    requires it.Item? && it.place + 12 <= |t.buf| && it.place + 12 < TWO_TO_32
    requires Get16(t, At(it.place, 2)) == it.kind && Get32(t, At(it.place, 4), 0) == it.count
    requires Get32(t, At(it.place, 8), 0) == it.data && it.count * ItemSize(it.kind) < 0x1_0000
    ensures Readable(t, it.place) == ReadStatus(t, it)
  {
    hide Get16, Get32;
    SizeIsWidth(it.kind);
  }

  /** One entry that leads nowhere. */
  lemma EntryOfValue(t: Tiff, ifd: IfdType, off: nat, st: State)
    requires off + 12 <= |t.buf| && Target(ifd, Get16(t, off)) == None
    ensures var tag := Get16(t, off);
      OneEntry(t, ifd, off, st) ==
        if !IsValueTag(ifd, tag) then (st, Running)
        else
          var (read, status) := Value(t, off, st);
          if status != Running then (read, status)
          else if IsExif(ifd) && (tag == 0xa002 || tag == 0xa003) && t.number(off) % TWO_TO_32 > 65535 then
            (read, ExifFailure)
          else (read.(entries := read.entries + [Entry(ifd, tag, off)]), Running)
  {
    hide Get16, Get32, IsValueTag, Target, Value;
  }

  /** One entry that is a value. */
  lemma SimpleWalked(t: Tiff, ifd: IfdType, place: nat, f: Field, st: State, r: Report)
    requires InRange(f) && Stands(t.buf, place, FieldBytes(t.bigEndian, f)) && Below(ifd, f.tag) == None
    requires f.Simple? && place + 12 < TWO_TO_32 && Tells(st, Running, r)
    ensures var (next, status) := OneEntry(t, ifd, place, st);
      Tells(next, status, Record(t, Item(ifd, place, f.tag, f.kind, f.count, f.data), r))
  {
    hide Get16, Get32, IsValueTag, RecordedTag, Below, Target, Value, ReadStatus, FieldBytes, Stands, ItemSize;
    hide OneEntry;
    var it := Item(ifd, place, f.tag, f.kind, f.count, f.data);
    FieldRead(t, place, f);
    BelowIsTarget(ifd, f.tag);
    TagsAgree(ifd, f.tag);
    EntryOfValue(t, ifd, place, st);
    ValueRecorded(t, it, st, r);
  }

  lemma PointerWalked(t: Tiff, ifd: IfdType, place: nat, f: Field, st: State)
    requires HoldsField(t, ifd, place, f) && f.Pointer? && place + 12 < TWO_TO_32
    ensures Below(ifd, f.tag).Some? && OneEntry(t, ifd, place, st) == Directory(t, Below(ifd, f.tag).value, f.to.at, st)
  {
    FieldRead(t, place, f);
    BelowIsTarget(ifd, f.tag);
    hide Get16, Get32, IsValueTag, Below, Target, Value, FieldBytes, Stands, Directory, Holds;
  }

  lemma {:induction false} FieldWalked(t: Tiff, ifd: IfdType, place: nat, f: Field, st: State, r: Report)
    requires HoldsField(t, ifd, place, f) && place + 12 < TWO_TO_32 && Tells(st, Running, r)
    ensures var (next, status) := OneEntry(t, ifd, place, st);
      Tells(next, status, RecordAll(t, FieldItems(ifd, place, f), r))
    decreases f, 0, 0
  {
    hide OneEntry, Record, Directory, Below;
    match f
    case Simple(tag, kind, count, data) =>
      SimpleWalked(t, ifd, place, f, st, r);
      RecordOne(t, Item(ifd, place, tag, kind, count, data), r);
    case Pointer(tag, _, _, to) =>
      PointerWalked(t, ifd, place, f, st);
      DirWalked(t, Below(ifd, tag).value, to, st, r);
  }

  lemma RecordOne(t: Tiff, it: Item, r: Report)
    ensures r.status == Running ==> RecordAll(t, [it], r) == Record(t, it, r)
  {
    hide Record;
    assert [it][1..] == [];
  }

  /** The walk of a directory records what the layout says, and ends as it says. */
  lemma {:induction false} DirWalked(t: Tiff, ifd: IfdType, dir: Dir, st: State, r: Report)
    requires Holds(t, ifd, dir) && Tells(st, Running, r)
    ensures var (next, status) := Directory(t, ifd, dir.at, st);
      Tells(next, status, RecordAll(t, Items(ifd, dir), r))
    decreases dir, 1, 0
  {
    hide EntriesFrom, RecordAll, Record, ItemsFrom;
    StatedRead(t, ifd, dir);
    RecordOne(t, Broken, r);
    if dir.stated <= 1000 {
      FieldsWalked(t, ifd, dir, 0, st, r);
      assert Items(ifd, dir) == ItemsFrom(ifd, dir, 0) + Rest(dir);
    } else {
      BrokenEnds(t, r);
    }
  }

  lemma BrokenEnds(t: Tiff, r: Report)
    ensures r.status == Running ==> RecordAll(t, [Broken], r) == r.(status := ExifFailure)
  {
    RecordOne(t, Broken, r);
    hide RecordAll;
  }

  lemma StatedRead(t: Tiff, ifd: IfdType, dir: Dir)
    requires Holds(t, ifd, dir)
    ensures Get16(t, dir.at) == dir.stated
  {
    if dir.at + 2 <= |t.buf| {
      Read16(t, dir.at, dir.stated);
    }
  }

  lemma EntriesOnce(t: Tiff, ifd: IfdType, at: nat, i: nat, n: nat, st: State)
    requires i <= n && st.bytesRead < 0x1_0000
    ensures EntriesFrom(t, ifd, at, i, n, st) ==
      if i == n then (st, Running)
      else if (EntryOffset(at, i) + 12) % TWO_TO_32 > |t.buf| then (st, ExifFailure)
      else
        var (next, status) := OneEntry(t, ifd, EntryOffset(at, i), st);
        if status != Running then (next, status) else EntriesFrom(t, ifd, at, i + 1, n, next)
  {
    hide OneEntry, EntryOffset;
  }

  lemma EntriesUnfold(t: Tiff, ifd: IfdType, dir: Dir, i: nat, st: State)
    requires Holds(t, ifd, dir) && i <= dir.stated && st.bytesRead < 0x1_0000
    ensures EntriesFrom(t, ifd, dir.at, i, dir.stated, st) ==
      if i == dir.stated then (st, Running)
      else if Place(dir, i) + 12 > |t.buf| then (st, ExifFailure)
      else
        var (next, status) := OneEntry(t, ifd, Place(dir, i), st);
        if status != Running then (next, status) else EntriesFrom(t, ifd, dir.at, i + 1, dir.stated, next)
  {
    hide OneEntry, EntryOffset, Holds, EntriesFrom;
    EntriesOnce(t, ifd, dir.at, i, dir.stated, st);
    if i < dir.stated {
      PlaceIs(t, ifd, dir, i);
    }
  }

  /** The entries of a directory from the i-th on. */
  lemma {:induction false} FieldsWalked(t: Tiff, ifd: IfdType, dir: Dir, i: nat, st: State, r: Report)
    requires Holds(t, ifd, dir) && dir.stated <= 1000 && i <= |dir.fields| && Tells(st, Running, r)
    ensures var (next, status) := EntriesFrom(t, ifd, dir.at, i, dir.stated, st);
      Tells(next, status, RecordAll(t, ItemsFrom(ifd, dir, i) + Rest(dir), r))
    decreases dir, 0, |dir.fields| - i
  {
    hide OneEntry, Record, FieldItems, HoldsField, EntriesFrom, Holds, RecordAll;
    FieldsFit(t, ifd, dir);
    EntriesUnfold(t, ifd, dir, i, st);
    if i == |dir.fields| {
      assert ItemsFrom(ifd, dir, i) + Rest(dir) == Rest(dir);
      RecordNone(t, r);
      BrokenEnds(t, r);
    } else {
      var place, f := Place(dir, i), dir.fields[i];
      PlaceIs(t, ifd, dir, i);
      FieldWalked(t, ifd, place, f, st, r);
      var (next, status) := OneEntry(t, ifd, place, st);
      var more := ItemsFrom(ifd, dir, i + 1) + Rest(dir);
      assert ItemsFrom(ifd, dir, i) + Rest(dir) == FieldItems(ifd, place, f) + more;
      RecordConcat(t, FieldItems(ifd, place, f), more, r);
      if status == Running {
        FieldsWalked(t, ifd, dir, i + 1, next, RecordAll(t, FieldItems(ifd, place, f), r));
      } else {
        EndedStays(t, more, RecordAll(t, FieldItems(ifd, place, f), r));
      }
    }
  }

  /** What stands for the entries a directory has no room for. */
  function Rest(dir: Dir): seq<Item> { if |dir.fields| < dir.stated then [Broken] else [] }

  lemma RecordNone(t: Tiff, r: Report)
    ensures RecordAll(t, [], r) == r
  {}

  lemma EndedStays(t: Tiff, items: seq<Item>, r: Report)
    requires r.status != Running
    ensures RecordAll(t, items, r) == r
  {}

  lemma FieldsFit(t: Tiff, ifd: IfdType, dir: Dir)
    requires Holds(t, ifd, dir)
    ensures |dir.fields| <= dir.stated
    ensures forall i :: 0 <= i < |dir.fields| ==> HoldsField(t, ifd, Place(dir, i), dir.fields[i])
    ensures dir.stated <= 1000 && |dir.fields| < dir.stated ==> Place(dir, |dir.fields|) + 12 > |t.buf|
  {
    hide HoldsField;
  }

  /** No offset wraps, and the walk looks for each entry where it is. */
  lemma PlaceIs(t: Tiff, ifd: IfdType, dir: Dir, i: nat)
    requires Holds(t, ifd, dir) && i < dir.stated
    ensures EntryOffset(dir.at, i) == Place(dir, i) && Place(dir, i) + 12 < TWO_TO_32
    ensures i < |dir.fields| ==> Place(dir, i) + 12 <= |t.buf|
  {
    if i < |dir.fields| {
      FieldRead(t, Place(dir, i), dir.fields[i]);
    }
  }

  // ---- Whole files ----

  /** A TIFF: header, the first directory, and the second one if the place behind the first leads to one. */
  ghost predicate HoldsTiff(t: Tiff, first: Dir, second: Option<Dir>) {
    && (if t.bigEndian then Stands(t.buf, 0, ['M' as int, 'M' as int, 0, 42])
        else Stands(t.buf, 0, ['I' as int, 'I' as int, 42, 0]))
    && 0 < first.at < TWO_TO_32 && Stands(t.buf, 4, U32(t.bigEndian, first.at)) && Holds(t, IFD0_TIFF, first)
    && Place(first, first.stated) + 4 < TWO_TO_32
    && match second
       case None =>
         Place(first, first.stated) + 4 > |t.buf| || Stands(t.buf, Place(first, first.stated), U32(t.bigEndian, 0))
       case Some(dir) =>
         && 0 < dir.at < TWO_TO_32 && Stands(t.buf, Place(first, first.stated), U32(t.bigEndian, dir.at))
         && Holds(t, IFD1_TIFF, dir)
  }

  function TiffItems(first: Dir, second: Option<Dir>): seq<Item> {
    Items(IFD0_TIFF, first) + match second case None => [] case Some(dir) => Items(IFD1_TIFF, dir)
  }

  const NOTHING := Report(0, [], Running)

  lemma NextRead(t: Tiff, first: Dir, second: Option<Dir>)
    requires HoldsTiff(t, first, second)
    ensures |t.buf| >= 4 && Get32(t, 4, 0) == first.at
    ensures NextIfd(t, first.at) == match second case None => 0 case Some(dir) => dir.at
  {
    hide Get16, Get32, U32, Stands, Holds;
    Read32(t, 4, first.at, 0);
    StatedRead(t, IFD0_TIFF, first);
    var place := Place(first, first.stated);
    assert (first.at + 2 + Get16(t, first.at) * 12) % TWO_TO_32 == place;
    match second
    case None =>
      if place + 4 > |t.buf| {
        Past32(t, place);
      } else {
        Read32(t, place, 0, 0);
      }
    case Some(dir) => Read32(t, place, dir.at, 0);
  }

  lemma Past32(t: Tiff, i: nat)
    requires i + 4 > |t.buf|
    ensures Get32(t, i, 0) == 0
  {}

  /** For every file laid out so, the walk records its values in order, up to the first that ends it. */
  lemma TiffWalked(t: Tiff, first: Dir, second: Option<Dir>)
    requires HoldsTiff(t, first, second)
    ensures var (st, status) := TiffData(t);
      Tells(st, status, RecordAll(t, TiffItems(first, second), NOTHING))
  {
    hide Directory, RecordAll, Items, Get32, NextIfd;
    NextRead(t, first, second);
    var start := State(0, [], []);
    DirWalked(t, IFD0_TIFF, first, start, NOTHING);
    var (st, status) := Directory(t, IFD0_TIFF, first.at, start);
    var r := RecordAll(t, Items(IFD0_TIFF, first), NOTHING);
    match second
    case None =>
      assert TiffItems(first, second) == Items(IFD0_TIFF, first);
    case Some(dir) =>
      RecordConcat(t, Items(IFD0_TIFF, first), Items(IFD1_TIFF, dir), NOTHING);
      if status == Running {
        DirWalked(t, IFD1_TIFF, dir, st, r);
      } else {
        EndedStays(t, Items(IFD1_TIFF, dir), r);
      }
  }

  /** A value that is recorded and ends nothing. */
  predicate Sound(t: Tiff, it: Item) {
    it.Item? && (Recorded(it) ==> ReadStatus(t, it) == Running && !TooLarge(t, it))
  }

  /** The entries for the values whose tags are recorded. */
  function Entries(items: seq<Item>): seq<Entry> {
    if items == [] then []
    else
      var it := items[0];
      (if Recorded(it) then [Entry(it.ifd, it.tag, it.place)] else []) + Entries(items[1..])
  }

  /** The bytes of those values. */
  function Taken(items: seq<Item>): nat {
    if items == [] then 0
    else
      var it := items[0];
      (if Recorded(it) then ItemBytes(it) else 0) + Taken(items[1..])
  }

  lemma SoundRecorded(t: Tiff, it: Item, r: Report)
    requires Sound(t, it) && r.status == Running && (Recorded(it) ==> r.sum + ItemBytes(it) < 0x1_0000)
    ensures Record(t, it, r) ==
      if Recorded(it) then Report(r.sum + ItemBytes(it), r.entries + [Entry(it.ifd, it.tag, it.place)], Running) else r
  {
    hide RecordedTag, ReadStatus, TooLarge, ItemBytes;
  }

  lemma {:induction false} AllRecorded(t: Tiff, items: seq<Item>, r: Report)
    requires r.status == Running && r.sum + Taken(items) < 0x1_0000
    requires forall i :: 0 <= i < |items| ==> Sound(t, items[i])
    ensures RecordAll(t, items, r) == Report(r.sum + Taken(items), r.entries + Entries(items), Running)
    decreases |items|
  {
    hide Record, ItemBytes, Sound, Recorded, Entries, Taken;
    if items != [] {
      var it, rest := items[0], items[1..];
      SoundItem(t, it);
      FirstItem(items);
      SoundRecorded(t, it, r);
      AllRecorded(t, rest, Record(t, it, r));
      if Recorded(it) {
        Regroup(r.entries, [Entry(it.ifd, it.tag, it.place)], Entries(rest));
      }
    } else {
      NoItems(r.entries);
    }
  }

  lemma FirstItem(items: seq<Item>)
    requires items != [] && items[0].Item?
    ensures var it := items[0];
      && Entries(items) == (if Recorded(it) then [Entry(it.ifd, it.tag, it.place)] + Entries(items[1..])
                            else Entries(items[1..]))
      && Taken(items) == (if Recorded(it) then ItemBytes(it) else 0) + Taken(items[1..])
  {
    hide Recorded, ItemBytes;
  }

  lemma NoItems(entries: seq<Entry>)
    ensures Entries([]) == [] && Taken([]) == 0 && entries + [] == entries
  {}

  lemma Regroup(a: seq<Entry>, b: seq<Entry>, c: seq<Entry>)
    ensures a + b + c == a + (b + c)
  {}

  lemma SoundItem(t: Tiff, it: Item)
    requires Sound(t, it)
    ensures it.Item?
  {}

  /** Within the limits: exactly the entries whose tags are recorded, in order, with their directory and place. */
  lemma LayoutRecorded(t: Tiff, first: Dir, second: Option<Dir>)
    requires HoldsTiff(t, first, second) && Taken(TiffItems(first, second)) < 0x1_0000
    requires forall i :: 0 <= i < |TiffItems(first, second)| ==> Sound(t, TiffItems(first, second)[i])
    ensures TiffData(t).0.entries == Entries(TiffItems(first, second)) && TiffData(t).1 == Running
    ensures TiffData(t).0.bytesRead == Taken(TiffItems(first, second))
  {
    hide TiffData, HoldsTiff, RecordAll, Entries, Taken, TiffItems, Sound;
    TiffWalked(t, first, second);
    AllRecorded(t, TiffItems(first, second), NOTHING);
    assert [] + Entries(TiffItems(first, second)) == Entries(TiffItems(first, second));
  }

  /** Otherwise the first item that does not pass ends the walk (a directory cut off or too long, a value over the
      account, out of the buffer or too large), and exactly the entries before it are kept. */
  lemma LayoutEnds(t: Tiff, first: Dir, second: Option<Dir>, k: nat)
    requires HoldsTiff(t, first, second) && k < |TiffItems(first, second)|
    requires forall i :: 0 <= i < k ==> Sound(t, TiffItems(first, second)[i])
    requires var items := TiffItems(first, second);
      Taken(items[..k]) < 0x1_0000 && (!Sound(t, items[k]) || Taken(items[..k]) + Taken([items[k]]) >= 0x1_0000)
    ensures TiffData(t).0.entries == Entries(TiffItems(first, second)[..k]) && TiffData(t).1 != Running
  {
    hide TiffData, HoldsTiff, Entries, TiffItems, ReadStatus, TooLarge, RecordedTag, ItemBytes;
    var items := TiffItems(first, second);
    TiffWalked(t, first, second);
    AllRecorded(t, items[..k], NOTHING);
    assert [] + Entries(items[..k]) == Entries(items[..k]);
    assert items == items[..k] + [items[k]] + items[k + 1..];
    RecordConcat(t, items[..k] + [items[k]], items[k + 1..], NOTHING);
    RecordConcat(t, items[..k], [items[k]], NOTHING);
    var r := RecordAll(t, items[..k], NOTHING);
    RecordOne(t, items[k], r);
    TakenOne(items[k]);
    hide RecordAll;
    EndedStays(t, items[k + 1..], Record(t, items[k], r));
  }

  lemma TakenOne(it: Item)
    ensures Taken([it]) == if Recorded(it) then ItemBytes(it) else 0
  {
    assert [it][1..] == [];
    hide Recorded, ItemBytes;
  }

  // ---- Every buffer is laid out so ----

  lemma Wrote16(t: Tiff, i: nat)
    requires i + 2 <= |t.buf|
    ensures Stands(t.buf, i, U16(t.bigEndian, Get16(t, i)))
  {
    assert t.buf[i..i + 2] == [t.buf[i], t.buf[i + 1]];
  }

  lemma StandsJoin(s: bytes, i: nat, a: bytes, b: bytes)
    requires Stands(s, i, a) && Stands(s, i + |a|, b)
    ensures Stands(s, i, a + b)
  {
    assert s[i..i + |a| + |b|] == s[i..i + |a|] + s[i + |a|..i + |a| + |b|];
  }

  lemma Wrote32(t: Tiff, i: nat)
    requires i + 4 <= |t.buf|
    ensures Stands(t.buf, i, U32(t.bigEndian, Get32(t, i, 0)))
  {
    hide Get16, U16, Stands;
    Wrote16(t, i);
    Wrote16(t, i + 2);
    Lengths(t.bigEndian, Get16(t, i));
    StandsJoin(t.buf, i, U16(t.bigEndian, Get16(t, i)), U16(t.bigEndian, Get16(t, i + 2)));
  }

  lemma WroteField(t: Tiff, place: nat, f: Field)
    requires place + 12 <= |t.buf| && InRange(f) && f.tag == Get16(t, place) && f.kind == Get16(t, place + 2)
    requires f.count == Get32(t, place + 4, 0) && (if f.Simple? then f.data else f.to.at) == Get32(t, place + 8, 0)
    ensures Stands(t.buf, place, FieldBytes(t.bigEndian, f))
  {
    hide Get16, Get32, U16, U32, Stands;
    var big, last := t.bigEndian, if f.Simple? then f.data else f.to.at;
    Wrote16(t, place);
    Wrote16(t, place + 2);
    Wrote32(t, place + 4);
    Wrote32(t, place + 8);
    Lengths(big, f.tag);
    Lengths(big, f.kind);
    Lengths(big, f.count);
    Lengths(big, last);
    StandsJoin(t.buf, place, U16(big, f.tag), U16(big, f.kind));
    StandsJoin(t.buf, place, U16(big, f.tag) + U16(big, f.kind), U32(big, f.count));
    StandsJoin(t.buf, place, U16(big, f.tag) + U16(big, f.kind) + U32(big, f.count), U32(big, last));
  }

  lemma BelowIsLower(ifd: IfdType, tag: nat)
    ensures Below(ifd, tag).Some? ==> Rank(Below(ifd, tag).value) < Rank(ifd)
  {}

  lemma {:induction false} FieldFor(t: Tiff, ifd: IfdType, place: nat) returns (f: Field)
    requires |t.buf| + 0x10_0000 < TWO_TO_32 && place + 12 <= |t.buf|
    ensures HoldsField(t, ifd, place, f)
    decreases Rank(ifd), 0, 0
  {
    hide Get16, Get32, Stands, FieldBytes, Below;
    var tag, kind, count, data := Get16(t, place), Get16(t, place + 2), Get32(t, place + 4, 0), Get32(t, place + 8, 0);
    BelowIsLower(ifd, tag);
    if Below(ifd, tag).Some? {
      var to := DirFor(t, Below(ifd, tag).value, data);
      f := Pointer(tag, kind, count, to);
      hide Holds;
      WroteField(t, place, f);
    } else {
      f := Simple(tag, kind, count, data);
      WroteField(t, place, f);
    }
  }

  lemma {:induction false} FieldsFor(t: Tiff, ifd: IfdType, at: nat, n: nat, some: seq<Field>) returns (all: seq<Field>)
    requires |t.buf| + 0x10_0000 < TWO_TO_32 && |some| <= n
    requires forall i :: 0 <= i < |some| ==> HoldsField(t, ifd, at + 2 + 12 * i, some[i])
    ensures |all| <= n && (|all| < n ==> at + 2 + 12 * |all| + 12 > |t.buf|)
    ensures forall i :: 0 <= i < |all| ==> HoldsField(t, ifd, at + 2 + 12 * i, all[i])
    decreases Rank(ifd), 1, n - |some|
  {
    hide HoldsField;
    var place := at + 2 + 12 * |some|;
    if |some| == n || place + 12 > |t.buf| {
      all := some;
    } else {
      var f := FieldFor(t, ifd, place);
      all := FieldsFor(t, ifd, at, n, some + [f]);
    }
  }

  /** In any buffer (of less than 4 GiB by a little) any place holds a directory of any kind. */
  lemma {:induction false} DirFor(t: Tiff, ifd: IfdType, at: nat) returns (dir: Dir)
    requires |t.buf| + 0x10_0000 < TWO_TO_32
    ensures Holds(t, ifd, dir) && dir.at == at
    decreases Rank(ifd), 2, 0
  {
    hide HoldsField, Get16, Stands, U16;
    if at + 2 > |t.buf| {
      dir := Dir(at, 0, []);
    } else {
      Wrote16(t, at);
      var n := Get16(t, at);
      if n > 1000 {
        dir := Dir(at, n, []);
      } else {
        var all := FieldsFor(t, ifd, at, n, []);
        dir := Dir(at, n, all);
      }
    }
  }

  /** So the layout theorems speak of every such buffer that has the header and leads to a directory. */
  lemma EveryTiff(t: Tiff)
    requires 8 <= |t.buf| < TWO_TO_32 - 0x10_0000 && Get32(t, 4, 0) != 0
    requires if t.bigEndian then t.buf[..4] == ['M' as int, 'M' as int, 0, 42]
             else t.buf[..4] == ['I' as int, 'I' as int, 42, 0]
    requires Get32(t, 4, 0) < TWO_TO_32 - 0x10_0000
    ensures HasHeader(t.buf) && exists first, second :: HoldsTiff(t, first, second)
  {
    hide Get16, Get32, Holds, U32, Stands;
    var first := DirFor(t, IFD0_TIFF, Get32(t, 4, 0));
    Wrote32(t, 4);
    HeaderStands(t);
    var place := Place(first, first.stated);
    StatedSmall(t, first);
    var second: Option<Dir> := None;
    if place + 4 <= |t.buf| {
      Wrote32(t, place);
      if Get32(t, place, 0) != 0 {
        var dir := DirFor(t, IFD1_TIFF, Get32(t, place, 0));
        second := Some(dir);
      }
    }
    assert HoldsTiff(t, first, second);
  }

  lemma HeaderStands(t: Tiff)
    requires |t.buf| >= 8
    ensures forall h: bytes :: |h| == 4 && t.buf[..4] == h ==> Stands(t.buf, 0, h)
  {
    assert t.buf[0..4] == t.buf[..4];
  }

  lemma StatedSmall(t: Tiff, dir: Dir)
    requires Holds(t, IFD0_TIFF, dir)
    ensures dir.stated < 0x1_0000
  {}
}

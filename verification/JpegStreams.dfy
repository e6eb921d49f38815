/** Which byte strings start with a JPEG stream that the validator calls complete. */
module JpegStreams {
  import opened Bytes
  import opened Jpeg

  // ---- Streams ----

  /** What may stand before the start of scan. */
  datatype Item = Soi | Restart(n: nat) | Block(marker: byte, payload: bytes)

  /** A stream: items, a start of scan whose length field is `length`, the rest of
      its header together with the image data, and the second byte of its end marker. */
  datatype Stream = Stream(items: seq<Item>, length: nat, rest: bytes, end: byte)

  predicate ItemOk(it: Item) {
    match it
    case Soi => true
    case Restart(n) => n < 8
    case Block(m, p) => m != 0xff && m != 0x01 && !(0xd0 <= m <= 0xda) && |p| + 2 < 0x10000
  }

  predicate ItemsOk(items: seq<Item>) { forall k :: 0 <= k < |items| ==> ItemOk(items[k]) }

  function Two(n: nat): bytes
    requires n < 0x10000
  {
    [n / 256, n % 256]
  }

  function ItemBytes(it: Item): bytes
    requires ItemOk(it)
  {
    match it
    case Soi => [0xff, 0xd8]
    case Restart(n) => [0xff, 0xd0 + n]
    case Block(m, p) => [0xff, m] + Two(|p| + 2) + p
  }

  function ItemsBytes(items: seq<Item>): bytes
    requires ItemsOk(items)
  {
    if items == [] then [] else ItemBytes(items[0]) + ItemsBytes(items[1..])
  }

  /** No end marker and nothing forbidden at `k`: byte stuffing, or a marker from
      C0 to DF other than the two that end the data. */
  predicate Clean(s: bytes, k: nat)
    requires k + 1 < |s|
  {
    s[k] != 0xff || s[k + 1] == 0 || (0xc0 <= s[k + 1] <= 0xdf && s[k + 1] != 0xd9 && s[k + 1] != 0xde)
  }

  predicate WellFormed(st: Stream) {
    && ItemsOk(st.items) && st.length < 0x10000 && st.length <= |st.rest| + 2
    && (st.end == 0xd9 || st.end == 0xde)
    && forall k :: 0 <= k < |st.rest| && st.length <= k + 2 ==> Clean(st.rest + [0xff, st.end], k)
  }

  function StreamBytes(st: Stream): bytes
    requires WellFormed(st)
  {
    ItemsBytes(st.items) + [0xff, 0xda] + Two(st.length) + st.rest + [0xff, st.end]
  }

  // ---- What the items declare ----

  predicate IsSoi(it: Item) { it.Soi? }

  predicate IsJfif(it: Item) {
    it.Block? && it.marker == 0xe0 && |it.payload| >= 7
    && it.payload[..4] == ['J' as int, 'F' as int, 'I' as int, 'F' as int]
  }

  predicate IsTable(it: Item) { it.Block? && (it.marker == 0xc4 || it.marker == 0xcc || it.marker == 0xdb) }

  predicate IsExif(it: Item) { it.Block? && it.marker == 0xe1 }

  predicate IsFrame(it: Item) { it.Block? && it.marker == 0xc0 && |it.payload| >= 7 }

  /** Height and width in the last frame header, or zeros. */
  function FrameSize(items: seq<Item>): (nat, nat) {
    if items == [] then (0, 0)
    else
      var last := items[|items| - 1];
      if IsFrame(last) then (Be16(last.payload, 1), Be16(last.payload, 3)) else FrameSize(items[..|items| - 1])
  }

  ghost predicate Has(items: seq<Item>, kind: Item -> bool) { exists k :: 0 <= k < |items| && kind(items[k]) }

  /** The image can be displayed: start of image, JFIF header, a table, and a frame of some size. */
  ghost predicate Displayable(items: seq<Item>) {
    && Has(items, IsSoi) && Has(items, IsJfif) && Has(items, IsTable)
    && FrameSize(items).0 != 0 && FrameSize(items).1 != 0
  }

  // ---- What the validator has seen ----

  function After(res: Results, it: Item): Results {
    match it
    case Soi => res.(soi := true)
    case Restart(_) => res
    case Block(m, p) =>
      Marked(m, res).(
        jfif := res.jfif || IsJfif(it),
        height := if IsFrame(it) then Be16(p, 1) else res.height,
        width := if IsFrame(it) then Be16(p, 3) else res.width)
  }

  function Seen(res: Results, items: seq<Item>): Results
    decreases items
  {
    if items == [] then res else Seen(After(res, items[0]), items[1..])
  }

  /** The fields the validator keeps mean what the items declare. */
  lemma {:induction false} SeenMeans(items: seq<Item>)
    ensures var r := Seen(FRESH, items);
      && r.soi == Has(items, IsSoi) && r.jfif == Has(items, IsJfif)
      && Tables(r) == Has(items, IsTable) && r.exif == Has(items, IsExif)
      && (r.height, r.width) == FrameSize(items)
      && r.how == UNKNOWN && !r.sos && !r.eoi
  {
    if items != [] {
      var init, last := items[..|items| - 1], items[|items| - 1];
      SeenMeans(init);
      SeenLast(FRESH, items);
      HasLast(items, IsSoi);
      HasLast(items, IsJfif);
      HasLast(items, IsTable);
      HasLast(items, IsExif);
      AfterMeans(Seen(FRESH, init), last);
    }
    hide Seen, After, Has, IsSoi, IsJfif, IsTable, IsExif;
  }

  lemma HasLast(items: seq<Item>, kind: Item -> bool)
    requires items != []
    ensures Has(items, kind) == (Has(items[..|items| - 1], kind) || kind(items[|items| - 1]))
  {
    var init := items[..|items| - 1];
    if Has(init, kind) {
      var k :| 0 <= k < |init| && kind(init[k]);
      assert kind(items[k]);
    }
  }

  lemma AfterMeans(res: Results, it: Item)
    ensures var r := After(res, it);
      && r.soi == (res.soi || IsSoi(it)) && r.jfif == (res.jfif || IsJfif(it))
      && Tables(r) == (Tables(res) || IsTable(it)) && r.exif == (res.exif || IsExif(it))
      && (r.height, r.width)
         == (if IsFrame(it) then (Be16(it.payload, 1), Be16(it.payload, 3)) else (res.height, res.width))
      && r.how == res.how && r.sos == res.sos && r.eoi == res.eoi
  {
    hide Be16, SaysJfif, Marked, IsJfif, IsFrame;
    if it.Block? {
      MarkedKeeps(it.marker, res);
    } else {
      OnlyBlocks(it);
    }
  }

  lemma OnlyBlocks(it: Item)
    requires !it.Block?
    ensures !IsJfif(it) && !IsFrame(it)
  {}

  lemma {:induction false} SeenLast(res: Results, items: seq<Item>)
    requires items != []
    ensures Seen(res, items) == After(Seen(res, items[..|items| - 1]), items[|items| - 1])
    decreases items
  {
    hide After;
    if |items| > 1 {
      SeenLast(After(res, items[0]), items[1..]);
      assert items[1..][..|items| - 2] == items[..|items| - 1][1..];
    }
  }

  // ---- From streams to verdicts ----

  /** `t` stands in `s` at `i`. */
  ghost predicate At(s: bytes, i: nat, t: bytes) { i + |t| <= |s| && s[i..i + |t|] == t }

  lemma AtParts(s: bytes, i: nat, t: bytes, u: bytes)
    ensures At(s, i, t + u) <==> At(s, i, t) && At(s, i + |t|, u)
  {
    if At(s, i, t + u) {
      assert s[i..i + |t|] == (t + u)[..|t|] && s[i + |t|..i + |t| + |u|] == (t + u)[|t|..];
    }
    if At(s, i, t) && At(s, i + |t|, u) {
      assert s[i..i + |t + u|] == s[i..i + |t|] + s[i + |t|..i + |t| + |u|];
    }
  }

  /** The loop takes one item and goes on behind it. */
  lemma ItemStep(s: bytes, i: nat, it: Item, res: Results)
    requires ItemOk(it) && At(s, i, ItemBytes(it)) && (it.Block? ==> i + 8 < |s|)
    ensures Markers(s, i, res) == Markers(s, i + |ItemBytes(it)|, After(res, it))
  {
    assert s[i] == ItemBytes(it)[0] && s[i + 1] == ItemBytes(it)[1];
    if it.Block? {
      BlockNoted(s, i, it, res);
    }
    hide After, Verdict, StartOfScan, Noted;
  }

  lemma BlockNoted(s: bytes, i: nat, it: Item, res: Results)
    requires it.Block? && ItemOk(it) && At(s, i, ItemBytes(it)) && i + 8 < |s|
    ensures Be16(s, i + 2) == |it.payload| + 2 && Noted(s, i, res) == After(res, it)
  {
    var t := ItemBytes(it);
    forall k | 0 <= k < |t| ensures s[i + k] == t[k] {
      assert s[i..i + |t|][k] == t[k];
    }
    assert s[i + 1] == t[1] && s[i + 2] == t[2] && s[i + 3] == t[3];
    var n := |it.payload| + 2;
    assert s[i + 2] == n / 256 && s[i + 3] == n % 256;
    if n > 8 {
      assert s[i + 4] == it.payload[0] && s[i + 5] == it.payload[1] && s[i + 6] == it.payload[2];
      assert s[i + 7] == it.payload[3] && s[i + 8] == it.payload[4];
    }
    hide Marked;
  }

  lemma {:induction false} ItemsStep(s: bytes, i: nat, items: seq<Item>, res: Results)
    requires ItemsOk(items) && At(s, i, ItemsBytes(items)) && i + |ItemsBytes(items)| + 5 <= |s|
    ensures Markers(s, i, res) == Markers(s, i + |ItemsBytes(items)|, Seen(res, items))
    decreases items
  {
    hide After, Markers, ItemOk, ItemBytes, At;
    if items != [] {
      var first := ItemBytes(items[0]);
      AtParts(s, i, first, ItemsBytes(items[1..]));
      ItemLength(items[0]);
      ItemStep(s, i, items[0], res);
      ItemsStep(s, i + |first|, items[1..], After(res, items[0]));
    }
  }

  lemma ItemLength(it: Item)
    requires ItemOk(it)
    ensures |ItemBytes(it)| >= if it.Block? then 4 else 2
  {}

  lemma {:induction false} ScanClean(s: bytes, k: nat, n: nat)
    requires k <= n && n + 1 < |s| && s[n] == 0xff && (s[n + 1] == 0xd9 || s[n + 1] == 0xde)
    requires forall j :: k <= j < n ==> Clean(s, j)
    ensures Scan(s, k) == (n + 2, COMPLETE)
    decreases n - k
  {
    if k < n {
      assert Clean(s, k);
      ScanClean(s, k + 1, n);
    }
  }

  /** A well-formed stream that can be displayed, with anything behind it: the length found
      is exactly its own, and the verdict is COMPLETE unless there is an Exif block. */
  lemma StreamFound(s: bytes, st: Stream)
    requires WellFormed(st) && Displayable(st.items) && StreamBytes(st) <= s
    ensures Markers(s, 0, FRESH).Done?
    ensures var r := Markers(s, 0, FRESH).res;
      && r.len == |StreamBytes(st)| && r.how == (if Has(st.items, IsExif) then TRUNCATED else COMPLETE)
      && (r.height, r.width) == FrameSize(st.items)
  {
    hide *;
    StreamParts(st);
    AtStart(s, StreamBytes(st));
    AtParts(s, 0, ItemsBytes(st.items), TailBytes(st));
    HeadFound(s, st);
    TailFound(s, |ItemsBytes(st.items)|, st, Seen(FRESH, st.items));
  }

  /** The validator comes to the start of scan with what the items declare. */
  lemma HeadFound(s: bytes, st: Stream)
    requires WellFormed(st) && Displayable(st.items) && At(s, 0, ItemsBytes(st.items))
    requires |ItemsBytes(st.items)| + 5 <= |s|
    ensures Markers(s, 0, FRESH) == Markers(s, |ItemsBytes(st.items)|, Seen(FRESH, st.items))
    ensures var r := Seen(FRESH, st.items);
      && r.soi && r.jfif && Tables(r) && r.height != 0 && r.width != 0
      && r.exif == Has(st.items, IsExif) && (r.height, r.width) == FrameSize(st.items)
  {
    hide Seen, ItemsBytes, Markers, Clean, FrameSize, Has, ItemsOk, At, Tables, Be16;
    ItemsStep(s, 0, st.items, FRESH);
    SeenMeans(st.items);
  }

  lemma AtStart(s: bytes, t: bytes)
    requires t <= s
    ensures At(s, 0, t) && |t| <= |s|
  {}

  function TailBytes(st: Stream): bytes
    requires st.length < 0x10000
  {
    [0xff, 0xda] + Two(st.length) + st.rest + [0xff, st.end]
  }

  lemma StreamParts(st: Stream)
    requires WellFormed(st)
    ensures ItemsOk(st.items) && st.length < 0x10000
    ensures StreamBytes(st) == ItemsBytes(st.items) + TailBytes(st) && |TailBytes(st)| == |st.rest| + 6
  {}

  lemma TailFound(s: bytes, i: nat, st: Stream, res: Results)
    requires WellFormed(st) && At(s, i, TailBytes(st))
    requires res.soi && res.jfif && Tables(res) && res.height != 0 && res.width != 0
    ensures Markers(s, i, res).Done?
    ensures var r := Markers(s, i, res).res;
      && r.len == i + |st.rest| + 6 && r.how == (if res.exif then TRUNCATED else COMPLETE)
      && r.height == res.height && r.width == res.width
  {
    var t := TailBytes(st);
    var n := i + 4 + |st.rest|;
    forall k | 0 <= k < |t| ensures s[i + k] == t[k] {
      assert s[i..i + |t|][k] == t[k];
    }
    assert s[i] == t[0] && s[i + 1] == t[1] && s[i + 2] == t[2] && s[i + 3] == t[3];
    assert Be16(s, i + 2) == st.length;
    assert s[n] == t[4 + |st.rest|] == 0xff && s[n + 1] == t[5 + |st.rest|] == st.end;
    TailClean(s, i, st);
    ScanClean(s, i + 2 + st.length, n);
    hide Clean, Scan;
  }

  lemma TailClean(s: bytes, i: nat, st: Stream)
    requires WellFormed(st) && At(s, i, TailBytes(st))
    ensures forall j :: i + 2 + st.length <= j < i + 4 + |st.rest| ==> Clean(s, j)
  {
    var t, u := TailBytes(st), st.rest + [0xff, st.end];
    forall j | i + 2 + st.length <= j < i + 4 + |st.rest| ensures Clean(s, j) {
      assert s[j] == t[j - i] && s[j + 1] == t[j + 1 - i];
      if j >= i + 4 {
        var k := j - i - 4;
        assert Clean(u, k);
        assert t[4 + k] == u[k] && t[5 + k] == u[k + 1];
      } else {
        assert t[2..4] == Two(st.length);
        assert t[j - i] == Two(st.length)[j - i - 2];
      }
    }
  }

  // ---- From verdicts to streams ----

  lemma {:induction false} ScanMeans(s: bytes, k: nat)
    requires Scan(s, k).1 == COMPLETE
    ensures var n := Scan(s, k).0 - 2;
      && k <= n && n + 1 < |s| && s[n] == 0xff && (s[n + 1] == 0xd9 || s[n + 1] == 0xde)
      && forall j :: k <= j < n ==> Clean(s, j)
    decreases |s| - k
  {
    if s[k] != 0xff || (s[k + 1] != 0xd9 && s[k + 1] != 0xde) {
      ScanMeans(s, k + 1);
      assert Clean(s, k);
    }
  }

  lemma VerdictKeeps(i: nat, res: Results)
    requires Verdict(i, res).how == COMPLETE
    ensures res.how == COMPLETE && res.sos && res.soi && res.jfif && Tables(res) && !res.exif
    ensures Verdict(i, res).len == i && res.height != 0 && res.width != 0
  {}

  predicate Completes(outcome: Outcome) { outcome.Done? && outcome.res.how == COMPLETE }

  /** Before the start of scan, a loop that will end with COMPLETE stands at an item. */
  lemma Guards(s: bytes, i: nat, res: Results)
    requires res.how == UNKNOWN && !res.sos && Completes(Markers(s, i, res))
    ensures i + 1 < |s| && s[i] == 0xff && s[i + 1] != 0xff && s[i + 1] != 0x01 && s[i + 1] != 0xd9
    ensures s[i + 1] != 0xd8 && !(0xd0 <= s[i + 1] <= 0xda) ==>
      i + 8 < |s| && Completes(Markers(s, i + 2 + Be16(s, i + 2), Noted(s, i, res)))
  {
    hide Verdict, Noted, StartOfScan, Be16;
    VerdictNeedsScan();
  }

  lemma VerdictNeedsScan()
    ensures forall j, r :: Verdict(j, r).how == COMPLETE ==> r.how == COMPLETE && r.sos
  {}

  lemma BlockFits(s: bytes, i: nat, res: Results)
    requires res.how == UNKNOWN && !res.sos && i + 8 < |s|
    requires Completes(Markers(s, i + 2 + Be16(s, i + 2), Noted(s, i, res)))
    ensures Be16(s, i + 2) >= 2 && i + 2 + Be16(s, i + 2) <= |s|
  {
    NotedKeeps(s, i, res);
    Guards(s, i + 2 + Be16(s, i + 2), Noted(s, i, res));
    hide Markers, Noted;
  }

  lemma ParsedItem(s: bytes, i: nat, res: Results) returns (it: Item)
    requires res.how == UNKNOWN && !res.sos && i + 1 < |s| && s[i + 1] != 0xda && Completes(Markers(s, i, res))
    ensures ItemOk(it) && At(s, i, ItemBytes(it)) && (it.Block? ==> i + 8 < |s|)
  {
    hide Markers, Noted, Completes;
    Guards(s, i, res);
    if s[i + 1] == 0xd8 {
      it := Soi;
      assert s[i..i + 2] == [s[i], s[i + 1]];
    } else if 0xd0 <= s[i + 1] <= 0xd7 {
      it := Restart(s[i + 1] - 0xd0);
      assert s[i..i + 2] == [s[i], s[i + 1]];
    } else {
      BlockFits(s, i, res);
      it := BlockAt(s, i);
    }
  }

  lemma BlockAt(s: bytes, i: nat) returns (it: Item)
    requires i + 8 < |s| && s[i] == 0xff && Be16(s, i + 2) >= 2 && i + 2 + Be16(s, i + 2) <= |s|
    ensures it == Block(s[i + 1], s[i + 4..i + 2 + Be16(s, i + 2)])
    ensures |it.payload| + 2 < 0x10000 && (ItemOk(it) ==> At(s, i, ItemBytes(it)))
  {
    var n := Be16(s, i + 2);
    it := Block(s[i + 1], s[i + 4..i + 2 + n]);
    assert s[i..i + 2 + n] == [s[i], s[i + 1]] + [s[i + 2], s[i + 3]] + s[i + 4..i + 2 + n];
    assert Two(n) == [s[i + 2], s[i + 3]];
  }

  lemma ParsedTail(s: bytes, i: nat, res: Results) returns (st: Stream)
    requires res.how == UNKNOWN && !res.sos && i + 1 < |s| && s[i + 1] == 0xda && Completes(Markers(s, i, res))
    ensures WellFormed(st) && st.items == []
    ensures At(s, i, TailBytes(st)) && Markers(s, i, res).res.len == i + |TailBytes(st)|
    ensures Ready(res)
  {
    ScanReached(s, i, res);
    hide Scan, Markers, Completes, Ready;
    var length := Be16(s, i + 2);
    ScanMeans(s, i + 2 + length);
    var n := Scan(s, i + 2 + length).0 - 2;
    assert n >= i + 4;
    st := Stream([], length, s[i + 4..n], s[n + 1]);
    RestClean(s, i + 4, n, length, st.rest + [0xff, st.end]);
    assert Two(length) == [s[i + 2], s[i + 3]];
    TailSlice(s, i, n);
  }

  lemma TailSlice(s: bytes, i: nat, n: nat)
    requires i + 4 <= n && n + 1 < |s|
    ensures s[i..n + 2] == [s[i], s[i + 1]] + [s[i + 2], s[i + 3]] + s[i + 4..n] + [s[n], s[n + 1]]
  {
    var t := [s[i], s[i + 1]] + [s[i + 2], s[i + 3]] + s[i + 4..n] + [s[n], s[n + 1]];
    assert |t| == n + 2 - i;
    forall k | 0 <= k < |t| ensures s[i..n + 2][k] == t[k] {}
    assert s[i..n + 2] == t;
  }

  lemma ScanReached(s: bytes, i: nat, res: Results)
    requires res.how == UNKNOWN && !res.sos && i + 1 < |s| && s[i + 1] == 0xda && Completes(Markers(s, i, res))
    ensures s[i] == 0xff && i + 3 < |s| && Scan(s, i + 2 + Be16(s, i + 2)).1 == COMPLETE
    ensures Markers(s, i, res).res.len == Scan(s, i + 2 + Be16(s, i + 2)).0
    ensures Ready(res)
  {
    hide Scan, Be16, Verdict;
    Guards(s, i, res);
    if i + 2 >= |s| {
      if Verdict(i + 2, res.(sos := true)).how == COMPLETE {
        VerdictKeeps(i + 2, res.(sos := true));
      }
    } else {
      var (end, how) := Scan(s, i + 2 + Be16(s, i + 2));
      VerdictKeeps(end, res.(sos := true, how := how));
    }
  }

  lemma RestClean(s: bytes, from: nat, n: nat, length: nat, u: bytes)
    requires 2 <= from <= n && n + 1 < |s| && s[n] == 0xff && u == s[from..n] + [0xff, s[n + 1]]
    requires forall j :: from - 2 + length <= j < n ==> Clean(s, j)
    ensures forall k :: 0 <= k < n - from && length <= k + 2 ==> Clean(u, k)
  {
    forall k | 0 <= k < n - from && length <= k + 2 ensures Clean(u, k) {
      assert Clean(s, from + k);
      assert u[k] == s[from + k] && u[k + 1] == s[from + k + 1];
    }
  }

  /** The loop from marker `i` on reads the stream `st` and then has seen all it needs. */
  ghost predicate Reads(s: bytes, i: nat, res: Results, st: Stream) {
    && WellFormed(st) && At(s, i, StreamBytes(st))
    && Completes(Markers(s, i, res)) && Markers(s, i, res).res.len == i + |StreamBytes(st)|
    && Ready(Seen(res, st.items))
  }

  predicate Ready(r: Results) { r.soi && r.jfif && Tables(r) && !r.exif && r.height != 0 && r.width != 0 }

  /** A loop that ends with COMPLETE has read a stream. */
  lemma {:induction false} Parsed(s: bytes, i: nat, res: Results) returns (st: Stream)
    requires res.how == UNKNOWN && !res.sos && Completes(Markers(s, i, res))
    ensures Reads(s, i, res, st)
    decreases |s| - i
  {
    hide *;
    Guards(s, i, res);
    if s[i + 1] == 0xda {
      st := ParsedTail(s, i, res);
      ReadsTail(s, i, res, st);
    } else {
      var it := ParsedItem(s, i, res);
      ItemStep(s, i, it, res);
      AfterKeeps(res, it);
      ItemLength(it);
      var behind := Parsed(s, i + |ItemBytes(it)|, After(res, it));
      st := Stream([it] + behind.items, behind.length, behind.rest, behind.end);
      ReadsMore(s, i, res, it, behind);
    }
  }

  lemma AfterKeeps(res: Results, it: Item)
    ensures After(res, it).how == res.how && After(res, it).sos == res.sos
  {
    hide Be16, SaysJfif;
  }

  lemma ReadsTail(s: bytes, i: nat, res: Results, st: Stream)
    requires Completes(Markers(s, i, res)) && WellFormed(st) && st.items == [] && Ready(res)
    requires At(s, i, TailBytes(st)) && Markers(s, i, res).res.len == i + |TailBytes(st)|
    ensures Reads(s, i, res, st)
  {
    NoItems(st, res);
    hide Markers, WellFormed, StreamBytes, TailBytes, At, Seen, Ready;
  }

  lemma ReadsMore(s: bytes, i: nat, res: Results, it: Item, behind: Stream)
    requires ItemOk(it) && At(s, i, ItemBytes(it)) && Reads(s, i + |ItemBytes(it)|, After(res, it), behind)
    requires Markers(s, i, res) == Markers(s, i + |ItemBytes(it)|, After(res, it))
    ensures Reads(s, i, res, Stream([it] + behind.items, behind.length, behind.rest, behind.end))
  {
    hide Markers, Completes, After, ItemOk, ItemBytes, WellFormed, StreamBytes, At, Seen, Ready;
    Prepended(it, behind);
    SeenFirst(res, it, behind.items);
    AtParts(s, i, ItemBytes(it), StreamBytes(behind));
  }

  lemma NoItems(st: Stream, res: Results)
    requires WellFormed(st) && st.items == []
    ensures StreamBytes(st) == TailBytes(st) && Seen(res, st.items) == res
  {}

  lemma SeenFirst(res: Results, it: Item, items: seq<Item>)
    ensures Seen(res, [it] + items) == Seen(After(res, it), items)
  {
    hide After;
    assert ([it] + items)[1..] == items;
  }

  lemma Prepended(it: Item, st: Stream)
    requires ItemOk(it) && WellFormed(st)
    ensures var r := Stream([it] + st.items, st.length, st.rest, st.end);
      WellFormed(r) && StreamBytes(r) == ItemBytes(it) + StreamBytes(st)
  {
    hide Clean, ItemOk, ItemBytes;
    assert ([it] + st.items)[1..] == st.items;
  }

  /** The validator says COMPLETE with length `n` if and only if the first `n` bytes are a
      well-formed stream that can be displayed and has no Exif block. */
  lemma CompleteExactly(s: bytes, n: nat)
    ensures (Completes(Markers(s, 0, FRESH)) && Markers(s, 0, FRESH).res.len == n)
       <==> exists st :: WellFormed(st) && Displayable(st.items) && !Has(st.items, IsExif)
              && StreamBytes(st) <= s && |StreamBytes(st)| == n
  {
    hide Markers, WellFormed, StreamBytes;
    if Completes(Markers(s, 0, FRESH)) && Markers(s, 0, FRESH).res.len == n {
      var st := Parsed(s, 0, FRESH);
      SeenMeans(st.items);
    }
    forall st | WellFormed(st) && Displayable(st.items) && !Has(st.items, IsExif)
                && StreamBytes(st) <= s && |StreamBytes(st)| == n
      ensures Completes(Markers(s, 0, FRESH)) && Markers(s, 0, FRESH).res.len == n
    {
      StreamFound(s, st);
    }
  }
}

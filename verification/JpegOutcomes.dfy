/** What the validator says of every buffer, by the markers its walk comes to. */
module JpegOutcomes {
  import opened Bytes
  import opened Jpeg
  import opened JpegStreams

  // ---- The walk by positions ----

  /** A marker without a length: start of image and restarts. */
  predicate Standalone(m: byte) { m == 0xd8 || 0xd0 <= m <= 0xd7 }

  /** The walk goes on behind the marker at `i`. */
  predicate Passes(s: bytes, i: nat) {
    && i + 1 < |s| && s[i] == 0xff && s[i + 1] != 0xff && s[i + 1] != 0x01 && s[i + 1] != 0xd9 && s[i + 1] != 0xda
    && (Standalone(s[i + 1]) || i + 8 < |s|)
  }

  function Behind(s: bytes, i: nat): nat
    requires Passes(s, i)
  {
    if Standalone(s[i + 1]) then i + 2 else i + 2 + 256 * s[i + 2] as nat + s[i + 3]
  }

  /** The places of the markers the walk passes, and the place where it stops. */
  ghost predicate Path(s: bytes, ps: seq<nat>) {
    && ps != [] && ps[0] == 0 && !Passes(s, ps[|ps| - 1])
    && forall k :: 0 <= k < |ps| - 1 ==> Passes(s, ps[k]) && ps[k + 1] == Behind(s, ps[k])
  }

  lemma {:induction false} PathFrom(s: bytes, ps: seq<nat>) returns (all: seq<nat>)
    requires ps != [] && ps[0] == 0
    requires forall k :: 0 <= k < |ps| - 1 ==> Passes(s, ps[k]) && ps[k + 1] == Behind(s, ps[k])
    ensures Path(s, all)
    decreases |s| - ps[|ps| - 1]
  {
    var last := ps[|ps| - 1];
    if Passes(s, last) {
      all := PathFrom(s, ps + [Behind(s, last)]);
    } else {
      all := ps;
    }
  }

  /** Every buffer has such places. */
  lemma PathExists(s: bytes)
    ensures exists ps :: Path(s, ps)
  {
    var ps := PathFrom(s, [0]);
  }

  /** A block with a length field of more than 8. */
  predicate BlockWith(s: bytes, i: nat, m: byte) {
    i + 8 < |s| && s[i + 1] == m && 256 * s[i + 2] as nat + s[i + 3] > 8
  }

  predicate SoiAt(s: bytes, i: nat) { i + 1 < |s| && s[i + 1] == 0xd8 }

  predicate JfifAt(s: bytes, i: nat) {
    && BlockWith(s, i, 0xe0)
    && s[i + 4] == 'J' as int && s[i + 5] == 'F' as int && s[i + 6] == 'I' as int && s[i + 7] == 'F' as int
  }

  predicate TableAt(s: bytes, i: nat) { i + 1 < |s| && (s[i + 1] == 0xc4 || s[i + 1] == 0xcc || s[i + 1] == 0xdb) }

  predicate ExifAt(s: bytes, i: nat) { i + 1 < |s| && s[i + 1] == 0xe1 }

  /** Whether one of the first `n` markers passed is of a kind. */
  ghost predicate Among(s: bytes, ps: seq<nat>, n: nat, kind: (bytes, nat) -> bool)
    requires n <= |ps|
  {
    exists k :: 0 <= k < n && kind(s, ps[k])
  }

  /** Height and width in the last of the first `n` that is a frame, or zeros. */
  function Frame(s: bytes, ps: seq<nat>, n: nat): (nat, nat)
    requires n <= |ps|
  {
    if n == 0 then (0, 0)
    else
      var i := ps[n - 1];
      if BlockWith(s, i, 0xc0) then (256 * s[i + 5] as nat + s[i + 6], 256 * s[i + 7] as nat + s[i + 8])
      else Frame(s, ps, n - 1)
  }

  // ---- What the loop has found out by then ----

  function OneMarker(s: bytes, i: nat, res: Results): Results
    requires Passes(s, i)
  {
    if s[i + 1] == 0xd8 then res.(soi := true)
    else if Standalone(s[i + 1]) then res
    else Noted(s, i, res)
  }

  function Fields(s: bytes, ps: seq<nat>, n: nat): Results
    requires n <= |ps| && forall k :: 0 <= k < n ==> Passes(s, ps[k])
  {
    if n == 0 then FRESH else OneMarker(s, ps[n - 1], Fields(s, ps, n - 1))
  }

  lemma {:induction false} FieldsMean(s: bytes, ps: seq<nat>, n: nat)
    requires n <= |ps| && forall k :: 0 <= k < n ==> Passes(s, ps[k])
    ensures var r := Fields(s, ps, n);
      && r.soi == Among(s, ps, n, SoiAt) && r.jfif == Among(s, ps, n, JfifAt)
      && Tables(r) == Among(s, ps, n, TableAt) && r.exif == Among(s, ps, n, ExifAt)
      && (r.height, r.width) == Frame(s, ps, n)
      && r.how == UNKNOWN && !r.sos && !r.eoi
  {
    if n > 0 {
      FieldsMean(s, ps, n - 1);
      OneMore(s, ps, n, SoiAt);
      OneMore(s, ps, n, JfifAt);
      OneMore(s, ps, n, TableAt);
      OneMore(s, ps, n, ExifAt);
      OneMarkerMeans(s, ps[n - 1], Fields(s, ps, n - 1));
    }
    hide Among, OneMarker, SoiAt, JfifAt, TableAt, ExifAt, BlockWith, Passes;
  }

  lemma OneMore(s: bytes, ps: seq<nat>, n: nat, kind: (bytes, nat) -> bool)
    requires 0 < n <= |ps|
    ensures Among(s, ps, n, kind) == (Among(s, ps, n - 1, kind) || kind(s, ps[n - 1]))
  {}

  lemma OneMarkerMeans(s: bytes, i: nat, res: Results)
    requires Passes(s, i)
    ensures var r := OneMarker(s, i, res);
      && r.soi == (res.soi || SoiAt(s, i)) && r.jfif == (res.jfif || JfifAt(s, i))
      && Tables(r) == (Tables(res) || TableAt(s, i)) && r.exif == (res.exif || ExifAt(s, i))
      && r.height == (if BlockWith(s, i, 0xc0) then 256 * s[i + 5] as nat + s[i + 6] else res.height)
      && r.width == (if BlockWith(s, i, 0xc0) then 256 * s[i + 7] as nat + s[i + 8] else res.width)
      && r.how == res.how && r.sos == res.sos && r.eoi == res.eoi
  {
    hide Noted, Marked, Tables;
    if Standalone(s[i + 1]) {
      StandaloneMeans(s, i);
      assert OneMarker(s, i, res) == if s[i + 1] == 0xd8 then res.(soi := true) else res;
      hide JfifAt, BlockWith, TableAt, ExifAt;
      SoiKeepsTables(res);
    } else {
      NotedMeans(s, i, res);
      MarkedKeeps(s[i + 1], res);
      hide JfifAt, BlockWith;
    }
  }

  lemma SoiKeepsTables(res: Results)
    ensures Tables(res.(soi := true)) == Tables(res)
  {}

  lemma StandaloneMeans(s: bytes, i: nat)
    requires Passes(s, i) && Standalone(s[i + 1])
    ensures !JfifAt(s, i) && !BlockWith(s, i, 0xc0) && !TableAt(s, i) && !ExifAt(s, i)
  {}

  lemma NotedMeans(s: bytes, i: nat, res: Results)
    requires i + 8 < |s|
    ensures var r, m := Noted(s, i, res), Marked(s[i + 1], res);
      && r.jfif == (res.jfif || JfifAt(s, i)) && r.soi == m.soi && Tables(r) == Tables(m) && r.exif == m.exif
      && r.height == (if BlockWith(s, i, 0xc0) then 256 * s[i + 5] as nat + s[i + 6] else res.height)
      && r.width == (if BlockWith(s, i, 0xc0) then 256 * s[i + 7] as nat + s[i + 8] else res.width)
      && r.how == m.how && r.sos == m.sos && r.eoi == m.eoi
  {
    hide Marked;
  }

  lemma {:induction false} MarkersAt(s: bytes, ps: seq<nat>, n: nat)
    requires Path(s, ps) && n < |ps|
    ensures Markers(s, 0, FRESH) == Markers(s, ps[n], Fields(s, ps, n))
  {
    hide Noted, Fields;
    if n > 0 {
      MarkersAt(s, ps, n - 1);
      FieldsStep(s, ps, n);
      MarkersStep(s, ps[n - 1], Fields(s, ps, n - 1));
    } else {
      FieldsNone(s, ps);
    }
    hide Markers, OneMarker;
  }

  lemma FieldsNone(s: bytes, ps: seq<nat>)
    ensures Fields(s, ps, 0) == FRESH
  {}

  lemma FieldsStep(s: bytes, ps: seq<nat>, n: nat)
    requires 0 < n <= |ps| && forall k :: 0 <= k < n ==> Passes(s, ps[k])
    ensures Fields(s, ps, n) == OneMarker(s, ps[n - 1], Fields(s, ps, n - 1))
  {}

  lemma MarkersStep(s: bytes, i: nat, res: Results)
    requires Passes(s, i)
    ensures Markers(s, i, res) == Markers(s, Behind(s, i), OneMarker(s, i, res))
  {
    hide Noted;
  }

  // ---- The image data ----

  /** The data from `d` on has its first marker that ends it, or is forbidden, at `k`. */
  ghost predicate FirstStop(s: bytes, d: nat, k: nat) {
    d <= k && k + 1 < |s| && !Clean(s, k) && forall j :: d <= j < k ==> Clean(s, j)
  }

  ghost predicate AllClean(s: bytes, d: nat) { forall j :: d <= j && j + 1 < |s| ==> Clean(s, j) }

  lemma {:induction false} ScanStops(s: bytes, d: nat, k: nat)
    requires FirstStop(s, d, k)
    ensures Scan(s, d) == if s[k + 1] == 0xd9 || s[k + 1] == 0xde then (k + 2, COMPLETE) else (k, CORRUPT)
    decreases k - d
  {
    if d < k {
      assert Clean(s, d);
      ScanStops(s, d + 1, k);
    }
  }

  lemma {:induction false} ScanRunsOut(s: bytes, d: nat)
    requires AllClean(s, d)
    ensures Scan(s, d) == (if d + 1 < |s| then |s| - 1 else d, UNKNOWN)
    decreases |s| - d
  {
    if d + 1 < |s| {
      assert Clean(s, d);
      ScanRunsOut(s, d + 1);
    }
  }

  // ---- The verdict, for every buffer ----

  /** The validator has what it needs to display the image. */
  ghost predicate Displays(s: bytes, ps: seq<nat>) {
    var n := if ps == [] then 0 else |ps| - 1;
    && Among(s, ps, n, JfifAt) && Among(s, ps, n, TableAt) && Frame(s, ps, n).0 != 0 && Frame(s, ps, n).1 != 0
  }

  ghost predicate HasSoi(s: bytes, ps: seq<nat>) { ps != [] && Among(s, ps, |ps| - 1, SoiAt) }

  ghost predicate HasJfif(s: bytes, ps: seq<nat>) { ps != [] && Among(s, ps, |ps| - 1, JfifAt) }

  ghost predicate HasExif(s: bytes, ps: seq<nat>) { ps != [] && Among(s, ps, |ps| - 1, ExifAt) }

  /** An outcome by its length and verdict. */
  predicate Says(outcome: Outcome, len: nat, how: How) {
    outcome.Done? && outcome.res.len == len && outcome.res.how == how
  }

  /** The walk stops at a start of scan. */
  predicate AtScan(s: bytes, e: nat) { e + 1 < |s| && s[e] == 0xff && s[e + 1] == 0xda }

  /** How far the walk gets where it stops at `e` and there is no start of scan: past the two
      bytes of a marker that ends it, and 8 on where a block has no room. */
  function StoppedAt(s: bytes, e: nat): nat {
    if e + 1 >= |s| || s[e] != 0xff || s[e + 1] == 0xff then e
    else if s[e + 1] == 0x01 || s[e + 1] == 0xd9 then e + 2
    else e + 8
  }

  /** Without a start of scan there is no image; what is left of it is its Exif block. */
  lemma WithoutScan(s: bytes, ps: seq<nat>)
    requires Path(s, ps) && !AtScan(s, ps[|ps| - 1])
    ensures var o := Markers(s, 0, FRESH);
      if HasSoi(s, ps) && HasJfif(s, ps) && HasExif(s, ps) then Says(o, StoppedAt(s, ps[|ps| - 1]), TRUNCATED)
      else Says(o, 0, CORRUPT)
  {
    var n := |ps| - 1;
    MarkersAt(s, ps, n);
    FieldsMean(s, ps, n);
    hide Among, Fields, Frame, Path;
    StopsWithout(s, ps[n], Fields(s, ps, n));
  }

  lemma StopsWithout(s: bytes, e: nat, res: Results)
    requires !Passes(s, e) && !AtScan(s, e) && res.how == UNKNOWN && !res.sos && !res.eoi
    ensures var o := Markers(s, e, res);
      if res.soi && res.jfif && res.exif then Says(o, StoppedAt(s, e), TRUNCATED) else Says(o, 0, CORRUPT)
  {}

  predicate Complete(res: Results) { res.jfif && Tables(res) && res.height != 0 && res.width != 0 }

  lemma VerdictOfComplete(i: nat, res: Results)
    requires Complete(res) && res.sos
    ensures Says(Done(Verdict(i, res)), if res.soi then i else 0,
                 if !res.soi then CORRUPT else if res.exif then TRUNCATED else res.how)
  {}

  lemma MarkersAtScan(s: bytes, e: nat, res: Results)
    requires AtScan(s, e)
    ensures Markers(s, e, res) == StartOfScan(s, e, res)
  {}

  /** What a start of scan leads to. */
  lemma ScanOutcome(s: bytes, e: nat, res: Results)
    requires AtScan(s, e) && res.how == UNKNOWN
    ensures var o := Markers(s, e, res);
      && (!Complete(res) ==> Says(o, 0, CORRUPT))
      && (Complete(res) && e + 3 == |s| ==> o == RangeError)
      && (Complete(res) && e + 2 == |s| ==> o == Done(Verdict(|s|, res.(sos := true))))
      && (Complete(res) && e + 3 < |s| ==>
            o == Done(Verdict(Scan(s, DataAt(s, e)).0, res.(sos := true, how := Scan(s, DataAt(s, e)).1))))
  {
    MarkersAtScan(s, e, res);
    hide Markers, Verdict, Scan;
  }

  /** A start of scan before the JFIF header, a table or the frame. */
  lemma ScanTooEarly(s: bytes, ps: seq<nat>)
    requires Path(s, ps) && AtScan(s, ps[|ps| - 1]) && !Displays(s, ps)
    ensures Says(Markers(s, 0, FRESH), 0, CORRUPT)
  {
    hide Fields, Path, Markers, Complete, Displays;
    var res := FieldsThere(s, ps);
    MarkersAt(s, ps, |ps| - 1);
    ScanOutcome(s, ps[|ps| - 1], res);
  }

  lemma PathFine(s: bytes, ps: seq<nat>)
    requires Path(s, ps)
    ensures ps != [] && forall k :: 0 <= k < |ps| - 1 ==> Passes(s, ps[k])
  {}

  /** A start of scan whose length field is cut in half raises an exception. */
  lemma ScanCut(s: bytes, ps: seq<nat>)
    requires Path(s, ps) && AtScan(s, ps[|ps| - 1]) && Displays(s, ps) && ps[|ps| - 1] + 3 == |s|
    ensures Markers(s, 0, FRESH) == RangeError
  {
    hide Fields, Path, Markers, Complete, Displays;
    var res := FieldsThere(s, ps);
    MarkersAt(s, ps, |ps| - 1);
    ScanOutcome(s, ps[|ps| - 1], res);
  }

  /** The verdict once the scan header is passed, from where and how the data ends. */
  ghost predicate Judged(s: bytes, ps: seq<nat>, len: nat, how: How) {
    if !HasSoi(s, ps) then Says(Markers(s, 0, FRESH), 0, CORRUPT)
    else Says(Markers(s, 0, FRESH), len, if HasExif(s, ps) then TRUNCATED else how)
  }

  /** Where the image data begins. */
  function DataAt(s: bytes, e: nat): nat
    requires e + 3 < |s|
  {
    e + 2 + 256 * s[e + 2] as nat + s[e + 3]
  }

  lemma ScanJudged(s: bytes, ps: seq<nat>)
    requires Path(s, ps) && AtScan(s, ps[|ps| - 1]) && Displays(s, ps) && ps[|ps| - 1] + 3 != |s|
    ensures var e := ps[|ps| - 1];
      if e + 2 == |s| then Judged(s, ps, |s|, UNKNOWN)
      else Judged(s, ps, Scan(s, DataAt(s, e)).0, Scan(s, DataAt(s, e)).1)
  {
    hide Fields, Path, Markers, Complete, Displays, Verdict, Scan, HasSoi, HasExif;
    var res := FieldsThere(s, ps);
    var e := ps[|ps| - 1];
    MarkersAt(s, ps, |ps| - 1);
    ScanOutcome(s, e, res);
    CompleteKeeps(res, Scan(s, if e + 3 < |s| then DataAt(s, e) else e).1);
    if e + 2 == |s| {
      VerdictOfComplete(|s|, res.(sos := true));
    } else {
      VerdictOfComplete(Scan(s, DataAt(s, e)).0, res.(sos := true, how := Scan(s, DataAt(s, e)).1));
    }
  }

  lemma FieldsThere(s: bytes, ps: seq<nat>) returns (res: Results)
    requires Path(s, ps)
    ensures ps != [] && forall k :: 0 <= k < |ps| - 1 ==> Passes(s, ps[k])
    ensures res == Fields(s, ps, |ps| - 1) && res.how == UNKNOWN && (Complete(res) <==> Displays(s, ps))
    ensures res.soi == HasSoi(s, ps) && res.exif == HasExif(s, ps)
  {
    hide Among, Frame, Path, Tables, Fields;
    PathFine(s, ps);
    res := Fields(s, ps, |ps| - 1);
    FieldsMean(s, ps, |ps| - 1);
  }

  lemma CompleteKeeps(res: Results, how: How)
    ensures Complete(res.(sos := true)) == Complete(res.(sos := true, how := how)) == Complete(res)
  {}

  /** Data that runs off the buffer: nothing more is known than how far it goes. */
  lemma DataRunsOff(s: bytes, ps: seq<nat>)
    requires Path(s, ps) && AtScan(s, ps[|ps| - 1]) && Displays(s, ps) && ps[|ps| - 1] + 3 < |s|
    requires AllClean(s, DataAt(s, ps[|ps| - 1]))
    ensures var d := DataAt(s, ps[|ps| - 1]);
      Judged(s, ps, if d < |s| - 1 then |s| - 1 else d, UNKNOWN)
  {
    ScanJudged(s, ps);
    ScanRunsOut(s, DataAt(s, ps[|ps| - 1]));
    hide Judged, Path, Displays, AllClean, Scan;
  }

  /** Data that comes to an end marker, or to a forbidden one. */
  lemma DataStops(s: bytes, ps: seq<nat>, k: nat)
    requires Path(s, ps) && AtScan(s, ps[|ps| - 1]) && Displays(s, ps) && ps[|ps| - 1] + 3 < |s|
    requires FirstStop(s, DataAt(s, ps[|ps| - 1]), k)
    ensures if s[k + 1] == 0xd9 || s[k + 1] == 0xde then Judged(s, ps, k + 2, COMPLETE) else Judged(s, ps, k, CORRUPT)
  {
    ScanJudged(s, ps);
    ScanStops(s, DataAt(s, ps[|ps| - 1]), k);
    hide Judged, Path, Displays, Scan;
  }

  /** Exactly the buffers that raise an exception: the scan header's length field is cut in half. */
  lemma RangeErrorExactly(s: bytes, ps: seq<nat>)
    requires Path(s, ps)
    ensures Markers(s, 0, FRESH) == RangeError
       <==> AtScan(s, ps[|ps| - 1]) && Displays(s, ps) && ps[|ps| - 1] + 3 == |s|
  {
    hide Path, Displays, Markers, Scan;
    Outcomes(s, ps);
  }

  lemma Outcomes(s: bytes, ps: seq<nat>)
    requires Path(s, ps)
    ensures ps != []
    ensures var o, e := Markers(s, 0, FRESH), ps[|ps| - 1];
      if !AtScan(s, e) then
        if HasSoi(s, ps) && HasJfif(s, ps) && HasExif(s, ps) then Says(o, StoppedAt(s, e), TRUNCATED)
        else Says(o, 0, CORRUPT)
      else if !Displays(s, ps) then Says(o, 0, CORRUPT)
      else if e + 3 == |s| then o == RangeError
      else if e + 2 == |s| then Judged(s, ps, |s|, UNKNOWN)
      else Judged(s, ps, Scan(s, DataAt(s, e)).0, Scan(s, DataAt(s, e)).1)
  {
    hide Path, Displays, Markers, Scan, HasSoi, HasJfif, HasExif, Judged, StoppedAt;
    PathFine(s, ps);
    if !AtScan(s, ps[|ps| - 1]) {
      WithoutScan(s, ps);
    } else if !Displays(s, ps) {
      ScanTooEarly(s, ps);
    } else if ps[|ps| - 1] + 3 == |s| {
      ScanCut(s, ps);
    } else {
      ScanJudged(s, ps);
    }
  }

  lemma {:induction false} ScanForward(s: bytes, d: nat)
    ensures Scan(s, d).0 >= d
    decreases |s| - d
  {
    if d + 1 < |s| {
      ScanForward(s, d + 1);
    }
  }

  lemma SoiIsPassed(s: bytes, ps: seq<nat>)
    requires Path(s, ps) && HasSoi(s, ps)
    ensures ps[|ps| - 1] > 0
  {
    var n := |ps| - 1;
    assert Passes(s, ps[n - 1]) && ps[n] == Behind(s, ps[n - 1]);
    hide Among;
  }

  /** Exactly the buffers for which nothing is to be carved: the length is 0 where the start of image or what is
      needed to display it, or without a start of scan the JFIF header or the Exif block, is missing. */
  lemma NothingExactly(s: bytes, ps: seq<nat>)
    requires Path(s, ps) && Markers(s, 0, FRESH).Done?
    ensures Markers(s, 0, FRESH).res.len == 0
       <==> !HasSoi(s, ps) || !(if AtScan(s, ps[|ps| - 1]) then Displays(s, ps)
                                else HasJfif(s, ps) && HasExif(s, ps))
  {
    hide Path, Displays, Markers, Scan, HasJfif, HasExif, HasSoi;
    Outcomes(s, ps);
    var e := ps[|ps| - 1];
    if HasSoi(s, ps) {
      SoiIsPassed(s, ps);
    }
    if e + 3 < |s| {
      ScanForward(s, DataAt(s, e));
    }
  }

  // ---- Written images ----

  /** The bytes up to the end of the scan header's length field. */
  function Head(items: seq<Item>, length: nat): bytes
    requires ItemsOk(items) && length < 0x10000
  {
    ItemsBytes(items) + [0xff, 0xda] + Two(length)
  }

  /** Where the image data begins behind them. */
  function DataBehind(items: seq<Item>, length: nat): nat
    requires ItemsOk(items)
  {
    |ItemsBytes(items)| + 2 + length
  }

  /** Items that can be displayed, a start of scan and at least one byte: the result is as the data ends. */
  lemma ImageScanned(s: bytes, items: seq<Item>, length: nat)
    requires ItemsOk(items) && Displayable(items) && length < 0x10000 && Head(items, length) < s
    ensures var (end, how) := Scan(s, DataBehind(items, length));
      Says(Markers(s, 0, FRESH), end, if Has(items, IsExif) then TRUNCATED else how)
  {
    hide Markers, Has, FrameSize, ItemsBytes, ItemsOk, Scan, Complete, Verdict, Seen;
    var head := ItemsBytes(items);
    var d := |head| + 2 + length;
    assert s[..|head|] == head;
    ItemsStep(s, 0, items, FRESH);
    SeenMeans(items);
    var res := Seen(FRESH, items);
    SeenComplete(items);
    HeaderRead(s, head, length);
    ScanOutcome(s, |head|, res);
    CompleteKeeps(res, Scan(s, d).1);
    VerdictOfComplete(Scan(s, d).0, res.(sos := true, how := Scan(s, d).1));
  }

  /** Data that runs off the buffer is measured to its last byte, or to the end of the scan header. */
  lemma ImageRunsOff(s: bytes, items: seq<Item>, length: nat)
    requires ItemsOk(items) && Displayable(items) && length < 0x10000 && Head(items, length) < s
    requires AllClean(s, DataBehind(items, length))
    ensures var d := DataBehind(items, length);
      Says(Markers(s, 0, FRESH), if d < |s| - 1 then |s| - 1 else d, if Has(items, IsExif) then TRUNCATED else UNKNOWN)
  {
    hide Markers, Scan, AllClean, Displayable, Head, DataBehind;
    ImageScanned(s, items, length);
    ScanRunsOut(s, DataBehind(items, length));
  }

  /** Data that comes to an end marker is measured to its end, and to a forbidden marker, up to that. */
  lemma ImageStops(s: bytes, items: seq<Item>, length: nat, k: nat)
    requires ItemsOk(items) && Displayable(items) && length < 0x10000 && Head(items, length) < s
    requires FirstStop(s, DataBehind(items, length), k)
    ensures var exif := Has(items, IsExif);
      if s[k + 1] == 0xd9 || s[k + 1] == 0xde then
        Says(Markers(s, 0, FRESH), k + 2, if exif then TRUNCATED else COMPLETE)
      else Says(Markers(s, 0, FRESH), k, if exif then TRUNCATED else CORRUPT)
  {
    hide Markers, Scan, Displayable, Head, DataBehind;
    ImageScanned(s, items, length);
    ScanStops(s, DataBehind(items, length), k);
  }

  lemma SeenComplete(items: seq<Item>)
    requires Displayable(items)
    ensures Complete(Seen(FRESH, items)) && Seen(FRESH, items).soi
  {
    SeenMeans(items);
    hide Seen, Has, FrameSize;
  }

  lemma HeaderRead(s: bytes, head: bytes, length: nat)
    requires length < 0x10000 && head + [0xff, 0xda] + Two(length) < s
    ensures AtScan(s, |head|) && |head| + 4 < |s| && DataAt(s, |head|) == |head| + 2 + length
  {
    var t, e := head + [0xff, 0xda] + Two(length), |head|;
    assert s[e] == t[e] && s[e + 1] == t[e + 1] && s[e + 2] == t[e + 2] && s[e + 3] == t[e + 3];
  }
}

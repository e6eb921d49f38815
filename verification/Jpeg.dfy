/** The JPEG marker-stream validator of `src/jpeg_validator.h`, and the streams it calls complete. */
module Jpeg {
  import opened Bytes

  datatype How = UNKNOWN | COMPLETE | TRUNCATED | CORRUPT

  /** `results_t`. */
  datatype Results = Results(
    len: nat, how: How,
    dht: bool, dac: bool, dqt: bool, exif: bool, jfif: bool, eoi: bool, soi: bool, sos: bool,
    height: nat, width: nat)

  const FRESH := Results(0, UNKNOWN, false, false, false, false, false, false, false, false, 0, 0)

  /** A read past the buffer raises an exception. */
  datatype Outcome = RangeError | Done(res: Results)

  function Be16(s: bytes, i: nat): nat
    requires i + 1 < |s|
  {
    s[i] as int * 256 + s[i + 1]
  }

  /** The letters JFIF. */
  predicate SaysJfif(s: bytes, i: nat)
    requires i + 3 < |s|
  {
    s[i] == 0x4a && s[i + 1] == 0x46 && s[i + 2] == 0x49 && s[i + 3] == 0x46
  }

  predicate Tables(res: Results) { res.dht || res.dac || res.dqt }

  // ---- What the loops compute ----

  /** What is learnt from a block with a length field. */
  function Noted(s: bytes, i: nat, res: Results): Results
    requires i + 8 < |s|
  {
    var m, n := s[i + 1], Be16(s, i + 2);
    Marked(m, res).(
      jfif := res.jfif || (m == 0xe0 && n > 8 && SaysJfif(s, i + 4)),
      height := if m == 0xc0 && n > 8 then Be16(s, i + 5) else res.height,
      width := if m == 0xc0 && n > 8 then Be16(s, i + 7) else res.width)
  }

  /** What the marker alone tells. */
  function Marked(m: byte, res: Results): Results {
    res.(dht := res.dht || m == 0xc4, dac := res.dac || m == 0xcc, dqt := res.dqt || m == 0xdb,
         exif := res.exif || m == 0xe1)
  }

  /** The scan of the image data: where it stops and what it has found. */
  function Scan(s: bytes, i: nat): (nat, How)
    decreases |s| - i
  {
    if i + 1 >= |s| then (i, UNKNOWN)
    else if s[i] != 0xff || s[i + 1] == 0 then Scan(s, i + 1)
    else if s[i + 1] == 0xde || s[i + 1] == 0xd9 then (i + 2, COMPLETE)
    else if 0xc0 <= s[i + 1] <= 0xdf then Scan(s, i + 1)
    else (i, CORRUPT)
  }

  /** The verdict once the loops have ended. */
  function Verdict(i: nat, res: Results): Results {
    if !res.jfif || !res.soi then res.(len := 0, how := CORRUPT)
    else if res.exif then res.(len := i, how := TRUNCATED)
    else if !Tables(res) || !res.sos || res.width == 0 || res.height == 0 then res.(len := 0, how := CORRUPT)
    else res.(len := i)
  }

  /** From a start-of-scan marker on. */
  function StartOfScan(s: bytes, i: nat, res: Results): Outcome
    requires i + 1 < |s|
  {
    if !Tables(res) || !res.jfif || res.width == 0 || res.height == 0 then
      Done(res.(sos := true, how := CORRUPT, len := 0))
    else if i + 2 >= |s| then Done(Verdict(i + 2, res.(sos := true)))
    else if i + 3 >= |s| then RangeError
    else
      var (end, how) := Scan(s, i + 2 + Be16(s, i + 2));
      Done(Verdict(end, res.(sos := true, how := how)))
  }

  /** The loop over the markers, from marker `i` on. */
  function Markers(s: bytes, i: nat, res: Results): Outcome
    decreases |s| - i
  {
    if i + 1 >= |s| then Done(Verdict(i, res))
    else if s[i] != 0xff || s[i + 1] == 0xff then Done(Verdict(i, res.(how := CORRUPT)))
    else if s[i + 1] == 0xd8 then Markers(s, i + 2, res.(soi := true))
    else if s[i + 1] == 0x01 then Done(Verdict(i + 2, res.(how := COMPLETE)))
    else if 0xd0 <= s[i + 1] <= 0xd7 then Markers(s, i + 2, res)
    else if s[i + 1] == 0xd9 then Done(Verdict(i + 2, res.(eoi := true, how := COMPLETE)))
    else if s[i + 1] == 0xda then StartOfScan(s, i, res)
    else if i + 8 >= |s| then Done(Verdict(i + 8, res))
    else Markers(s, i + 2 + Be16(s, i + 2), Noted(s, i, res))
  }

  // ---- The validator ----

  lemma NotedKeeps(s: bytes, i: nat, res: Results)
    requires i + 8 < |s|
    ensures Noted(s, i, res).how == res.how && Noted(s, i, res).eoi == res.eoi
  {
    hide Be16, SaysJfif, Marked;
    MarkedKeeps(s[i + 1], res);
  }

  method NoteMarker(m: byte, res0: Results) returns (res: Results)
    ensures res == Marked(m, res0)
  {
    res := res0;
    if m == 0xc4 {
      res := res.(dht := true);
    }
    if m == 0xcc {
      res := res.(dac := true);
    }
    if m == 0xdb {
      res := res.(dqt := true);
    }
    if m == 0xe1 {
      res := res.(exif := true);
    }
  }

  method NoteBlock(sbuf: bytes, i: nat, res0: Results) returns (res: Results)
    requires i + 8 < |sbuf|
    ensures res == Noted(sbuf, i, res0)
  {
    hide Marked, Be16;
    var blockLength := Be16(sbuf, i + 2);
    res := NoteMarker(sbuf[i + 1], res0);
    MarkedKeeps(sbuf[i + 1], res0);
    if sbuf[i + 1] == 0xe0 && blockLength > 8 {
      if sbuf[i + 4] == 0x4a && sbuf[i + 5] == 0x46 && sbuf[i + 6] == 0x49 && sbuf[i + 7] == 0x46 {
        res := res.(jfif := true);
      }
    }
    if sbuf[i + 1] == 0xc0 && blockLength > 8 {
      res := res.(height := Be16(sbuf, i + 5));
      res := res.(width := Be16(sbuf, i + 7));
    }
  }

  lemma MarkedKeeps(m: byte, res: Results)
    ensures var r := Marked(m, res);
      && r.jfif == res.jfif && r.height == res.height && r.width == res.width && r.soi == res.soi
      && r.how == res.how && r.eoi == res.eoi && r.sos == res.sos
      && Tables(r) == (Tables(res) || m == 0xc4 || m == 0xcc || m == 0xdb) && r.exif == (res.exif || m == 0xe1)
  {}

  method ScanData(sbuf: bytes, start: nat) returns (i: nat, how: How)
    ensures (i, how) == Scan(sbuf, start)
  {
    i, how := start, UNKNOWN;
    while i + 1 < |sbuf|
      invariant Scan(sbuf, i) == Scan(sbuf, start)
    {
      if sbuf[i] != 0xff {
        i := i + 1;
        continue;
      }
      if sbuf[i + 1] == 0x00 {
        i := i + 1;
        continue;
      }
      if sbuf[i + 1] == 0xde {
        return i + 2, COMPLETE;
      }
      if sbuf[i + 1] == 0xd9 {
        return i + 2, COMPLETE;
      }
      if 0xc0 <= sbuf[i + 1] <= 0xdf {
        i := i + 1;
        continue;
      }
      return i, CORRUPT;
    }
  }

  /** The checks after the loops. */
  method Conclude(i: nat, res0: Results) returns (res: Results)
    ensures res == Verdict(i, res0)
  {
    res := res0.(len := i);
    if !res.jfif || !res.soi {
      return res.(how := CORRUPT, len := 0);
    }
    if res.exif {
      return res.(how := TRUNCATED);
    }
    if !res.dht && !res.dac && !res.dqt {
      return res.(how := CORRUPT, len := 0);
    }
    if !res.sos || res.width == 0 || res.height == 0 {
      return res.(how := CORRUPT, len := 0);
    }
  }

  /** `validate_jpeg`. */
  method ValidateJpeg(sbuf: bytes) returns (outcome: Outcome)
    ensures outcome == Markers(sbuf, 0, FRESH)
  {
    hide Noted, Be16, Scan, Verdict;
    var res := FRESH;
    var i := 0;
    while i + 1 < |sbuf| && !res.eoi && res.how != CORRUPT && res.how != COMPLETE && res.how != TRUNCATED
      invariant res.how == UNKNOWN && !res.eoi ==> Markers(sbuf, i, res) == Markers(sbuf, 0, FRESH)
      invariant res.how != UNKNOWN || res.eoi ==> Done(Verdict(i, res)) == Markers(sbuf, 0, FRESH)
      decreases |sbuf| - i, res.how == UNKNOWN
    {
      if sbuf[i] != 0xff {
        res := res.(how := CORRUPT);
        break;
      }
      match sbuf[i + 1]
      case 0xff =>
        res := res.(how := CORRUPT);
      case 0xd8 =>
        res := res.(soi := true);
        i := i + 2;
      case 0x01 =>
        res := res.(how := COMPLETE);
        i := i + 2;
      case 0xd9 =>
        res := res.(eoi := true, how := COMPLETE);
        i := i + 2;
      case 0xda =>
        res := res.(sos := true);
        if !res.dht && !res.dac && !res.dqt {
          return Done(res.(how := CORRUPT, len := 0));
        }
        if !res.jfif || res.width == 0 || res.height == 0 {
          return Done(res.(how := CORRUPT, len := 0));
        }
        if i + 2 >= |sbuf| {
          i := i + 2;
        } else {
          if i + 3 >= |sbuf| {
            return RangeError;
          }
          i := i + 2 + Be16(sbuf, i + 2);
          var end, how := ScanData(sbuf, i);
          i, res := end, res.(how := how);
        }
        break;
      case m =>
        if 0xd0 <= m <= 0xd7 {
          i := i + 2;
        } else if i + 8 >= |sbuf| {
          i := i + 8;
        } else {
          NotedKeeps(sbuf, i, res);
          res := NoteBlock(sbuf, i, res);
          i := i + 2 + Be16(sbuf, i + 2);
        }
    }
    res := Conclude(i, res);
    return Done(res);
  }
}

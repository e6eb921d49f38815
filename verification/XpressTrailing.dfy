/**
 What the decoder makes of bytes behind an encoded token list. The scan of a
 hibernation file rounds lengths up to a multiple of 8, so there usually are some.
 */
module XpressTrailing {
  import opened Bytes
  import opened Arithmetic
  import opened XpressFormat
  import opened XpressDecoder
  import opened XpressRoundTrip

  // ---- Tokens that write nothing ----

  /** With `n` bytes written, every token from `c` on is a match that the guard refuses. (A literal
      is taken back if it leaves the output without room for one more.) */
  predicate Silent(input: bytes, c: Cursor, n: nat, size: nat)
    requires CursorOk(input, c) || c.at >= |input|
    decreases |input| - c.at
  {
    c.at >= |input|
    || match Fetch(input, c)
       case Stop => true
       case Got(Literal(_), next) => next.at < |input| && n + 1 >= size
       case Got(Match(d, _), next) => d >= n && Silent(input, next, n, size)
  }

  lemma {:induction false} SilentExactly(input: bytes, size: nat, c: Cursor, out: bytes)
    requires (CursorOk(input, c) || c.at >= |input|) && |out| < size
    ensures Decode(input, size, c, out) == out <==> Silent(input, c, |out|, size)
    decreases |input| - c.at
  {
    hide Fetch;
    if c.at < |input| {
      match Fetch(input, c)
      case Stop =>
      case Got(Literal(b), next) =>
        if next.at < |input| && |out| + 1 < size {
          DecodeFits(input, size, next, out + [b]);
        }
      case Got(Match(d, l), next) =>
        if d >= |out| {
          SilentExactly(input, size, next, out);
        } else {
          var copied := Clipped(out, d, l, size);
          ClippedAdds(out, d, l, size);
          ClippedFits(out, d, l, size);
          DecodeFits(input, size, next, copied);
        }
    }
  }

  lemma ClippedAdds(out: bytes, d: nat, l: nat, size: nat)
    requires 1 <= d < |out| < size && l > 0
    ensures |Clipped(out, d, l, size)| > |out|
  {}

  /** A literal that fills the output is taken back if anything follows. */
  lemma {:induction false} LastTakenBack(input: bytes, size: nat, c: Cursor, out: bytes, ts: seq<Token>, fill: bit,
                                         junk: bytes)
    requires Reads(input, c, ts, fill, junk) && junk != []
    requires EndsInLiteral(ts) && |Written(out, ts, true)| == size
    ensures |Decode(input, size, c, out)| < size
    decreases |ts|
  {
    hide Reads, Fetch, Clipped, CopyBack, Guarded;
    CursorFine(input, c, ts, fill, junk);
    EncodedFetched(input, c, ts, fill, junk);
    Grows(out, ts, true);
    var next := Fetch(input, c).next;
    if |ts| > 1 {
      match ts[0] {
        case Literal(b) =>
          Grows(out + [b], ts[1..], true);
          LastTakenBack(input, size, next, out + [b], ts[1..], fill, junk);
        case Match(d, l) =>
          Grows(Guarded(out, d, l), ts[1..], true);
          ClippedIsCopy(out, d, l, size);
          LastTakenBack(input, size, next, Guarded(out, d, l), ts[1..], fill, junk);
      }
    } else {
      CursorFine(input, next, [], fill, junk);
      assert ts[0].Literal? && Written(out, ts, true) == out + [ts[0].b];
    }
  }

  // ---- What is read from the bytes behind ----

  /** Where the decoder stands behind the encoding. */
  function Behind(ts: seq<Token>, fill: bit, junk: bytes): Cursor
    requires GoodTokens(ts)
  {
    After(Encode(ts, fill) + junk, BEGIN, |ts|)
  }

  /** Indicator bits the encoder left unused, which the decoder reads on with. */
  function Unused(ts: seq<Token>): nat { (32 - |ts| % 32) % 32 }

  lemma BehindReads(ts: seq<Token>, fill: bit, junk: bytes)
    requires GoodTokens(ts) && junk != []
    ensures var last := Behind(ts, fill, junk);
      && Reads(Encode(ts, fill) + junk, last, [], fill, junk)
      && last.bits == Unused(ts) && (last.nibble != 0 <==> OpenAtEnd(ts, false))
  {
    hide Reads, Encode, After, OpenAtEnd;
    BeginReads(ts, fill, junk);
    AfterReads(Encode(ts, fill) + junk, BEGIN, ts, fill, junk);
    hide Unused;
    UnusedIs(ts, Behind(ts, fill, junk).bits);
  }

  lemma UnusedIs(ts: seq<Token>, bits: nat)
    requires (bits + |ts|) % 32 == 0 && bits < 32
    ensures bits == Unused(ts)
  {}

  /** The first two bytes of a string as a match word: its distance, and whether its length goes on. */
  function Distance(junk: bytes): nat
    requires |junk| >= 2
  {
    Word16(junk, 0) / 8 + 1
  }

  predicate Long(junk: bytes)
    requires |junk| >= 2
  {
    Word16(junk, 0) % 8 == 7
  }

  /** Left over indicator bits are the filler. */
  lemma FillerRead(input: bytes, c: Cursor, fill: bit, junk: bytes)
    requires Reads(input, c, [], fill, junk) && junk != [] && c.bits > 0
    ensures c.at < |input| && Refill(input, c) == c
    ensures c.indicator / Pow2(c.bits - 1) % 2 == fill
    ensures c.indicator % Pow2(c.bits - 1) == FlagWord([], c.bits - 1, fill)
  {
    hide Pow2, FlagWord;
    EncodedEnd(input, c, fill, junk);
    FlagRead([], c.indicator, c.bits, fill);
  }

  /** With the filler 0 the next byte is a literal. */
  lemma LiteralRead(input: bytes, c: Cursor, junk: bytes)
    requires Reads(input, c, [], 0, junk) && junk != [] && c.bits > 0
    ensures c.at < |input|
    ensures var r := Fetch(input, c);
      r.Got? && r.token == Literal(junk[0]) && r.next == c.(bits := c.bits - 1, at := c.at + 1)
    ensures Reads(input, Fetch(input, c).next, [], 0, junk[1..])
  {
    hide Pow2, FlagWord;
    EncodedEnd(input, c, 0, junk);
    FillerRead(input, c, 0, junk);
    At(input, c.at, [junk[0]], junk[1..]);
    assert [] + junk[1..] == junk[1..];
  }

  /** So with the filler 0 the bytes behind are added to the output as they are, as long as there are unused bits. */
  lemma {:induction false} BytesAdded(input: bytes, size: nat, c: Cursor, out: bytes, junk: bytes)
    requires Reads(input, c, [], 0, junk) && |junk| <= c.bits && |out| + |junk| <= size
    ensures Decode(input, size, c, out) == out + junk
    decreases |junk|
  {
    hide Reads, Fetch;
    CursorFine(input, c, [], 0, junk);
    EncodedEnd(input, c, 0, junk);
    if junk != [] {
      LiteralRead(input, c, junk);
      if |junk| > 1 {
        BytesAdded(input, size, Fetch(input, c).next, out + [junk[0]], junk[1..]);
        assert out + [junk[0]] + junk[1..] == out + junk;
      }
    }
  }

  /** Too few bytes for a token. */
  lemma TooFew(input: bytes, c: Cursor, n: nat, size: nat)
    requires CursorOk(input, c) && c.at < |input|
    requires if c.bits == 0 then c.at + 4 >= |input|
             else c.indicator / Pow2(c.bits - 1) % 2 == 1 && c.at + 2 >= |input|
    ensures Silent(input, c, n, size)
  {
    hide Pow2, Word32;
  }

  // ---- Any number of bytes ----

  /** How many bytes a match takes and the half byte it leaves for the next long one, if it is not cut short. */
  function MatchSize(s: bytes, nibble: Option<nat>): (r: Option<(nat, Option<nat>)>)
    ensures r.Some? ==> 2 <= r.value.0 < |s|
  {
    if |s| <= 2 then None
    else if !Long(s) then Some((2, nibble))
    else
      var k, v := if nibble.Some? then 2 else 3, if nibble.Some? then nibble.value else s[2] % 16;
      var left: Option<nat> := if nibble.Some? then None else Some(s[2] / 16);
      if k >= |s| then None
      else if v < 15 then Some((k, left))
      else if k + 1 >= |s| then None
      else if s[k] < 255 then Some((k + 1, left))
      else if k + 3 >= |s| then None
      else Some((k + 3, left))
  }

  /** The bits of an indicator word, the highest first. */
  function WordFlags(word: nat): seq<nat> { seq(32, i requires 0 <= i < 32 => word / Pow2(31 - i) % 2) }

  /** The bytes are read as matches from too far back, down to a rest that is cut short: `flags` are the
      indicator bits left, `nibble` the half byte left. (Or a literal is taken back.) */
  predicate Refused(s: bytes, flags: seq<nat>, nibble: Option<nat>, n: nat, size: nat)
    decreases |s|
  {
    if s == [] then true
    else if flags == [] then |s| <= 4 || Refused(s[4..], WordFlags(Word32(s, 0)), nibble, n, size)
    else if flags[0] == 0 then |s| > 1 && n + 1 >= size
    else match MatchSize(s, nibble)
      case None => true
      case Some((k, left)) => Distance(s) >= n && Refused(s[k..], flags[1..], left, n, size)
  }

  /** The cursor stands at `s` with these bits and this half byte left. */
  ghost predicate Left(input: bytes, c: Cursor, s: bytes, flags: seq<nat>, nibble: Option<nat>) {
    && CursorOk(input, c) && c.at <= |input| && input[c.at..] == s && (c.bits > 0 ==> c.at > 0)
    && |flags| == c.bits && (forall i :: 0 <= i < c.bits ==> flags[i] == c.indicator / Pow2(c.bits - 1 - i) % 2)
    && (nibble.None? <==> c.nibble == 0) && (nibble.Some? ==> nibble.value == input[c.nibble] as nat / 16)
  }

  /** What stands at a place of the input. */
  lemma SameBytes(input: bytes, at: nat, s: bytes)
    requires at <= |input| && input[at..] == s
    ensures at + |s| == |input| && forall i :: 0 <= i < |s| ==> input[at + i] == s[i]
    ensures forall k :: 0 <= k <= |s| ==> input[at + k..] == s[k..]
  {
    At(input, at, s, []);
  }

  /** A match is fetched as its size says. */
  lemma MatchSizeIs(input: bytes, c: Cursor, s: bytes, nibble: Option<nat>)
    requires CursorOk(input, c) && 0 < c.at < |input| && input[c.at..] == s
    requires (nibble.None? <==> c.nibble == 0) && (nibble.Some? ==> nibble.value == input[c.nibble] as nat / 16)
    ensures var r, m := FetchMatch(input, c), MatchSize(s, nibble);
      match m
      case None => r == Stop
      case Some((k, left)) =>
        && r.Got? && r.token.Match? && r.token.distance == Distance(s)
        && r.next.at == c.at + k && r.next.bits == c.bits && r.next.indicator == c.indicator
        && (left.None? <==> r.next.nibble == 0)
        && (left.Some? ==> r.next.nibble < |input| && left.value == input[r.next.nibble] as nat / 16)
  {
    SameBytes(input, c.at, s);
    if |s| > 2 {
      assert Word16(input, c.at) == Word16(s, 0);
      if Long(s) {
        assert nibble.None? ==> input[c.at + 2] == s[2];
      }
    }
  }

  lemma LeftMatch(input: bytes, c: Cursor, s: bytes, flags: seq<nat>, nibble: Option<nat>, next: Cursor, k: nat,
                  left: Option<nat>)
    requires Left(input, c, s, flags, nibble) && c.bits > 0 && k <= |s|
    requires next.at == c.at + k && next.bits == c.bits - 1 && next.indicator == c.indicator && next.nibble < |input|
    requires (left.None? <==> next.nibble == 0) && (left.Some? ==> left.value == input[next.nibble] as nat / 16)
    ensures Left(input, next, s[k..], flags[1..], left)
  {
    hide Pow2;
    SameBytes(input, c.at, s);
  }

  lemma LeftWord(input: bytes, c: Cursor, s: bytes, nibble: Option<nat>)
    requires Left(input, c, s, [], nibble) && |s| > 4
    ensures var r := Refill(input, c);
      r.at < |input| && r == Cursor(c.at + 4, Word32(s, 0), 32, c.nibble)
      && Left(input, r, s[4..], WordFlags(Word32(s, 0)), nibble)
  {
    hide Pow2;
    SameBytes(input, c.at, s);
  }

  lemma RefillOnce(input: bytes, c: Cursor, n: nat, size: nat)
    requires CursorOk(input, c) && c.at < |input| && c.bits == 0
    requires Refill(input, c).at < |input|
    ensures CursorOk(input, Refill(input, c))
    ensures Silent(input, c, n, size) == Silent(input, Refill(input, c), n, size)
  {
    hide Word32, Pow2, FetchMatch;
  }

  lemma {:induction false} SilentIsRefused(input: bytes, c: Cursor, s: bytes, flags: seq<nat>, nibble: Option<nat>,
                                           n: nat, size: nat)
    requires Left(input, c, s, flags, nibble)
    ensures Silent(input, c, n, size) <==> Refused(s, flags, nibble, n, size)
    decreases |s|, |flags| == 0
  {
    SameBytes(input, c.at, s);
    hide Pow2, Word32, WordFlags, Left, Distance, MatchSize, FetchMatch;
    LeftFine(input, c, s, flags, nibble);
    if s != [] {
      if flags == [] {
        if |s| <= 4 {
          TooFew(input, c, n, size);
        } else {
          LeftWord(input, c, s, nibble);
          RefillOnce(input, c, n, size);
          SilentIsRefused(input, Refill(input, c), s[4..], WordFlags(Word32(s, 0)), nibble, n, size);
        }
      } else {
        OneFlag(input, c, s, flags, nibble);
        if flags[0] == 1 {
          var g := c.(bits := c.bits - 1);
          MatchSizeIs(input, g, s, nibble);
          match MatchSize(s, nibble)
          case None =>
          case Some((k, left)) =>
            var next := FetchMatch(input, g).next;
            LeftMatch(input, c, s, flags, nibble, next, k, left);
            SilentIsRefused(input, next, s[k..], flags[1..], left, n, size);
        }
      }
    }
  }

  lemma LeftFine(input: bytes, c: Cursor, s: bytes, flags: seq<nat>, nibble: Option<nat>)
    requires Left(input, c, s, flags, nibble)
    ensures CursorOk(input, c) && c.at <= |input| && input[c.at..] == s && |flags| == c.bits
    ensures c.bits > 0 ==> c.at > 0
    ensures (nibble.None? <==> c.nibble == 0) && (nibble.Some? ==> nibble.value == input[c.nibble] as nat / 16)
  {
    hide Pow2;
  }

  /** The first flag tells a literal from a match. */
  lemma OneFlag(input: bytes, c: Cursor, s: bytes, flags: seq<nat>, nibble: Option<nat>)
    requires Left(input, c, s, flags, nibble) && s != [] && flags != []
    ensures c.at < |input| && flags[0] < 2
    ensures Fetch(input, c) ==
      if flags[0] == 0 then Got(Literal(input[c.at]), c.(bits := c.bits - 1, at := c.at + 1))
      else FetchMatch(input, c.(bits := c.bits - 1))
  {
    hide Pow2, FetchMatch;
    SameBytes(input, c.at, s);
  }

  lemma {:induction false} FillerBit(indicator: nat, bits: nat, fill: bit, i: nat)
    requires indicator % Pow2(bits) == FlagWord([], bits, fill) && i < bits
    ensures indicator / Pow2(bits - 1 - i) % 2 == fill
    decreases i
  {
    hide Pow2, FlagWord;
    FlagRead([], indicator, bits, fill);
    if i > 0 {
      FillerBit(indicator, bits - 1, fill, i - 1);
    }
  }

  lemma NibbleZero(input: bytes, c: Cursor, fill: bit, junk: bytes)
    requires Reads(input, c, [], fill, junk)
    ensures c.nibble < |input| || c.nibble == 0
    ensures c.nibble != 0 ==> input[c.nibble] as nat / 16 == 0
  {
    hide Pow2, FlagWord, EncodeFrom;
  }

  lemma ReadsFiller(input: bytes, c: Cursor, fill: bit, junk: bytes)
    requires Reads(input, c, [], fill, junk)
    ensures c.indicator % Pow2(c.bits) == FlagWord([], c.bits, fill) && (c.bits > 0 ==> c.at > 0)
  {
    hide Pow2, FlagWord;
  }

  lemma ReadsLeft(input: bytes, c: Cursor, fill: bit, junk: bytes)
    requires Reads(input, c, [], fill, junk)
    ensures Left(input, c, junk, seq(c.bits, _ => fill), if c.nibble != 0 then Some(0) else None)
  {
    hide Pow2, FlagWord, Reads;
    CursorFine(input, c, [], fill, junk);
    EncodedEnd(input, c, fill, junk);
    NibbleZero(input, c, fill, junk);
    ReadsFiller(input, c, fill, junk);
    var flags: seq<nat> := seq(c.bits, _ => fill);
    forall i | 0 <= i < c.bits ensures flags[i] == c.indicator / Pow2(c.bits - 1 - i) % 2 {
      FillerBit(c.indicator, c.bits, fill, i);
    }
  }

  // ---- Exactly when a list comes back ----

  /** The bytes behind a list are refused, read with its unused indicator bits and the half byte it leaves open. */
  predicate RefusedBehind(ts: seq<Token>, fill: bit, junk: bytes, n: nat, size: nat) {
    Refused(junk, seq(Unused(ts), _ => fill), if OpenAtEnd(ts, false) then Some(0) else None, n, size)
  }

  lemma BehindRefused(ts: seq<Token>, fill: bit, junk: bytes, n: nat, size: nat)
    requires GoodTokens(ts) && junk != []
    ensures var input, last := Encode(ts, fill) + junk, Behind(ts, fill, junk);
      CursorOk(input, last) && (Silent(input, last, n, size) <==> RefusedBehind(ts, fill, junk, n, size))
  {
    hide Encode, After, Reads, Behind, OpenAtEnd, Refused, Silent, Left, Unused;
    var input, last := Encode(ts, fill) + junk, Behind(ts, fill, junk);
    BehindReads(ts, fill, junk);
    CursorFine(input, last, [], fill, junk);
    ReadsLeft(input, last, fill, junk);
    SilentIsRefused(input, last, junk, seq(last.bits, _ => fill), if last.nibble != 0 then Some(0) else None, n, size);
  }

  /** The tokens come back although `junk` stands behind them. If the guard refuses a match, what it
      loses would have to be made up by the bytes behind. */
  predicate Restored(ts: seq<Token>, fill: bit, junk: bytes, size: nat)
    requires GoodTokens(ts) && Expandable(0, ts)
  {
    var full := Expand([], ts);
    && |full| <= size
    && if junk == [] then ts == [] || (EndsInLiteral(ts) && Reachable(0, ts))
       else if !Reachable(0, ts) then
         Decode(Encode(ts, fill) + junk, size, Behind(ts, fill, junk), Written([], ts, true)) == full
       else if |full| == size then !EndsInLiteral(ts)
       else RefusedBehind(ts, fill, junk, |full|, size)
  }

  /** For every token list, either filler, any bytes behind it and any room. */
  lemma RestoredExactly(ts: seq<Token>, fill: bit, junk: bytes, size: nat)
    requires GoodTokens(ts) && Expandable(0, ts)
    ensures Decode(Encode(ts, fill) + junk, size, BEGIN, []) == Expand([], ts) <==> Restored(ts, fill, junk, size)
  {
    hide Decode, Expand, Encode, Reads, Written, After, Silent, Reachable, EndsInLiteral, RefusedBehind;
    var input, full := Encode(ts, fill) + junk, Expand([], ts);
    DecodeFits(input, size, BEGIN, []);
    if |full| <= size {
      if junk == [] {
        assert input == Encode(ts, fill);
        RoundTrip(ts, fill, size);
      } else {
        BeginReads(ts, fill, junk);
        AfterReads(input, BEGIN, ts, fill, junk);
        CursorFine(input, Behind(ts, fill, junk), [], fill, junk);
        WrittenShort([], [], ts, true);
        if !Reachable(0, ts) {
          DecodesToWritten(input, size, BEGIN, [], ts, fill, junk);
        } else {
          WrittenInFull([], ts, true);
          if |full| == size && EndsInLiteral(ts) {
            LastTakenBack(input, size, BEGIN, [], ts, fill, junk);
          } else {
            DecodesToWritten(input, size, BEGIN, [], ts, fill, junk);
            DecodeFits(input, size, Behind(ts, fill, junk), full);
            if |full| < size {
              SilentExactly(input, size, Behind(ts, fill, junk), full);
              BehindRefused(ts, fill, junk, |full|, size);
            }
          }
        }
      }
    }
  }

  // ---- Up to seven bytes, in closed form ----

  /** Three or four bytes read with indicator bits of 1: no token, or one match that the guard refuses. */
  predicate RefusedOrCut(junk: bytes, open: bool, n: nat)
    requires |junk| >= 3
  {
    (Long(junk) && !open && (|junk| == 3 || junk[2] % 16 == 15)) || Distance(junk) >= n
  }

  /** Five to seven bytes read as an indicator word and what follows. Its first bit must be 1, and the
      second where a match is followed by one more byte. */
  predicate WordRefused(junk: bytes, open: bool, n: nat)
    requires |junk| > 4
  {
    && junk[3] >= 128
    && (|junk| <= 6 || (Long(junk[4..]) && !open) || (Distance(junk[4..]) >= n && junk[3] % 128 >= 64))
  }

  /** The bytes behind change nothing. */
  predicate Harmless(ts: seq<Token>, fill: bit, junk: bytes, n: nat) {
    var open := OpenAtEnd(ts, false);
    if |ts| % 32 != 0 then fill == 1 && (|junk| <= 2 || RefusedOrCut(junk, open, n))
    else |junk| <= 4 || WordRefused(junk, open, n)
  }

  lemma HighBits(low: nat, b: nat)
    requires low < 0x100_0000 && b < 256
    ensures (low + 0x100_0000 * b) / 0x8000_0000 % 2 == b / 128
    ensures (low + 0x100_0000 * b) / 0x4000_0000 % 2 == b / 64 % 2
  {}

  lemma HighPowers()
    ensures Pow2(30) == 0x4000_0000 && Pow2(31) == 0x8000_0000
  {
    assert Pow2(10) == 1024;
    assert Pow2(20) == 1024 * 1024;
  }

  /** The two highest bits of an indicator word. */
  lemma TopBits(input: bytes, at: nat)
    requires at + 3 < |input|
    ensures Word32(input, at) / Pow2(31) % 2 == input[at + 3] / 128
    ensures Word32(input, at) / Pow2(30) % 2 == input[at + 3] / 64 % 2
  {
    hide Pow2;
    HighPowers();
    HighBits(input[at] as nat + 256 * input[at + 1] as nat + 65536 * input[at + 2] as nat, input[at + 3]);
  }

  /** Too little is left for a token. */
  lemma RestRefused(s: bytes, flags: seq<nat>, nibble: Option<nat>, n: nat, size: nat)
    requires 1 <= |s| <= 2 && flags != [] && n + 1 < size
    ensures Refused(s, flags, nibble, n, size) <==> flags[0] != 0
  {}

  lemma LiteralKept(s: bytes, flags: seq<nat>, nibble: Option<nat>, n: nat, size: nat)
    requires s != [] && flags != [] && flags[0] == 0 && n + 1 < size
    ensures !Refused(s, flags, nibble, n, size)
  {}

  /** Three or four bytes behind a flag of 1. */
  lemma FewRefused(s: bytes, flags: seq<nat>, nibble: Option<nat>, n: nat, size: nat)
    requires 3 <= |s| <= 4 && flags != [] && flags[0] == 1
    requires nibble.None? || nibble == Some(0)
    requires (flags[1..] == [] || flags[1] == 1) && n + 1 < size
    ensures Refused(s, flags, nibble, n, size) <==> RefusedOrCut(s, nibble.Some?, n)
  {
    hide Long, Distance;
    match MatchSize(s, nibble)
    case None =>
    case Some((k, left)) =>
      if flags[1..] != [] {
        RestRefused(s[k..], flags[1..], left, n, size);
      }
  }

  /** Three bytes behind a flag of 1 and one that decides. */
  lemma ThreeRefused(s: bytes, flags: seq<nat>, nibble: Option<nat>, n: nat, size: nat)
    requires |s| == 3 && |flags| > 1 && flags[0] == 1 && (nibble.None? || nibble == Some(0)) && n + 1 < size
    ensures Refused(s, flags, nibble, n, size) <==> (Long(s) && nibble.None?) || (Distance(s) >= n && flags[1] != 0)
  {
    hide Long, Distance;
    match MatchSize(s, nibble)
    case None =>
    case Some((k, left)) => RestRefused(s[k..], flags[1..], left, n, size);
  }

  lemma WordFlagsAt(junk: bytes)
    requires |junk| > 4
    ensures var flags := WordFlags(Word32(junk, 0));
      |flags| == 32 && flags[0] == junk[3] / 128 && flags[1] == junk[3] / 64 % 2
  {
    hide Pow2, Word32;
    TopBits(junk, 0);
  }

  /** Up to seven bytes in closed form (up to four where they are read with bits of 1 that were left). */
  lemma HarmlessExactly(ts: seq<Token>, fill: bit, junk: bytes, size: nat)
    requires GoodTokens(ts) && Expandable(0, ts) && Reachable(0, ts) && |Expand([], ts)| + 1 < size
    requires 1 <= |junk| <= if |ts| % 32 != 0 && fill == 1 then 4 else 7
    ensures Decode(Encode(ts, fill) + junk, size, BEGIN, []) == Expand([], ts)
       <==> Harmless(ts, fill, junk, |Expand([], ts)|)
  {
    hide Decode, Encode, Expand, Reachable, OpenAtEnd, RefusedOrCut, Long, Distance, Word32, WordFlags;
    RestoredExactly(ts, fill, junk, size);
    var n, nibble: Option<nat> := |Expand([], ts)|, if OpenAtEnd(ts, false) then Some(0) else None;
    var flags: seq<nat> := seq(Unused(ts), _ => fill);
    if |ts| % 32 != 0 {
      if fill == 1 && |junk| > 2 {
        FewRefused(junk, flags, nibble, n, size);
      } else if fill == 1 {
        RestRefused(junk, flags, nibble, n, size);
      }
    } else if |junk| > 4 {
      assert flags == [];
      WordFlagsAt(junk);
      var word := WordFlags(Word32(junk, 0));
      if |junk| <= 6 {
        RestRefused(junk[4..], word, nibble, n, size);
      } else if word[0] == 1 {
        ThreeRefused(junk[4..], word, nibble, n, size);
      } else {
        LiteralKept(junk[4..], word, nibble, n, size);
      }
    }
  }

  // ---- What bytes behind can add ----

  /** With bytes behind it and room, everything the guard lets through comes back, the last token included. */
  lemma ComesBackFirst(ts: seq<Token>, fill: bit, junk: bytes, size: nat)
    requires GoodTokens(ts) && Expandable(0, ts) && Reachable(0, ts) && |Expand([], ts)| < size && junk != []
    ensures Expand([], ts) <= Decode(Encode(ts, fill) + junk, size, BEGIN, [])
  {
    hide Decode, Encode, Expand, After, Reads, Reachable;
    var input, last := Encode(ts, fill) + junk, Behind(ts, fill, junk);
    BeginReads(ts, fill, junk);
    WrittenInFull([], ts, true);
    DecodesToWritten(input, size, BEGIN, [], ts, fill, junk);
    DecodeFits(input, size, last, Expand([], ts));
  }

  /** With the filler 0, bytes behind are output as they are while unused indicator bits last. */
  lemma JunkIsAppended(ts: seq<Token>, junk: bytes, size: nat)
    requires GoodTokens(ts) && junk != [] && |junk| <= Unused(ts)
    requires |Written([], ts, true)| + |junk| <= size
    ensures Decode(Encode(ts, 0) + junk, size, BEGIN, []) == Written([], ts, true) + junk
  {
    hide Decode, Encode, After, Reads, Written;
    var input := Encode(ts, 0) + junk;
    BeginReads(ts, 0, junk);
    BehindReads(ts, 0, junk);
    DecodesToWritten(input, size, BEGIN, [], ts, 0, junk);
    BytesAdded(input, size, Behind(ts, 0, junk), Written([], ts, true), junk);
  }

  /** Up to two bytes add no more than themselves. */
  lemma {:induction false} FewAddFew(input: bytes, size: nat, c: Cursor, out: bytes, fill: bit, junk: bytes)
    requires Reads(input, c, [], fill, junk) && |junk| <= 2 && |out| < size
    ensures |Decode(input, size, c, out)| <= |out| + |junk|
    decreases |junk|
  {
    hide Reads, Fetch, Pow2, Silent;
    CursorFine(input, c, [], fill, junk);
    EncodedEnd(input, c, fill, junk);
    if junk != [] {
      SilentExactly(input, size, c, out);
      if c.bits > 0 && fill == 0 {
        LiteralRead(input, c, junk);
        if |junk| > 1 && |out| + 1 < size {
          FewAddFew(input, size, Fetch(input, c).next, out + [junk[0]], fill, junk[1..]);
        }
      } else {
        if c.bits > 0 {
          FillerRead(input, c, fill, junk);
        }
        TooFew(input, c, |out|, size);
      }
    }
  }

  /** So they never make up for a match that the guard refused ... */
  lemma NotMadeUp(ts: seq<Token>, fill: bit, junk: bytes, size: nat)
    requires GoodTokens(ts) && Expandable(0, ts) && !Reachable(0, ts) && |junk| <= 2
    ensures Decode(Encode(ts, fill) + junk, size, BEGIN, []) != Expand([], ts)
  {
    hide Decode, Encode, Expand, After, Reads, Written;
    RestoredExactly(ts, fill, junk, size);
    if junk != [] && |Expand([], ts)| <= size {
      BehindReads(ts, fill, junk);
      WrittenShort([], [], ts, true);
      FewAddFew(Encode(ts, fill) + junk, size, Behind(ts, fill, junk), Written([], ts, true), fill, junk);
    }
  }

  /** ... but three can. */
  lemma MadeUp(b: byte, size: nat)
    requires size >= 4
    ensures var ts := [Literal(b), Match(1, 3)];
      GoodTokens(ts) && Expandable(0, ts) && !Reachable(0, ts)
      && Decode(Encode(ts, 0) + [b, b, b], size, BEGIN, []) == Expand([], ts)
  {
    var ts := [Literal(b), Match(1, 3)];
    LiteralThenMatch(b);
    hide Decode, Encode, Written, Expand, Reachable, Expandable;
    JunkIsAppended(ts, [b, b, b], size);
  }

  lemma LiteralThenMatch(b: byte)
    ensures var ts := [Literal(b), Match(1, 3)];
      && GoodTokens(ts) && Expandable(0, ts) && !Reachable(0, ts)
      && Written([], ts, true) == [b] && Expand([], ts) == [b, b, b, b]
  {
    var ts := [Literal(b), Match(1, 3)];
    assert ts[1..] == [Match(1, 3)] && [] + [b] == [b];
    OneMatch(b);
    hide CopyBack, Guarded;
    assert Written([], ts, true) == Written([b], ts[1..], true);
    assert Expand([], ts) == Expand([b], ts[1..]);
  }

  lemma OneMatch(b: byte)
    ensures var rest := [Match(1, 3)];
      && GoodTokens(rest) && Expandable(1, rest) && !Reachable(1, rest)
      && Written([b], rest, true) == [b] && Expand([b], rest) == [b, b, b, b]
  {
    var rest := [Match(1, 3)];
    assert rest[1..] == [];
    CopyThree(b);
    hide CopyBack;
    assert Written([b], rest, true) == Written([b], [], true);
    assert Expand([b], rest) == Expand(CopyBack([b], 1, 3), []);
  }

  lemma CopyThree(b: byte)
    ensures CopyBack([b], 1, 3) == [b, b, b, b]
  {
    assert [b] + [b] == [b, b] && [b, b] + [b] == [b, b, b] && [b, b, b] + [b] == [b, b, b, b];
    assert CopyBack([b, b, b], 1, 1) == CopyBack([b, b, b, b], 1, 0);
    assert CopyBack([b], 1, 3) == CopyBack([b, b], 1, 2) == CopyBack([b, b, b], 1, 1);
  }
}

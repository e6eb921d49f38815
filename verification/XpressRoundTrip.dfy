/** What the decoder makes of an encoded token list. */
module XpressRoundTrip {
  import opened Bytes
  import opened Arithmetic
  import opened XpressFormat
  import opened XpressDecoder

  // ---- Arithmetic of words and flags ----

  lemma TopBit(i: nat, p: nat, f: nat, w: nat)
    requires p > 0 && f < 2 && w < p && i % (2 * p) == f * p + w
    ensures i / p % 2 == f && i % p == w
  {
    var q := Quotient(i, 2 * p, f * p + w);
    Regroup(i, p, q, f, w);
    Euclid(i, p, 2 * q + f, w);
    Parity(q, f);
  }

  lemma Quotient(i: nat, d: nat, r: nat) returns (q: nat)
    requires d > 0 && i % d == r
    ensures i == d * q + r
  {
    q := i / d;
  }

  lemma Parity(q: nat, f: nat)
    requires f < 2
    ensures (2 * q + f) % 2 == f
  {}

  lemma Regroup(i: nat, p: nat, q: nat, f: nat, w: nat)
    requires i == 2 * p * q + (f * p + w)
    ensures i == p * (2 * q + f) + w
  {}

  lemma {:induction false} FlagWordBound(ts: seq<Token>, k: nat, fill: bit)
    ensures FlagWord(ts, k, fill) < Pow2(k)
  {
    if k > 0 {
      FlagWordBound(Rest(ts), k - 1, fill);
    }
  }

  lemma Pow2At32()
    ensures Pow2(32) == TWO_TO_32
  {
    assert Pow2(8) == 256;
    assert Pow2(16) == 65536;
    assert Pow2(24) == 16777216;
  }

  lemma Le32Inverse(v: nat, input: bytes, at: nat)
    requires v < TWO_TO_32 && at + 4 <= |input| && input[at..at + 4] == Le32(v)
    ensures Word32(input, at) == v
  {
    var s := input[at..at + 4];
    assert s[0] == input[at] && s[1] == input[at + 1] && s[2] == input[at + 2] && s[3] == input[at + 3];
  }

  lemma Le16Inverse(v: nat, input: bytes, at: nat)
    requires v < 65536 && at + 2 <= |input| && input[at..at + 2] == Le16(v)
    ensures Word16(input, at) == v
  {
    var s := input[at..at + 2];
    assert s[0] == input[at] && s[1] == input[at + 1];
  }

  /** What lies at `at` when the input goes on with `a + b` there. */
  lemma At(input: bytes, at: nat, a: bytes, b: bytes)
    requires at <= |input| && input[at..] == a + b
    ensures at + |a| + |b| == |input|
    ensures input[at..at + |a|] == a && input[at + |a|..] == b
    ensures forall i :: 0 <= i < |a| ==> input[at + i] == a[i]
  {
    assert input[at..][..|a|] == input[at..at + |a|];
    assert input[at..][|a|..] == input[at + |a|..];
    forall i | 0 <= i < |a| ensures input[at + i] == a[i] {
      assert input[at..][i] == (a + b)[i];
    }
  }

  // ---- The cursor stands at the encoding of `ts`, with `junk` behind it ----

  ghost predicate Reads(input: bytes, c: Cursor, ts: seq<Token>, fill: bit, junk: bytes) {
    && GoodTokens(ts) && CursorOk(input, c) && c.at <= |input|
    && input[c.at..] == EncodeFrom(ts, c.bits, c.nibble != 0, fill) + junk
    && c.indicator % Pow2(c.bits) == FlagWord(ts, c.bits, fill)
    && (c.bits > 0 ==> c.at > 0)
    && (c.nibble != 0 ==> input[c.nibble] as nat / 16 == NextNibble(ts))
  }

  /** The encoding behind the first token. */
  function Tail(ts: seq<Token>, bits: nat, open: bool, fill: bit): bytes
    requires ts != [] && GoodTokens(ts) && bits > 0
  {
    EncodeFrom(ts[1..], bits - 1, OpenAfter(ts[0], open), fill)
  }

  lemma TokenBytesNonEmpty(ts: seq<Token>, open: bool)
    requires ts != [] && GoodTokens(ts)
    ensures |TokenBytes(ts, open)| > 0
    ensures ts[0].Match? ==> |TokenBytes(ts, open)| >= 2
  {}

  lemma TailEmpty(ts: seq<Token>, bits: nat, open: bool, fill: bit)
    requires ts != [] && GoodTokens(ts) && bits > 0
    ensures Tail(ts, bits, open, fill) == [] <==> |ts| == 1
  {
    if |ts| > 1 {
      TokenBytesNonEmpty(ts[1..], OpenAfter(ts[0], open));
    }
  }

  lemma EncodeUnfold(ts: seq<Token>, bits: nat, open: bool, fill: bit, junk: bytes)
    requires ts != [] && GoodTokens(ts)
    ensures EncodeFrom(ts, bits, open, fill) + junk ==
      if bits == 0 then Le32(FlagWord(ts, 32, fill)) + (TokenBytes(ts, open) + (Tail(ts, 32, open, fill) + junk))
      else TokenBytes(ts, open) + (Tail(ts, bits, open, fill) + junk)
  {
    hide TokenBytes, FlagWord, Le32, GoodTokens, IsLong;
    if bits > 0 {
      var t := TokenBytes(ts, open) + Tail(ts, bits, open, fill);
      assert [] + t == t;
    }
  }

  lemma Refilled(input: bytes, c: Cursor, ts: seq<Token>, fill: bit, junk: bytes)
    requires Reads(input, c, ts, fill, junk) && ts != []
    ensures c.at < |input|
    ensures var r := Refill(input, c);
      && r.at < |input| && 0 < r.at && 0 < r.bits <= 32 && r.nibble == c.nibble
      && input[r.at..] == TokenBytes(ts, c.nibble != 0) + (Tail(ts, r.bits, c.nibble != 0, fill) + junk)
      && r.indicator % Pow2(r.bits) == FlagWord(ts, r.bits, fill)
      && (r.bits == if c.bits == 0 then 32 else c.bits)
  {
    hide TokenBytes, EncodeFrom, Pow2, FlagWord, Word32, Le32, Tail, GoodTokens, NextNibble;
    var open := c.nibble != 0;
    TokenBytesNonEmpty(ts, open);
    EncodeUnfold(ts, c.bits, open, fill, junk);
    if c.bits == 0 {
      var word := FlagWord(ts, 32, fill);
      FlagWordBound(ts, 32, fill);
      Pow2At32();
      Le32Length(word);
      At(input, c.at, Le32(word), TokenBytes(ts, open) + (Tail(ts, 32, open, fill) + junk));
      Le32Inverse(word, input, c.at);
    }
  }

  lemma Le32Length(v: nat)
    ensures |Le32(v)| == 4
  {}

  /** The indicator bit tells the kind of the first token and leaves the word of the rest. */
  lemma FlagRead(ts: seq<Token>, indicator: nat, bits: nat, fill: bit)
    requires bits > 0 && indicator % Pow2(bits) == FlagWord(ts, bits, fill)
    ensures indicator / Pow2(bits - 1) % 2 == Flag(ts, fill)
    ensures indicator % Pow2(bits - 1) == FlagWord(Rest(ts), bits - 1, fill)
  {
    FlagWordBound(Rest(ts), bits - 1, fill);
    TopBit(indicator, Pow2(bits - 1), Flag(ts, fill), FlagWord(Rest(ts), bits - 1, fill));
  }

  // ---- Fetching an encoded match ----

  lemma EscapeFetched(input: bytes, c: Cursor, d: nat, l: nat, tail: bytes)
    requires 25 <= l <= 65538 && c.at < |input| && input[c.at..] == Escapes(l) + tail
    ensures FetchEscape(input, d, c) ==
      if tail == [] then Stop else Got(Match(d, l), c.(at := |input| - |tail|))
  {
    At(input, c.at, Escapes(l), tail);
    if l - 25 >= 255 {
      assert Escapes(l)[1..] == Le16(l - 3);
      assert input[c.at + 1..c.at + 3] == Le16(l - 3);
      Le16Inverse(l - 3, input, c.at + 1);
    }
  }

  /** The part of a long match behind its match word. */
  function LongPart(t: Token, rest: seq<Token>, open: bool): bytes
    requires IsLong(t)
  {
    (if open then [] else [NibbleOf(t) + 16 * NextNibble(rest)]) + Escapes(t.length)
  }

  lemma LongFetched(input: bytes, c: Cursor, t: Token, rest: seq<Token>, tail: bytes)
    requires IsLong(t) && GoodToken(t) && 0 < c.at <= |input| && c.nibble < |input|
    requires input[c.at..] == LongPart(t, rest, c.nibble != 0) + tail
    requires c.nibble != 0 ==> input[c.nibble] as nat / 16 == NibbleOf(t)
    requires c.at < |input|
    ensures var r := FetchLong(input, t.distance, c);
      if tail == [] then r == Stop
      else
        && r.Got? && r.token == t && r.next.at == |input| - |tail|
        && r.next.bits == c.bits && r.next.indicator == c.indicator
        && (r.next.nibble != 0 <==> c.nibble == 0)
        && (r.next.nibble != 0 ==> r.next.nibble < |input| && input[r.next.nibble] as nat / 16 == NextNibble(rest))
  {
    hide Escapes, FetchEscape, NextNibble;
    var open := c.nibble != 0;
    var first: bytes := if open then [] else [NibbleOf(t) + 16 * NextNibble(rest)];
    assert input[c.at..] == first + (Escapes(t.length) + tail);
    At(input, c.at, first, Escapes(t.length) + tail);
    if !open {
      assert input[c.at + 0] == first[0];
      Euclid(first[0], 16, NextNibble(rest), NibbleOf(t));
    }
    var next := if c.nibble == 0 then c.(at := c.at + 1, nibble := c.at) else c.(nibble := 0);
    EscapesLength(t.length);
    if t.length >= 25 {
      EscapeFetched(input, next, t.distance, t.length, tail);
    } else {
      assert [] + tail == tail;
    }
  }

  lemma EscapesLength(length: nat)
    ensures Escapes(length) == [] <==> length < 25
  {}

  /** Reading the match word leaves the long part, if any. */
  lemma HeaderFetched(input: bytes, c: Cursor, t: Token, behind: bytes)
    requires t.Match? && GoodToken(t) && c.at <= |input| && c.nibble < |input|
    requires input[c.at..] == Le16(MatchWord(t)) + behind
    ensures c.at < |input| && c.at + 2 + |behind| == |input| && input[c.at + 2..] == behind
    ensures FetchMatch(input, c) ==
      if behind == [] then Stop
      else if IsLong(t) then FetchLong(input, t.distance, c.(at := c.at + 2))
      else Got(t, c.(at := c.at + 2))
  {
    hide FetchLong;
    var word := MatchWord(t);
    At(input, c.at, Le16(word), behind);
    Le16Inverse(word, input, c.at);
    Euclid(word, 8, t.distance - 1, if IsLong(t) then 7 else t.length - 3);
  }

  lemma MatchFetched(input: bytes, c: Cursor, ts: seq<Token>, tail: bytes)
    requires ts != [] && GoodTokens(ts) && ts[0].Match? && 0 < c.at <= |input| && c.nibble < |input|
    requires input[c.at..] == TokenBytes(ts, c.nibble != 0) + tail
    requires c.nibble != 0 ==> input[c.nibble] as nat / 16 == NextNibble(ts)
    ensures c.at < |input|
    ensures var r := FetchMatch(input, c);
      if tail == [] then r == Stop
      else
        && r.Got? && r.token == ts[0] && r.next.at == |input| - |tail|
        && r.next.bits == c.bits && r.next.indicator == c.indicator
        && (r.next.nibble != 0 <==> OpenAfter(ts[0], c.nibble != 0))
        && (r.next.nibble != 0 ==> r.next.nibble < |input| && input[r.next.nibble] as nat / 16 == NextNibble(ts[1..]))
  {
    hide TokenBytes, LongPart, Escapes, FetchLong, FetchMatch, Le16, MatchWord;
    var t, open := ts[0], c.nibble != 0;
    MatchBytes(ts, open, tail);
    if IsLong(t) {
      var part := LongPart(t, ts[1..], open);
      HeaderFetched(input, c, t, part + tail);
      LongPartNonEmpty(t, ts[1..], open);
      if part + tail != [] {
        LongFetched(input, c.(at := c.at + 2), t, ts[1..], tail);
      }
    } else {
      HeaderFetched(input, c, t, tail);
    }
  }

  lemma MatchBytes(ts: seq<Token>, open: bool, tail: bytes)
    requires ts != [] && GoodTokens(ts) && ts[0].Match?
    ensures TokenBytes(ts, open) + tail ==
      Le16(MatchWord(ts[0])) + if IsLong(ts[0]) then LongPart(ts[0], ts[1..], open) + tail else tail
  {
    hide Le16, MatchWord, Escapes;
    var word := Le16(MatchWord(ts[0]));
    if IsLong(ts[0]) {
      assert TokenBytes(ts, open) == word + LongPart(ts[0], ts[1..], open);
      assert word + LongPart(ts[0], ts[1..], open) + tail == word + (LongPart(ts[0], ts[1..], open) + tail);
    } else {
      assert TokenBytes(ts, open) == word;
    }
  }

  lemma LongPartNonEmpty(t: Token, rest: seq<Token>, open: bool)
    requires IsLong(t)
    ensures LongPart(t, rest, open) == [] ==> open && t.length < 25
  {}

  /** One fetch at the encoding of `ts`: the first token, except that a match at
      the very end of the input is not seen. */
  lemma EncodedFetched(input: bytes, c: Cursor, ts: seq<Token>, fill: bit, junk: bytes)
    requires Reads(input, c, ts, fill, junk) && ts != []
    ensures c.at < |input|
    ensures var r := Fetch(input, c);
      if |ts| == 1 && ts[0].Match? && junk == [] then r == Stop
      else
        && r.Got? && r.token == ts[0] && Reads(input, r.next, ts[1..], fill, junk)
        && (r.next.at == |input| <==> |ts| == 1 && junk == [])
        && r.next.bits == (if c.bits == 0 then 32 else c.bits) - 1
        && (r.next.nibble != 0 <==> OpenAfter(ts[0], c.nibble != 0))
  {
    hide TokenBytes, FetchMatch, Refill, Pow2, FlagWord, EncodeFrom;
    Refilled(input, c, ts, fill, junk);
    var f := Refill(input, c);
    var open := c.nibble != 0;
    var tail := Tail(ts, f.bits, open, fill) + junk;
    FlagRead(ts, f.indicator, f.bits, fill);
    TailEmpty(ts, f.bits, open, fill);
    var g := f.(bits := f.bits - 1);
    At(input, f.at, TokenBytes(ts, open), tail);
    match ts[0] {
      case Literal(b) =>
        assert TokenBytes(ts, open) == [b] by { LiteralBytes(ts, open); }
      case Match(_, _) =>
        MatchFetched(input, g, ts, tail);
    }
  }

  lemma LiteralBytes(ts: seq<Token>, open: bool)
    requires ts != [] && GoodTokens(ts) && ts[0].Literal?
    ensures TokenBytes(ts, open) == [ts[0].b]
  {}

  // ---- Whole token lists ----

  /** What the guard lets a match write: nothing if its source reaches the first output byte. */
  function Guarded(out: bytes, d: nat, l: nat): (r: bytes)
    requires d >= 1
    ensures |r| == if d >= |out| then |out| else |out| + l
  {
    if d >= |out| then out else CopyBack(out, d, l)
  }

  /** What the decoder writes: what the guard lets through, but nothing for a match
      at the very end, with no `more` behind it. */
  function Written(out: bytes, ts: seq<Token>, more: bool): (r: bytes)
    requires GoodTokens(ts)
    ensures |r| >= |out|
    decreases |ts|
  {
    if ts == [] then out
    else match ts[0]
      case Literal(b) => Written(out + [b], ts[1..], more)
      case Match(d, l) =>
        if |ts| == 1 && !more then out
        else Written(Guarded(out, d, l), ts[1..], more)
  }

  predicate EndsInLiteral(ts: seq<Token>) { ts != [] && ts[|ts| - 1].Literal? }

  /** Every match starts strictly after the first output byte. */
  predicate Reachable(size: nat, ts: seq<Token>)
    decreases |ts|
  {
    ts == []
    || (match ts[0]
        case Literal(_) => Reachable(size + 1, ts[1..])
        case Match(d, l) => d < size && Reachable(size + l, ts[1..]))
  }

  lemma {:induction false} Grows(out: bytes, ts: seq<Token>, more: bool)
    requires GoodTokens(ts) && (EndsInLiteral(ts) || (ts != [] && more && Reachable(|out|, ts)))
    ensures |Written(out, ts, more)| > |out|
    decreases |ts|
  {
    if ts[0].Match? && ts[0].distance >= |out| {
      Grows(out, ts[1..], more);
    }
  }

  lemma {:induction false} ClippedIsCopy(out: bytes, d: nat, l: nat, size: nat)
    requires d >= 1
    requires d < |out| ==> |out| + l <= size
    ensures Clipped(out, d, l, size) == Guarded(out, d, l)
    decreases l
  {
    if l > 0 && d < |out| {
      ClippedIsCopy(out + [out[|out| - d]], d, l - 1, size);
    }
  }

  /** Where the decoder stands after `n` tokens. */
  function After(input: bytes, c: Cursor, n: nat): (r: Cursor)
    requires CursorOk(input, c) || c.at >= |input|
    ensures CursorOk(input, r) || r.at >= |input|
    decreases n
  {
    if n == 0 || c.at >= |input| then c
    else match Fetch(input, c)
      case Stop => c
      case Got(_, next) => After(input, next, n - 1)
  }

  /** The half-used nibble byte behind a token list. */
  function OpenAtEnd(ts: seq<Token>, open: bool): bool {
    if ts == [] then open else OpenAtEnd(ts[1..], OpenAfter(ts[0], open))
  }

  /** Behind an encoding with more bytes after it, the decoder stands at those bytes. */
  lemma {:induction false} AfterReads(input: bytes, c: Cursor, ts: seq<Token>, fill: bit, junk: bytes)
    requires Reads(input, c, ts, fill, junk) && junk != []
    ensures var last := After(input, c, |ts|);
      && Reads(input, last, [], fill, junk)
      && (last.bits + |ts|) % 32 == c.bits % 32 && (c.bits < 32 ==> last.bits < 32)
      && (last.nibble != 0 <==> OpenAtEnd(ts, c.nibble != 0))
    decreases |ts|
  {
    hide Reads, Fetch, OpenAfter;
    CursorFine(input, c, ts, fill, junk);
    if ts != [] {
      EncodedFetched(input, c, ts, fill, junk);
      var next := Fetch(input, c).next;
      AfterReads(input, next, ts[1..], fill, junk);
      BitsLeft(c.bits, next.bits, After(input, c, |ts|).bits, |ts|);
    }
  }

  lemma BitsLeft(bits: nat, next: nat, last: nat, n: nat)
    requires n > 0 && bits <= 32 && next == (if bits == 0 then 32 else bits) - 1
    requires (last + (n - 1)) % 32 == next % 32
    ensures (last + n) % 32 == bits % 32
  {
    var q := Quotient(last + (n - 1), 32, next);
    if next == 31 {
      Euclid(last + n, 32, q + 1, 0);
    } else {
      Euclid(last + n, 32, q, next + 1);
    }
  }

  /** Room for what is written: where it fills the output to the last byte, the last
      token must not be a literal with more behind it, which would be taken back. */
  predicate Fits(out: bytes, ts: seq<Token>, more: bool, size: nat)
    requires GoodTokens(ts)
  {
    || |Written(out, ts, more)| < size
    || (|Written(out, ts, more)| == size
        && (ts == [] || (if more then !EndsInLiteral(ts) && Reachable(|out|, ts) else EndsInLiteral(ts))))
  }

  lemma LiteralFits(out: bytes, ts: seq<Token>, more: bool, size: nat)
    requires GoodTokens(ts) && ts != [] && ts[0].Literal? && Fits(out, ts, more, size)
    ensures |out| < size
    ensures |ts| > 1 || more ==> |out| + 1 < size && Fits(out + [ts[0].b], ts[1..], more, size)
  {
    var next := out + [ts[0].b];
    assert Written(out, ts, more) == Written(next, ts[1..], more);
    if |ts| > 1 && |Written(out, ts, more)| == size {
      Grows(next, ts[1..], more);
    }
    hide Written;
  }

  lemma MatchStep(out: bytes, ts: seq<Token>, more: bool)
    requires GoodTokens(ts) && ts != [] && ts[0].Match? && (|ts| > 1 || more)
    ensures var next, rest := Guarded(out, ts[0].distance, ts[0].length), ts[1..];
      && Written(out, ts, more) == Written(next, rest, more)
      && (Reachable(|out|, ts) ==> Reachable(|next|, rest))
      && (rest != [] ==> EndsInLiteral(rest) == EndsInLiteral(ts))
  {
    var rest := ts[1..];
    assert rest != [] ==> rest[|rest| - 1] == ts[|ts| - 1];
  }

  lemma MatchFits(out: bytes, ts: seq<Token>, more: bool, size: nat)
    requires GoodTokens(ts) && ts != [] && ts[0].Match? && Fits(out, ts, more, size)
    ensures |out| < size
    ensures |ts| > 1 || more ==> Fits(Guarded(out, ts[0].distance, ts[0].length), ts[1..], more, size)
  {
    assert |ts| == 1 ==> !EndsInLiteral(ts);
    hide Written, Reachable, EndsInLiteral, Guarded, GoodToken;
    if |Written(out, ts, more)| == size {
      Grows(out, ts, more);
    }
    if |ts| > 1 || more {
      MatchStep(out, ts, more);
    }
  }

  /** Decoding an encoding, whatever the tokens: exactly what `Written` says,
      provided there is room for it, and then whatever the bytes behind it are read as. */
  lemma {:induction false} DecodesToWritten(input: bytes, size: nat, c: Cursor, out: bytes, ts: seq<Token>,
                                            fill: bit, junk: bytes)
    requires Reads(input, c, ts, fill, junk) && Fits(out, ts, junk != [], size)
    ensures Decode(input, size, c, out) ==
      if junk == [] then Written(out, ts, false)
      else Decode(input, size, After(input, c, |ts|), Written(out, ts, true))
    decreases |ts|
  {
    hide Reads, Fetch, Clipped, CopyBack;
    CursorFine(input, c, ts, fill, junk);
    if ts == [] {
      EncodedEnd(input, c, fill, junk);
    } else {
      EncodedFetched(input, c, ts, fill, junk);
      var r := Fetch(input, c);
      if r.Got? {
        match ts[0] {
          case Literal(b) =>
            LiteralFits(out, ts, junk != [], size);
            if |ts| > 1 || junk != [] {
              DecodesToWritten(input, size, r.next, out + [b], ts[1..], fill, junk);
            }
          case Match(d, l) =>
            var copied := Guarded(out, d, l);
            MatchFits(out, ts, junk != [], size);
            assert |Written(copied, ts[1..], junk != [])| >= |copied|;
            ClippedIsCopy(out, d, l, size);
            DecodesToWritten(input, size, r.next, copied, ts[1..], fill, junk);
        }
      }
    }
  }

  lemma EncodedEnd(input: bytes, c: Cursor, fill: bit, junk: bytes)
    requires Reads(input, c, [], fill, junk)
    ensures c.at + |junk| == |input| && input[c.at..] == junk
  {
    assert [] + junk == junk;
  }

  lemma CursorFine(input: bytes, c: Cursor, ts: seq<Token>, fill: bit, junk: bytes)
    requires Reads(input, c, ts, fill, junk)
    ensures CursorOk(input, c) && c.at <= |input| && GoodTokens(ts)
  {}

  lemma {:induction false} WrittenInFull(out: bytes, ts: seq<Token>, more: bool)
    requires GoodTokens(ts) && Expandable(|out|, ts) && Reachable(|out|, ts)
    requires more || ts == [] || EndsInLiteral(ts)
    ensures Written(out, ts, more) == Expand(out, ts)
    decreases |ts|
  {
    if ts != [] {
      match ts[0]
      case Literal(b) => WrittenInFull(out + [b], ts[1..], more);
      case Match(d, l) => WrittenInFull(CopyBack(out, d, l), ts[1..], more);
    }
  }

  /** What is lost is never made up for: it is at least a match. */
  lemma {:induction false} WrittenShort(out: bytes, full: bytes, ts: seq<Token>, more: bool)
    requires GoodTokens(ts) && Expandable(|full|, ts) && (|out| == |full| || |out| + 3 <= |full|)
    ensures |Written(out, ts, more)| <= |Expand(full, ts)|
    ensures |out| < |full| || (!more && ts != [] && !EndsInLiteral(ts)) || !Reachable(|full|, ts) ==>
              |Written(out, ts, more)| + 3 <= |Expand(full, ts)|
    decreases |ts|
  {
    if ts != [] {
      match ts[0] {
        case Literal(b) =>
          WrittenShort(out + [b], full + [b], ts[1..], more);
        case Match(d, l) =>
          var copied := Guarded(out, d, l);
          WrittenShort(copied, CopyBack(full, d, l), ts[1..], more);
      }
    }
  }

  lemma BeginReads(ts: seq<Token>, fill: bit, junk: bytes)
    requires GoodTokens(ts) && Encode(ts, fill) + junk != []
    ensures Reads(Encode(ts, fill) + junk, BEGIN, ts, fill, junk)
  {}

  /** The decoder undoes the encoder exactly when the list ends in a literal and
      no match reaches back to the first output byte. */
  lemma RoundTrip(ts: seq<Token>, fill: bit, size: nat)
    requires GoodTokens(ts) && Expandable(0, ts) && |Expand([], ts)| <= size
    ensures Decode(Encode(ts, fill), size, BEGIN, []) == Expand([], ts)
            <==> ts == [] || (EndsInLiteral(ts) && Reachable(0, ts))
  {
    hide Decode, Expand, Encode, Reads;
    if ts == [] {
      EmptyRoundTrip(size, fill);
    } else {
      EncodeNonEmpty(ts, fill);
      assert Encode(ts, fill) + [] == Encode(ts, fill);
      BeginReads(ts, fill, []);
      WrittenShort([], [], ts, false);
      if EndsInLiteral(ts) && Reachable(0, ts) {
        WrittenInFull([], ts, false);
      }
      DecodesToWritten(Encode(ts, fill), size, BEGIN, [], ts, fill, []);
    }
  }

  lemma EncodeNonEmpty(ts: seq<Token>, fill: bit)
    requires GoodTokens(ts) && ts != []
    ensures Encode(ts, fill) != []
  {
    TokenBytesNonEmpty(ts, false);
  }

  lemma EmptyRoundTrip(size: nat, fill: bit)
    ensures Decode(Encode([], fill), size, BEGIN, []) == Expand([], [])
  {}

  /** On any input whatever, the decoder stays within the output buffer. */
  lemma {:induction false} DecodeFits(input: bytes, size: nat, c: Cursor, out: bytes)
    requires (CursorOk(input, c) || c.at >= |input|) && |out| <= size
    ensures |out| <= |Decode(input, size, c, out)| <= size
    ensures Decode(input, size, c, out)[..|out|] == out
    decreases |input| - c.at
  {
    hide Fetch;
    if |out| < size && c.at < |input| {
      var r := Fetch(input, c);
      if r.Got? && r.token.Literal? && r.next.at < |input| && |out| + 1 < size {
        DecodeFits(input, size, r.next, out + [r.token.b]);
      } else if r.Got? && r.token.Match? {
        ClippedFits(out, r.token.distance, r.token.length, size);
        DecodeFits(input, size, r.next, Clipped(out, r.token.distance, r.token.length, size));
      }
    }
  }

  lemma {:induction false} ClippedFits(out: bytes, d: nat, l: nat, size: nat)
    requires d >= 1 && |out| <= size
    ensures |Clipped(out, d, l, size)| <= size && Clipped(out, d, l, size)[..|out|] == out
    decreases l
  {
    if !(l == 0 || |out| >= size || d >= |out|) {
      ClippedFits(out + [out[|out| - d]], d, l - 1, size);
    }
  }
}

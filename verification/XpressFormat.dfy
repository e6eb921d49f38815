/**
 The plain LZ77 format read by `src/pyxpress.c` (section 2.4 of [MS-XCA]): its
 tokens, what a token list expands to, and how it is encoded.
 */
module XpressFormat {
  import opened Bytes
  import opened Arithmetic

  /** A literal byte, or a copy of `length` bytes from `distance` bytes back. */
  datatype Token = Literal(b: byte) | Match(distance: nat, length: nat)

  predicate GoodToken(t: Token) {
    t.Match? ==> 1 <= t.distance <= 8192 && 3 <= t.length <= 65538
  }

  predicate GoodTokens(ts: seq<Token>) { forall i :: 0 <= i < |ts| ==> GoodToken(ts[i]) }

  /** Overlapping copy, one byte at a time. */
  function CopyBack(out: bytes, distance: nat, length: nat): (r: bytes)
    requires 1 <= distance <= |out|
    ensures |r| == |out| + length && r[..|out|] == out
    decreases length
  {
    if length == 0 then out else CopyBack(out + [out[|out| - distance]], distance, length - 1)
  }

  /** Every copied byte equals the byte `distance` before it. */
  lemma {:induction false} CopyBackMeaning(out: bytes, distance: nat, length: nat, i: nat)
    requires 1 <= distance <= |out| && |out| <= i < |out| + length
    ensures CopyBack(out, distance, length)[i] == CopyBack(out, distance, length)[i - distance]
    decreases length
  {
    var next := out + [out[|out| - distance]];
    var r := CopyBack(next, distance, length - 1);
    assert r[..|next|] == next;
    if i == |out| {
      assert r[i] == next[i] && r[i - distance] == next[i - distance];
    } else {
      CopyBackMeaning(next, distance, length - 1, i);
    }
  }

  /** LZ77 as documented: every match stays within what is already written. */
  predicate Expandable(size: nat, ts: seq<Token>)
    decreases |ts|
  {
    ts == []
    || (match ts[0]
        case Literal(_) => Expandable(size + 1, ts[1..])
        case Match(d, l) => 1 <= d <= size && Expandable(size + l, ts[1..]))
  }

  /** The bytes a token list stands for, after `out`. */
  function Expand(out: bytes, ts: seq<Token>): bytes
    requires Expandable(|out|, ts)
    decreases |ts|
  {
    if ts == [] then out
    else match ts[0]
      case Literal(b) => Expand(out + [b], ts[1..])
      case Match(d, l) => Expand(CopyBack(out, d, l), ts[1..])
  }

  // ---- Encoding ----

  type bit = n: nat | n < 2

  /** The indicator bit of the first token; `fill` is what the encoder leaves in those of no token. */
  function Flag(ts: seq<Token>, fill: bit): bit { if ts == [] then fill else if ts[0].Match? then 1 else 0 }

  function Rest(ts: seq<Token>): seq<Token> { if ts == [] then [] else ts[1..] }

  /** The indicator bits of the next `k` tokens, first token highest. */
  function FlagWord(ts: seq<Token>, k: nat, fill: bit): nat {
    if k == 0 then 0 else Flag(ts, fill) * Pow2(k - 1) + FlagWord(Rest(ts), k - 1, fill)
  }

  function Le16(v: nat): bytes { [v % 256, v / 256 % 256] }

  function Le32(v: nat): bytes { [v % 256, v / 256 % 256, v / 256 / 256 % 256, v / 256 / 256 / 256 % 256] }

  /** Whether the length needs more than the three bits of the match word. */
  predicate IsLong(t: Token) { t.Match? && t.length >= 10 }

  /** The nibble a long match stores: its length less 10, or 15 as an escape. */
  function NibbleOf(t: Token): nat
    requires IsLong(t)
  {
    if t.length - 10 < 15 then t.length - 10 else 15
  }

  /** The nibble of the first long match, which shares its byte with the one before. */
  function NextNibble(ts: seq<Token>): (r: nat)
    ensures r < 16
    decreases |ts|
  {
    if ts == [] then 0 else if IsLong(ts[0]) then NibbleOf(ts[0]) else NextNibble(ts[1..])
  }

  /** The escapes beyond the nibble: one byte, or 255 and 16 bits. */
  function Escapes(length: nat): bytes {
    if length < 25 then [] else if length - 25 < 255 then [length - 25] else [255] + Le16(length - 3)
  }

  function MatchWord(t: Token): nat
    requires t.Match? && 1 <= t.distance && 3 <= t.length
  {
    (t.distance - 1) * 8 + if t.length < 10 then t.length - 3 else 7
  }

  /** The bytes of the first token; `open` says that half a nibble byte is still free. */
  function TokenBytes(ts: seq<Token>, open: bool): bytes
    requires ts != [] && GoodTokens(ts)
  {
    match ts[0]
    case Literal(b) => [b]
    case Match(_, length) =>
      Le16(MatchWord(ts[0]))
      + if !IsLong(ts[0]) then []
        else (if open then [] else [NibbleOf(ts[0]) + 16 * NextNibble(ts[1..])]) + Escapes(length)
  }

  function OpenAfter(t: Token, open: bool): bool { if IsLong(t) then !open else open }

  /** The encoding from a point where `bits` indicator bits are left. */
  function EncodeFrom(ts: seq<Token>, bits: nat, open: bool, fill: bit): bytes
    requires GoodTokens(ts)
    decreases |ts|
  {
    if ts == [] then []
    else
      var left := if bits == 0 then 32 else bits;
      (if bits == 0 then Le32(FlagWord(ts, 32, fill)) else [])
      + (TokenBytes(ts, open) + EncodeFrom(ts[1..], left - 1, OpenAfter(ts[0], open), fill))
  }

  function Encode(ts: seq<Token>, fill: bit): bytes
    requires GoodTokens(ts)
  {
    EncodeFrom(ts, 0, false, fill)
  }
}

/** What the decoder writes where the output is too small. */
module XpressCut {
  import opened Bytes
  import opened XpressFormat
  import opened XpressDecoder
  import opened XpressRoundTrip

  function Min(a: nat, b: nat): nat { if a < b then a else b }

  /** On any output: a match is copied up to the limit of the output. */
  lemma {:induction false} ClippedIsCut(out: bytes, d: nat, l: nat, size: nat)
    requires 1 <= d < |out| <= size
    ensures Clipped(out, d, l, size) == CopyBack(out, d, l)[..Min(|out| + l, size)]
    decreases l
  {
    if l > 0 && |out| < size {
      ClippedIsCut(out + [out[|out| - d]], d, l - 1, size);
    }
  }

  /** How much of a token list is written into `size` bytes, from `n` on: a literal that would fill the
      output is taken back unless it is the very last byte of the input, and a match fills it. */
  function CutAt(n: nat, ts: seq<Token>, more: bool, size: nat): nat
    decreases |ts|
  {
    if ts == [] || n >= size then n
    else match ts[0]
      case Literal(_) =>
        if |ts| == 1 && !more then n + 1 else if n + 1 >= size then n else CutAt(n + 1, ts[1..], more, size)
      case Match(d, l) =>
        if |ts| == 1 && !more then n
        else if d >= n then CutAt(n, ts[1..], more, size)
        else CutAt(Min(n + l, size), ts[1..], more, size)
  }

  lemma {:induction false} WrittenOnto(out: bytes, ts: seq<Token>, more: bool)
    requires GoodTokens(ts)
    ensures out <= Written(out, ts, more)
    decreases |ts|
  {
    if ts != [] {
      match ts[0]
      case Literal(b) => WrittenOnto(out + [b], ts[1..], more);
      case Match(d, l) => WrittenOnto(Guarded(out, d, l), ts[1..], more);
    }
  }

  predicate IsCut(r: bytes, w: bytes, n: nat) { n <= |w| && r == w[..n] }

  lemma CutOfBeginning(r: bytes, w: bytes, n: nat)
    requires r <= w && n <= |r|
    ensures IsCut(r[..n], w, n) && IsCut(r, w, |r|)
  {}

  /** For every token list, either filler, any bytes behind it and any size that it fills (or any size at all with
      nothing behind it): the output is the beginning of what an output without limit would get. */
  lemma {:induction false} DecodesToCut(input: bytes, size: nat, c: Cursor, out: bytes, ts: seq<Token>, fill: bit,
                                        junk: bytes)
    requires Reads(input, c, ts, fill, junk) && |out| <= size
    requires junk == [] || |Written(out, ts, junk != [])| >= size
    ensures IsCut(Decode(input, size, c, out), Written(out, ts, junk != []), CutAt(|out|, ts, junk != [], size))
    decreases |ts|
  {
    hide Reads, Fetch, Clipped, CopyBack, Written, Guarded, Decode, IsCut;
    CursorFine(input, c, ts, fill, junk);
    WrittenOnto(out, ts, junk != []);
    CutOfBeginning(out, Written(out, ts, junk != []), |out|);
    DecodeOnce(input, size, c, out);
    if ts == [] {
      EncodedEnd(input, c, fill, junk);
      WrittenNone(out, junk != []);
    } else if |out| < size {
      EncodedFetched(input, c, ts, fill, junk);
      WrittenUnfold(out, ts, junk != []);
      WholeCut(Written(out, ts, junk != []));
      if |ts| > 1 || junk != [] {
        var next := Fetch(input, c).next;
        CursorFine(input, next, ts[1..], fill, junk);
        match ts[0]
        case Literal(b) =>
          if |out| + 1 < size {
            DecodesToCut(input, size, next, out + [b], ts[1..], fill, junk);
          }
        case Match(d, l) =>
          var copied := Guarded(out, d, l);
          WrittenOnto(copied, ts[1..], junk != []);
          GuardedClipped(out, d, l, size);
          if |copied| <= size {
            DecodesToCut(input, size, next, copied, ts[1..], fill, junk);
          } else {
            CutOfBeginning(copied, Written(out, ts, junk != []), size);
            DecodeOnce(input, size, next, copied[..size]);
          }
      }
    }
  }

  lemma DecodeOnce(input: bytes, size: nat, c: Cursor, out: bytes)
    requires CursorOk(input, c) || c.at >= |input|
    ensures |out| >= size || c.at >= |input| ==> Decode(input, size, c, out) == out
    ensures |out| < size && c.at < |input| ==>
      var r := Fetch(input, c);
      && (r.Stop? ==> Decode(input, size, c, out) == out)
      && (r.Got? && r.token.Match? ==>
            Decode(input, size, c, out)
            == Decode(input, size, r.next, Clipped(out, r.token.distance, r.token.length, size)))
      && (r.Got? && r.token.Literal? ==>
            Decode(input, size, c, out) ==
            if r.next.at >= |input| then out + [r.token.b]
            else if |out| + 1 >= size then out
            else Decode(input, size, r.next, out + [r.token.b]))
  {
    hide Fetch, Clipped;
  }

  lemma WholeCut(w: bytes)
    ensures IsCut(w, w, |w|)
  {}

  lemma WrittenNone(out: bytes, more: bool)
    ensures Written(out, [], more) == out
  {}

  lemma WrittenUnfold(out: bytes, ts: seq<Token>, more: bool)
    requires GoodTokens(ts) && ts != []
    ensures ts[0].Literal? ==> Written(out, ts, more) == Written(out + [ts[0].b], ts[1..], more)
    ensures ts[0].Match? ==>
      Written(out, ts, more) == if |ts| == 1 && !more then out
                                else Written(Guarded(out, ts[0].distance, ts[0].length), ts[1..], more)
    ensures |ts| == 1 && ts[0].Literal? ==> Written(out, ts, more) == out + [ts[0].b]
  {}

  lemma GuardedClipped(out: bytes, d: nat, l: nat, size: nat)
    requires d >= 1 && |out| < size
    ensures var copied := Guarded(out, d, l);
      Clipped(out, d, l, size) == if |copied| <= size then copied else copied[..size]
  {
    if d < |out| {
      ClippedIsCut(out, d, l, size);
    }
  }

  /** All of the output is used, except that the last byte is given up if a literal would take it. */
  lemma {:induction false} CutRange(out: bytes, ts: seq<Token>, more: bool, size: nat)
    requires GoodTokens(ts) && Expandable(|out|, ts) && Reachable(|out|, ts) && (more || EndsInLiteral(ts) || ts == [])
    requires |out| <= size <= |Expand(out, ts)|
    ensures CutAt(|out|, ts, more, size) <= size <= CutAt(|out|, ts, more, size) + 1
    decreases |ts|
  {
    if ts != [] && |out| < size {
      match ts[0]
      case Literal(b) =>
        if |out| + 1 < size {
          CutRange(out + [b], ts[1..], more, size);
        }
      case Match(d, l) =>
        if |out| + l <= size {
          CutRange(CopyBack(out, d, l), ts[1..], more, size);
        }
    }
  }

  /** A list that expands to more than the output holds, encoded with either filler and with any bytes behind it: the
      output is the beginning of the expansion, to the last byte or the one before. (Nothing is promised of a final
      match with nothing behind it, which is not read.) */
  lemma CutShort(ts: seq<Token>, fill: bit, junk: bytes, size: nat)
    requires GoodTokens(ts) && Expandable(0, ts) && Reachable(0, ts) && size < |Expand([], ts)|
    requires junk != [] || EndsInLiteral(ts)
    ensures var r := Decode(Encode(ts, fill) + junk, size, BEGIN, []);
      r <= Expand([], ts) && |r| == CutAt(0, ts, junk != [], size) && size - 1 <= |r| <= size
  {
    hide Decode, Expand, Encode, Reads, Written, Reachable, CutAt, EndsInLiteral;
    WrittenInFull([], ts, junk != []);
    CutRange([], ts, junk != [], size);
    if ts == [] {
      ExpandNone();
    } else {
      EncodeNonEmpty(ts, fill);
      BeginReads(ts, fill, junk);
      DecodesToCut(Encode(ts, fill) + junk, size, BEGIN, [], ts, fill, junk);
    }
  }

  lemma ExpandNone()
    ensures Expand([], []) == []
  {}
}

/**
 The search for compressed blocks in a hibernation file, `src/scan_hiberfile.cpp`,
 with the byte-string search it rests on, `findbin` of `src/be20_api/sbuf.cpp`.
 */
module Hiberfile {
  import opened Bytes
  import opened XpressFormat
  import opened XpressDecoder
  import opened XpressRoundTrip
  import opened XpressTrailing

  // ---- findbin ----

  predicate Occurs(buf: bytes, what: bytes, at: nat) { at + |what| <= |buf| && buf[at..at + |what|] == what }

  /** The first place from `start` on that holds `b`, as `memchr` finds it. */
  function FirstOf(buf: bytes, b: byte, start: nat): (r: Option<nat>)
    ensures r.Some? ==> start <= r.value < |buf| && buf[r.value] == b
    ensures forall p :: start <= p < (if r.Some? then r.value else |buf|) ==> buf[p] != b
    decreases |buf| - start
  {
    if start >= |buf| then None else if buf[start] == b then Some(start) else FirstOf(buf, b, start + 1)
  }

  /** What `findbin` finds. Behind a place that fails, the next one is passed over. */
  function FindFrom(buf: bytes, pagesize: nat, what: bytes, start: nat): (r: Option<nat>)
    requires what != []
    ensures r.Some? ==> start <= r.value && Occurs(buf, what, r.value)
    decreases |buf| - start
  {
    if start >= pagesize then None
    else match FirstOf(buf, what[0], start)
      case None => None
      case Some(at) => if Occurs(buf, what, at) then Some(at) else FindFrom(buf, pagesize, what, at + 2)
  }

  /** `findbin`. */
  method FindBin(buf: bytes, pagesize: nat, what: bytes, from: nat) returns (r: Option<nat>)
    requires pagesize <= |buf|
    ensures r == if what == [] then None else FindFrom(buf, pagesize, what, from)
  {
    hide Occurs, FirstOf;
    if what == [] {
      return None;
    }
    var start := from;
    while start < pagesize
      invariant FindFrom(buf, pagesize, what, start) == FindFrom(buf, pagesize, what, from)
      decreases |buf| - start
    {
      var p := FirstOf(buf, what[0], start);
      if p == None {
        return None;
      }
      var found := CompareAt(buf, what, p.value);
      if found {
        return p;
      }
      start := p.value + 1;
      start := start + 1;
    }
    return None;
  }

  method CompareAt(buf: bytes, what: bytes, at: nat) returns (found: bool)
    requires what != [] && at < |buf|
    ensures found <==> Occurs(buf, what, at)
  {
    var i := 0;
    while at + i < |buf| && i < |what|
      invariant i < |what| && at + i <= |buf|
      invariant forall k :: 0 <= k < i ==> buf[at + k] == what[k]
    {
      if buf[at + i] != what[i] {
        OccursAt(buf, what, at, i);
        return false;
      }
      if i == |what| - 1 {
        return true;
      }
      i := i + 1;
    }
    return false;
  }

  /** How many copies of `b` stand directly before `at`, from `start` on. */
  function RunBefore(buf: bytes, b: byte, start: nat, at: nat): nat
    requires at <= |buf|
  {
    if at <= start || buf[at - 1] != b then 0 else 1 + RunBefore(buf, b, start, at - 1)
  }

  /** An occurrence behind an even number of copies of its own first byte. */
  predicate Visible(buf: bytes, what: bytes, start: nat, at: nat)
    requires what != []
  {
    Occurs(buf, what, at) && RunBefore(buf, what[0], start, at) % 2 == 0
  }

  /** Starting two places behind the first copy of the byte leaves evenness as it is. */
  lemma {:induction false} RunParity(buf: bytes, b: byte, start: nat, first: nat, at: nat)
    requires start <= first && first + 2 <= at <= |buf| && buf[first] == b
    requires forall p :: start <= p < first ==> buf[p] != b
    ensures RunBefore(buf, b, start, at) % 2 == RunBefore(buf, b, first + 2, at) % 2
    decreases at
  {
    if at == first + 2 {
      assert RunBefore(buf, b, start, first) == 0;
    } else if buf[at - 1] == b {
      RunParity(buf, b, start, first, at - 1);
    }
  }

  /** What is visible near the first copy of the byte, and behind it. */
  lemma VisibleOnward(buf: bytes, what: bytes, start: nat, at: nat, p: nat)
    requires what != [] && FirstOf(buf, what[0], start) == Some(at) && start <= p < |buf|
    ensures p < at || p == at + 1 ==> !Visible(buf, what, start, p)
    ensures p == at ==> (Visible(buf, what, start, p) <==> Occurs(buf, what, at))
    ensures p >= at + 2 ==> (Visible(buf, what, start, p) <==> Visible(buf, what, at + 2, p))
  {
    assert RunBefore(buf, what[0], start, at) == 0;
    assert RunBefore(buf, what[0], start, at + 1) == 1;
    OccursAt(buf, what, p, 0);
    hide Occurs;
    if p >= at + 2 {
      RunParity(buf, what[0], start, at, p);
    }
  }

  ghost predicate FirstVisible(buf: bytes, what: bytes, start: nat, f: nat)
    requires what != []
  {
    Visible(buf, what, start, f) && forall p :: start <= p < f ==> !Visible(buf, what, start, p)
  }

  lemma FirstVisibleOnward(buf: bytes, what: bytes, start: nat, at: nat, f: nat)
    requires what != [] && FirstOf(buf, what[0], start) == Some(at) && start <= f < |buf|
    ensures Occurs(buf, what, at) ==> (FirstVisible(buf, what, start, f) <==> f == at)
    ensures !Occurs(buf, what, at) ==>
      (FirstVisible(buf, what, start, f) <==> f >= at + 2 && FirstVisible(buf, what, at + 2, f))
  {
    hide Visible, Occurs, FirstOf;
    VisibleOnward(buf, what, start, at, at);
    VisibleOnward(buf, what, start, at, f);
    forall p | start <= p < f && (p < at || (FirstVisible(buf, what, at + 2, f) && !Occurs(buf, what, at)))
      ensures !Visible(buf, what, start, p)
    {
      VisibleOnward(buf, what, start, at, p);
    }
    if FirstVisible(buf, what, start, f) {
      var next := at + 2;
      forall p | next <= p < f ensures !Visible(buf, what, next, p) {
        VisibleOnward(buf, what, start, at, p);
      }
    }
  }

  /** The search is still within the page after the places before `f` that fail. */
  ghost predicate InPage(buf: bytes, pagesize: nat, what: bytes, start: nat, f: nat)
    requires what != []
  {
    start < pagesize
    && forall p :: start <= p < f && p < |buf| && buf[p] == what[0] && RunBefore(buf, what[0], start, p) % 2 == 0 ==>
         p + 2 < pagesize
  }

  lemma InPageOnward(buf: bytes, pagesize: nat, what: bytes, start: nat, at: nat, f: nat)
    requires what != [] && FirstOf(buf, what[0], start) == Some(at) && at + 2 <= f < |buf|
    ensures InPage(buf, pagesize, what, start, f) <==> start < pagesize && InPage(buf, pagesize, what, at + 2, f)
  {
    assert RunBefore(buf, what[0], start, at) == 0;
    assert RunBefore(buf, what[0], start, at + 1) == 1;
    forall p | at + 2 <= p < f
      ensures RunBefore(buf, what[0], start, p) % 2 == RunBefore(buf, what[0], at + 2, p) % 2
    {
      RunParity(buf, what[0], start, at, p);
    }
    hide RunBefore;
  }

  /** The search finds the first visible occurrence, if it comes to it within the page, and no other. */
  lemma {:induction false} FoundExactly(buf: bytes, pagesize: nat, what: bytes, start: nat, f: nat)
    requires what != [] && start <= f < |buf|
    ensures FindFrom(buf, pagesize, what, start) == Some(f)
       <==> FirstVisible(buf, what, start, f) && InPage(buf, pagesize, what, start, f)
    decreases |buf| - start
  {
    hide RunBefore, Occurs;
    if FirstOf(buf, what[0], start) == None {
      OccursAt(buf, what, f, 0);
    } else {
      var at := FirstOf(buf, what[0], start).value;
      FirstVisibleOnward(buf, what, start, at, f);
      if Occurs(buf, what, at) {
        if f == at {
          InPageAtOnce(buf, pagesize, what, start, at);
        }
      } else if at + 2 <= f {
        InPageOnward(buf, pagesize, what, start, at, f);
        hide FirstVisible, FirstOf, InPage;
        FoundExactly(buf, pagesize, what, at + 2, f);
      }
    }
  }

  lemma InPageAtOnce(buf: bytes, pagesize: nat, what: bytes, start: nat, at: nat)
    requires what != [] && FirstOf(buf, what[0], start) == Some(at)
    ensures InPage(buf, pagesize, what, start, at) <==> start < pagesize
  {
    hide RunBefore;
  }

  lemma RunNext(buf: bytes, b: byte, start: nat, p: nat)
    requires start <= p < |buf| && buf[p] == b
    ensures RunBefore(buf, b, start, p + 1) == 1 + RunBefore(buf, b, start, p)
  {}

  /** Anything visible in the page itself is come to. */
  lemma VisibleInPage(buf: bytes, pagesize: nat, what: bytes, start: nat, f: nat)
    requires what != [] && start <= f < pagesize && f < |buf| && Visible(buf, what, start, f)
    ensures InPage(buf, pagesize, what, start, f)
  {
    forall p | start <= p < f && buf[p] == what[0] && RunBefore(buf, what[0], start, p) % 2 == 0
      ensures p + 2 < pagesize
    {
      RunNext(buf, what[0], start, p);
    }
    hide RunBefore, Occurs;
  }

  lemma OccursAt(buf: bytes, what: bytes, at: nat, i: nat)
    requires i < |what|
    ensures Occurs(buf, what, at) ==> at + i < |buf| && buf[at + i] == what[i]
  {
    if Occurs(buf, what, at) {
      assert buf[at..at + |what|][i] == what[i];
    }
  }

  /** So the first occurrence is found if and only if an even number of copies of
      its first byte stand before it. */
  lemma FirstIsFound(buf: bytes, pagesize: nat, what: bytes, start: nat, f: nat)
    requires what != [] && start <= f < pagesize <= |buf| && Occurs(buf, what, f)
    requires forall p :: start <= p < f ==> !Occurs(buf, what, p)
    ensures FindFrom(buf, pagesize, what, start) == Some(f) <==> RunBefore(buf, what[0], start, f) % 2 == 0
  {
    FoundExactly(buf, pagesize, what, start, f);
    if Visible(buf, what, start, f) {
      VisibleInPage(buf, pagesize, what, start, f);
    }
  }

  // ---- The scan ----

  const MIN_COMPRESSED_SIZE := 512
  const MIN_UNCOMPR_SIZE := 4096

  function Header(): bytes { [0x81, 0x81, 0x78, 0x70, 0x72, 0x65, 0x73, 0x73] }

  const HEADER_SIZE := 32

  /** A header directly behind a byte like its first is missed. */
  lemma MissedBehindOneByte(rest: bytes)
    ensures var buf := [0x81] + Header() + rest;
      Occurs(buf, Header(), 1) && FindFrom(buf, |buf|, Header(), 0) != Some(1)
  {
    var buf := [0x81] + Header() + rest;
    assert buf[1..9] == Header();
    OccursAt(buf, Header(), 0, 2);
    assert RunBefore(buf, 0x81, 0, 1) == 1 + RunBefore(buf, 0x81, 0, 0);
    FirstIsFound(buf, |buf|, Header(), 0, 1);
  }

  /** A block that is passed on: where its header is, and what it decompresses to. */
  datatype Block = Block(at: nat, data: bytes)

  /** The length a header states: the upper 22 bits of a word, plus 1, rounded up to a multiple of 8. */
  function CompressedLength(buf: bytes, at: nat): (n: nat)
    requires at + HEADER_SIZE <= |buf|
    ensures 8 <= n <= 0x40_0000
  {
    (Word32(buf, at + 8) / 1024 + 1 + 7) / 8 * 8
  }

  /** The compressed bytes, cut short where the buffer ends. */
  function Compressed(buf: bytes, at: nat): (r: bytes)
    requires at + HEADER_SIZE <= |buf|
    ensures |r| <= 0x40_0000
  {
    var rest := buf[at + HEADER_SIZE..];
    if CompressedLength(buf, at) < |rest| then rest[..CompressedLength(buf, at)] else rest
  }

  function OutputSize(compressed: bytes): nat {
    if |compressed| * 10 < MIN_UNCOMPR_SIZE then MIN_UNCOMPR_SIZE else |compressed| * 10
  }

  function Decompressed(compressed: bytes): bytes { Decode(compressed, OutputSize(compressed), BEGIN, []) }

  /** The blocks passed on from `pos` on. An empty result ends the scan. */
  function Blocks(buf: bytes, pagesize: nat, pos: nat): seq<Block>
    decreases |buf| - pos
  {
    if pos + MIN_COMPRESSED_SIZE >= |buf| then []
    else match FindFrom(buf, pagesize, Header(), pos)
      case None => []
      case Some(at) =>
        if at + HEADER_SIZE > |buf| then []
        else
          var data := Decompressed(Compressed(buf, at));
          if data == [] then [] else [Block(at, data)] + Blocks(buf, pagesize, at + CompressedLength(buf, at))
  }

  /** Nothing is looked for in 512 bytes or fewer. */
  lemma TooSmall(buf: bytes, pagesize: nat, pos: nat)
    ensures Blocks(buf, pagesize, pos) != [] ==> |buf| > pos + 512
  {}

  /** `Xpress_Decompress` as it is called here. The sizes never come near the 32 bits of its indices. */
  method Decompress(compressed: bytes) returns (data: bytes)
    requires |compressed| <= 0x40_0000
    ensures data == Decompressed(compressed)
  {
    hide Decode;
    var maxSize := |compressed| * 10;
    if maxSize < MIN_UNCOMPR_SIZE {
      maxSize := MIN_UNCOMPR_SIZE;
    }
    var output := new byte[maxSize](_ => 0);
    var size := XpressDecompress(compressed, output);
    return output[..size];
  }

  /** `scan_hiberfile_scan`. */
  method Scan(buf: bytes, pagesize: nat) returns (blocks: seq<Block>)
    requires pagesize <= |buf|
    ensures blocks == Blocks(buf, pagesize, 0)
  {
    hide FindFrom, Decompressed, Compressed, CompressedLength, Header;
    blocks := [];
    var pos := 0;
    while pos + MIN_COMPRESSED_SIZE < |buf|
      invariant Blocks(buf, pagesize, 0) == blocks + Blocks(buf, pagesize, pos)
      decreases |buf| - pos
    {
      assert Header() != [] by {
        HeaderLength();
      }
      var found := FindBin(buf, pagesize, Header(), pos);
      if found == None {
        return;
      }
      pos := found.value;
      if |buf| - pos < HEADER_SIZE {
        return;
      }
      var data := Decompress(Compressed(buf, pos));
      if |data| == 0 {
        return;
      }
      blocks := blocks + [Block(pos, data)];
      pos := pos + CompressedLength(buf, pos);
    }
  }

  lemma HeaderLength()
    ensures |Header()| == 8
  {}

  // ---- What the scan passes on ----

  ghost predicate GoodBlock(buf: bytes, b: Block) {
    && Occurs(buf, Header(), b.at) && b.at + HEADER_SIZE <= |buf|
    && b.data == Decompressed(Compressed(buf, b.at)) && 0 < |b.data| <= OutputSize(Compressed(buf, b.at))
  }

  ghost predicate InOrder(buf: bytes, bs: seq<Block>, pos: nat) {
    && (forall i :: 0 <= i < |bs| ==> GoodBlock(buf, bs[i]) && bs[i].at >= pos)
    && forall i, j :: 0 <= i < j < |bs| ==> bs[i].at + CompressedLength(buf, bs[i].at) <= bs[j].at
  }

  /** On any buffer, blocks have headers, fit the room made for them, and come in order without overlap. */
  lemma {:induction false} BlocksAreGood(buf: bytes, pagesize: nat, pos: nat)
    ensures InOrder(buf, Blocks(buf, pagesize, pos), pos)
    decreases |buf| - pos
  {
    hide FindFrom, Decompressed, Compressed, CompressedLength, Header, Occurs, InOrder;
    HeaderLength();
    var bs := Blocks(buf, pagesize, pos);
    if bs == [] {
      NoneInOrder(buf, pos);
    } else {
      var at := bs[0].at;
      DecompressedFits(Compressed(buf, at));
      BlocksAreGood(buf, pagesize, at + CompressedLength(buf, at));
      OneMoreInOrder(buf, bs[0], Blocks(buf, pagesize, at + CompressedLength(buf, at)), pos);
    }
  }

  lemma NoneInOrder(buf: bytes, pos: nat)
    ensures InOrder(buf, [], pos)
  {}

  lemma OneMoreInOrder(buf: bytes, b: Block, rest: seq<Block>, pos: nat)
    requires GoodBlock(buf, b) && b.at >= pos && InOrder(buf, rest, b.at + CompressedLength(buf, b.at))
    ensures InOrder(buf, [b] + rest, pos)
  {
    hide GoodBlock, CompressedLength;
  }

  lemma DecompressedFits(compressed: bytes)
    ensures |Decompressed(compressed)| <= OutputSize(compressed)
  {
    DecodeFits(compressed, OutputSize(compressed), BEGIN, []);
  }

  /** An encoded list of tokens with any bytes behind it comes back if and only if it expands to no more
      than ten times what was decoded (or 4096 bytes) and the bytes behind leave it as it is. */
  lemma ComesBack(ts: seq<Token>, fill: bit, junk: bytes)
    requires GoodTokens(ts) && Expandable(0, ts)
    ensures Decompressed(Encode(ts, fill) + junk) == Expand([], ts)
       <==> Restored(ts, fill, junk, OutputSize(Encode(ts, fill) + junk))
  {
    RestoredExactly(ts, fill, junk, OutputSize(Encode(ts, fill) + junk));
  }

  /** The rounding of the length is read as tokens: a block of one literal and the zeros that
      round it up comes back with the zeros. */
  lemma PaddingIsOutput(b: byte)
    ensures |Encode([Literal(b)], 0)| == 5
    ensures Decompressed(Encode([Literal(b)], 0) + [0, 0, 0]) == [b, 0, 0, 0]
  {
    var ts := [Literal(b)];
    OneLiteral(b);
    hide Decode, Encode, Written;
    JunkIsAppended(ts, [0, 0, 0], OutputSize(Encode(ts, 0) + [0, 0, 0]));
  }

  lemma OneLiteral(b: byte)
    ensures |Encode([Literal(b)], 0)| == 5 && Written([], [Literal(b)], true) == [b]
  {
    var ts := [Literal(b)];
    assert ts[1..] == [] && [] + [b] == [b];
    assert Written([], ts, true) == Written([b], [], true);
    hide FlagWord;
    assert EncodeFrom(ts, 0, false, 0) == Le32(FlagWord(ts, 32, 0)) + ([b] + EncodeFrom([], 31, false, 0));
  }

  /** With the filler 1, zeros that fill up two bytes or more of output to a multiple of 8 are read as a match. */
  lemma PaddingIsCopied(ts: seq<Token>)
    requires GoodTokens(ts) && Expandable(0, ts) && Reachable(0, ts) && |ts| % 32 != 0
    requires 2 <= |Expand([], ts)| < OutputSize(Encode(ts, 1) + [0, 0, 0]) - 1
    ensures Decompressed(Encode(ts, 1) + [0, 0, 0]) != Expand([], ts)
  {
    hide Decode, Encode, Expand, Reachable;
    HarmlessExactly(ts, 1, [0, 0, 0], OutputSize(Encode(ts, 1) + [0, 0, 0]));
  }

  lemma {:induction false} ExpandGrows(out: bytes, ts: seq<Token>)
    requires Expandable(|out|, ts)
    ensures |Expand(out, ts)| >= |out| && (ts != [] && out == [] ==> Expand(out, ts) != [])
    decreases |ts|
  {
    if ts != [] {
      match ts[0]
      case Literal(b) => ExpandGrows(out + [b], ts[1..]);
      case Match(d, l) => ExpandGrows(CopyBack(out, d, l), ts[1..]);
    }
  }

  /** The first block of a buffer, of any compressed size and with whatever the rounding of its length takes in
      behind it, is passed on as it was before it was compressed if and only if an even number of copies of the
      first header byte stand before its header and its tokens come back. */
  lemma FirstBlockExactly(buf: bytes, pagesize: nat, pos: nat, f: nat, ts: seq<Token>, fill: bit)
    requires pos + MIN_COMPRESSED_SIZE < |buf| && pos <= f < pagesize <= |buf| && f + HEADER_SIZE <= |buf|
    requires Occurs(buf, Header(), f) && forall p :: pos <= p < f ==> !Occurs(buf, Header(), p)
    requires ts != [] && GoodTokens(ts) && Expandable(0, ts) && Encode(ts, fill) <= Compressed(buf, f)
    ensures var bs, compressed := Blocks(buf, pagesize, pos), Compressed(buf, f);
      bs != [] && bs[0] == Block(f, Expand([], ts))
      <==> && RunBefore(buf, 0x81, pos, f) % 2 == 0
           && Restored(ts, fill, compressed[|Encode(ts, fill)|..], OutputSize(compressed))
  {
    hide Decompressed, Expand, Encode, Reachable, RunBefore, Occurs, FindFrom, Restored;
    assert Header() != [] && Header()[0] == 0x81;
    FirstIsFound(buf, pagesize, Header(), pos, f);
    var compressed := Compressed(buf, f);
    var junk := compressed[|Encode(ts, fill)|..];
    assert Encode(ts, fill) + junk == compressed;
    ComesBack(ts, fill, junk);
    ExpandGrows([], ts);
  }

  /** At most seven bytes stand behind a block whose header states its size. */
  lemma RoundedUp(buf: bytes, at: nat, n: nat)
    requires at + HEADER_SIZE <= |buf| && at + HEADER_SIZE + CompressedLength(buf, at) <= |buf|
    requires 0 < n == Word32(buf, at + 8) / 1024 + 1
    ensures n <= |Compressed(buf, at)| < n + 8 && |Compressed(buf, at)| % 8 == 0
  {}

  // ---- Written files ----

  /** The 32 bytes before a block of `n` compressed bytes: the signature, a word whose upper
      22 bits are n - 1, and 20 bytes that are not looked at. */
  function BlockHeader(n: nat, low: nat, more: bytes): bytes
    requires 0 < n <= 0x40_0000 && low < 1024 && |more| == 20
  {
    [0x81, 0x81, 'x' as int, 'p' as int, 'r' as int, 'e' as int, 's' as int, 's' as int]
    + Le32((n - 1) * 1024 + low) + more
  }

  /** How many bytes it takes to fill up to a multiple of 8. */
  function Padding(n: nat): nat { (8 - n % 8) % 8 }

  lemma HeaderRead(buf: bytes, at: nat, n: nat, low: nat, more: bytes, behind: bytes)
    requires 0 < n <= 0x40_0000 && low < 1024 && |more| == 20 && at <= |buf|
    requires buf[at..] == BlockHeader(n, low, more) + behind
    ensures at + 32 <= |buf| && buf[at + 32..] == behind && Word32(buf, at + 8) / 1024 + 1 == n
    ensures Occurs(buf, Header(), at)
  {
    hide Word32;
    var word := (n - 1) * 1024 + low;
    var signature := Header();
    Le32Length(word);
    assert BlockHeader(n, low, more) + behind == signature + (Le32(word) + (more + behind));
    At(buf, at, signature, Le32(word) + (more + behind));
    At(buf, at + 8, Le32(word), more + behind);
    At(buf, at + 12, more, behind);
    Le32Inverse(word, buf, at + 8);
  }

  lemma {:induction false} RoundUp(n: nat)
    ensures (n + 7) / 8 * 8 == n + Padding(n)
  {
    if n >= 8 {
      RoundUp(n - 8);
      assert (n + 7) / 8 == (n - 8 + 7) / 8 + 1 && Padding(n) == Padding(n - 8);
    }
  }

  /** What the decoder gets of a written block. */
  lemma BlockRead(buf: bytes, at: nat, n: nat, low: nat, more: bytes, data: bytes, tail: bytes)
    requires 0 < n == |data| <= 0x40_0000 && low < 1024 && |more| == 20 && at <= |buf|
    requires buf[at..] == BlockHeader(n, low, more) + (data + tail)
    ensures at + 32 <= |buf|
    ensures Compressed(buf, at) == data + if Padding(n) < |tail| then tail[..Padding(n)] else tail
  {
    HeaderRead(buf, at, n, low, more, data + tail);
    RoundUp(n);
    hide Word32, BlockHeader;
    assert CompressedLength(buf, at) == n + Padding(n);
  }

  /** A block written behind anything without a header is passed on as it was if and only if an even number of bytes
      81 (hexadecimal) stand before it and its tokens come back, whatever follows it and up to 7 bytes of which
      are decoded with it. */
  lemma WrittenBlock(lead: bytes, ts: seq<Token>, fill: bit, low: nat, more: bytes, tail: bytes, pagesize: nat)
    requires ts != [] && GoodTokens(ts) && Expandable(0, ts) && |Encode(ts, fill)| <= 0x40_0000
    requires low < 1024 && |more| == 20 && |Encode(ts, fill)| > 0
    requires var buf := lead + (BlockHeader(|Encode(ts, fill)|, low, more) + (Encode(ts, fill) + tail));
      && |lead| < pagesize <= |buf| && |buf| > 512
      && forall p :: 0 <= p < |lead| ==> !Occurs(buf, Header(), p)
    ensures var data := Encode(ts, fill);
      var buf := lead + (BlockHeader(|data|, low, more) + (data + tail));
      var junk := if Padding(|data|) < |tail| then tail[..Padding(|data|)] else tail;
      var size := if |data + junk| * 10 < 4096 then 4096 else |data + junk| * 10;
      var bs := Blocks(buf, pagesize, 0);
      bs != [] && bs[0] == Block(|lead|, Expand([], ts))
      <==> RunBefore(buf, 0x81, 0, |lead|) % 2 == 0 && Restored(ts, fill, junk, size)
  {
    hide Encode, Expand, Restored, BlockHeader, Blocks, Compressed, Occurs;
    var data, f := Encode(ts, fill), |lead|;
    var buf := lead + (BlockHeader(|data|, low, more) + (data + tail));
    assert buf[f..] == BlockHeader(|data|, low, more) + (data + tail);
    BlockRead(buf, f, |data|, low, more, data, tail);
    HeaderRead(buf, f, |data|, low, more, data + tail);
    var junk := if Padding(|data|) < |tail| then tail[..Padding(|data|)] else tail;
    assert (data + junk)[|data|..] == junk && data <= data + junk;
    FirstBlockExactly(buf, pagesize, 0, f, ts, fill);
  }
}

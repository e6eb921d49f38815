/** `Xpress_Decompress` of `src/pyxpress.c` and what it does on every input. */
module XpressDecoder {
  import opened Bytes
  import opened Arithmetic
  import opened XpressFormat

  /** The reading position: input index, indicator word, bits left in it, and
      the index of a half-used nibble byte (0 for none). */
  datatype Cursor = Cursor(at: nat, indicator: nat, bits: nat, nibble: nat)

  datatype Fetched = Stop | Got(token: Token, next: Cursor)

  function Word16(input: bytes, at: nat): nat
    requires at + 1 < |input|
  {
    input[at] as nat + 256 * input[at + 1] as nat
  }

  function Word32(input: bytes, at: nat): nat
    requires at + 3 < |input|
  {
    input[at] as nat + 256 * input[at + 1] as nat + 65536 * input[at + 2] as nat + 16777216 * input[at + 3] as nat
  }

  ghost predicate CursorOk(input: bytes, c: Cursor) {
    c.bits <= 32 && c.nibble < |input|
  }

  /** The length escapes behind a full nibble; a length that runs into the end of input is dropped. */
  function FetchEscape(input: bytes, distance: nat, c: Cursor): Fetched
    requires c.at < |input|
  {
    if c.at + 1 >= |input| then Stop
    else if input[c.at] < 255 then Got(Match(distance, input[c.at] as nat + 25), c.(at := c.at + 1))
    else if c.at + 3 >= |input| then Stop
    else Got(Match(distance, Word16(input, c.at + 1) + 3), c.(at := c.at + 3))
  }

  function FetchLong(input: bytes, distance: nat, c: Cursor): Fetched
    requires c.at < |input| && c.nibble < |input|
  {
    var v := if c.nibble == 0 then input[c.at] % 16 else input[c.nibble] / 16;
    var next := if c.nibble == 0 then c.(at := c.at + 1, nibble := c.at) else c.(nibble := 0);
    if next.at >= |input| then Stop
    else if v < 15 then Got(Match(distance, v + 10), next)
    else FetchEscape(input, distance, next)
  }

  function FetchMatch(input: bytes, c: Cursor): (r: Fetched)
    requires c.at < |input| && c.nibble < |input|
    ensures r.Got? ==> c.at < r.next.at < |input| && r.next.nibble < |input| && r.next.bits == c.bits
    ensures r.Got? ==> r.token.Match? && 1 <= r.token.distance <= 8192 && 3 <= r.token.length <= 65538
  {
    if c.at + 2 >= |input| then Stop
    else
      var word := Word16(input, c.at);
      var next := c.(at := c.at + 2);
      if word % 8 < 7 then Got(Match(word / 8 + 1, word % 8 + 3), next)
      else FetchLong(input, word / 8 + 1, next)
  }

  function Refill(input: bytes, c: Cursor): Cursor
    requires c.at < |input|
  {
    if c.bits > 0 then c
    else if c.at + 3 >= |input| then c.(at := |input|)
    else Cursor(c.at + 4, Word32(input, c.at), 32, c.nibble)
  }

  /** The next token, or Stop where the input is too short for one. */
  function Fetch(input: bytes, c: Cursor): (r: Fetched)
    requires c.at < |input| && CursorOk(input, c)
    ensures r.Got? ==> r.next.at > c.at && CursorOk(input, r.next)
    ensures r.Got? && r.token.Match? ==> 1 <= r.token.distance <= 8192 && 3 <= r.token.length <= 65538
  {
    var c := Refill(input, c);
    if c.at >= |input| then Stop
    else
      var c := c.(bits := c.bits - 1);
      if c.indicator / Pow2(c.bits) % 2 == 0 then Got(Literal(input[c.at]), c.(at := c.at + 1))
      else FetchMatch(input, c)
  }

  /** A match as the decoder performs it: nothing is copied unless the source
      lies strictly after the first output byte. */
  function Clipped(out: bytes, distance: nat, length: nat, size: nat): (r: bytes)
    requires distance >= 1
    ensures |r| >= |out|
    decreases length
  {
    if length == 0 || |out| >= size || distance >= |out| then out
    else Clipped(out + [out[|out| - distance]], distance, length - 1, size)
  }

  /** The decoder's result from a cursor with `out` already written. */
  function Decode(input: bytes, size: nat, c: Cursor, out: bytes): bytes
    requires CursorOk(input, c) || c.at >= |input|
    decreases |input| - c.at
  {
    if |out| >= size || c.at >= |input| then out
    else match Fetch(input, c)
      case Stop => out
      case Got(Literal(b), next) =>
        if next.at >= |input| then out + [b]
        else if |out| + 1 >= size then out // the last byte is taken back
        else Decode(input, size, next, out + [b])
      case Got(Match(d, l), next) => Decode(input, size, next, Clipped(out, d, l, size))
  }

  // ---- The decoder itself, on 32-bit registers ----

  function Wrap(v: int): nat { v % TWO_TO_32 }

  lemma WrapSmall(x: int)
    requires 0 <= x < TWO_TO_32
    ensures Wrap(x) == x
  {}

  /** The subtraction below zero is undone by the additions that follow. */
  lemma WrapCancels(length: nat)
    requires length < 65536
    ensures Wrap(Wrap(Wrap(length - 22) + 15) + 7) == length
  {}

  /** Copies from `offset + 1` bytes back, as the inner loop does. */
  method CopyMatch(output: array<byte>, size: nat, from: nat, offset: nat, wanted: nat) returns (outputIndex: nat)
    requires from <= size <= output.Length && wanted < TWO_TO_32
    modifies output
    ensures outputIndex <= size
    ensures output[..outputIndex] == Clipped(old(output[..from]), offset + 1, wanted, size)
  {
    outputIndex := from;
    var length: nat := wanted;
    while length != 0
      decreases length
      invariant from <= outputIndex <= size && length <= wanted
      invariant Clipped(output[..outputIndex], offset + 1, length, size)
             == Clipped(old(output[..from]), offset + 1, wanted, size)
    {
      if outputIndex >= size || offset + 1 >= outputIndex {
        break;
      }
      output[outputIndex] := output[outputIndex - offset - 1];
      assert output[..outputIndex + 1] == output[..outputIndex] + [output[outputIndex]];
      outputIndex := outputIndex + 1;
      if outputIndex >= size {
        break;
      }
      length := length - 1;
    }
  }

  const BEGIN := Cursor(0, 0, 0, 0)

  /** The match branch up to the copy; `ok` is false where the input is too short. */
  method ReadMatch(input: bytes, ghost c: Cursor, at: nat, nibble: nat)
      returns (ok: bool, offset: nat, length: nat, inputIndex: nat, nibbleIndex: nat)
    requires |input| + 4 <= TWO_TO_32 && at < |input| && nibble < |input|
    requires at == c.at && nibble == c.nibble
    ensures ok == FetchMatch(input, c).Got?
    ensures ok ==> FetchMatch(input, c) ==
                   Got(Match(offset + 1, length), c.(at := inputIndex, nibble := nibbleIndex))
  {
    hide Wrap;
    var inputSize := |input|;
    ok, offset, inputIndex, nibbleIndex := false, 0, at, nibble;
    length := 0;
    WrapSmall(inputIndex + 1);
    if Wrap(inputIndex + 1) >= inputSize {
      return;
    }
    length := Word16(input, inputIndex);
    WrapSmall(inputIndex + 2);
    inputIndex := Wrap(inputIndex + 2);
    if inputIndex >= inputSize {
      return;
    }
    offset := length / 8;
    length := length % 8;
    WrapSmall(inputIndex + 1);
    if length == 7 {
      if nibbleIndex == 0 {
        nibbleIndex := inputIndex;
        length := input[inputIndex] as nat % 16;
        inputIndex := Wrap(inputIndex + 1);
        if inputIndex >= inputSize {
          return;
        }
      } else {
        length := input[nibbleIndex] as nat / 16;
        nibbleIndex := 0;
      }
      WrapSmall(length + 7);
      if length == 15 {
        length := input[inputIndex];
        WrapSmall(inputIndex + 1);
        inputIndex := Wrap(inputIndex + 1);
        if inputIndex >= inputSize {
          return;
        }
        WrapSmall(length + 15);
        WrapSmall(length + 22);
        if length == 255 {
          WrapSmall(inputIndex + 2);
          if Wrap(inputIndex + 2) >= inputSize {
            return;
          }
          length := Word16(input, inputIndex);
          inputIndex := Wrap(inputIndex + 2);
          if inputIndex >= inputSize {
            return;
          }
          WrapCancels(length);
          length := Wrap(length - (15 + 7));
        }
        length := Wrap(length + 15);
      }
      length := Wrap(length + 7);
    }
    WrapSmall(length + 3);
    length := Wrap(length + 3);
    ok := true;
  }

  /** One turn of the loop that reads a literal. */
  lemma DecodeLiteral(input: bytes, size: nat, entry: Cursor, out: bytes)
    requires entry.at < |input| && CursorOk(input, entry) && |out| < size
    requires Refill(input, entry).at < |input|
    requires var c := Refill(input, entry); c.bits > 0 && c.indicator / Pow2(c.bits - 1) % 2 == 0
    ensures var c := Refill(input, entry);
      Decode(input, size, entry, out) ==
        if c.at + 1 >= |input| then out + [input[c.at]]
        else if |out| + 1 >= size then out
        else Decode(input, size, c.(bits := c.bits - 1, at := c.at + 1), out + [input[c.at]])
  {
    hide Pow2;
  }

  /** One turn of the loop that reads a match, or finds the input too short for it. */
  lemma DecodeMatch(input: bytes, size: nat, entry: Cursor, out: bytes)
    requires entry.at < |input| && CursorOk(input, entry) && |out| < size
    requires Refill(input, entry).at < |input|
    requires var c := Refill(input, entry); c.bits > 0 && c.indicator / Pow2(c.bits - 1) % 2 != 0
    ensures
      var c := Refill(input, entry);
      var r := FetchMatch(input, c.(bits := c.bits - 1));
      Decode(input, size, entry, out) ==
        if r.Stop? then out
        else Decode(input, size, r.next, Clipped(out, r.token.distance, r.token.length, size))
  {
    hide Pow2, FetchMatch, Clipped;
  }

  method XpressDecompress(input: bytes, output: array<byte>) returns (outputIndex: nat)
    requires |input| + 4 <= TWO_TO_32 && output.Length < TWO_TO_32
    modifies output
    ensures outputIndex <= output.Length
    ensures output[..outputIndex] == Decode(input, output.Length, BEGIN, [])
  {
    hide Word32, FetchMatch, Clipped, Pow2, Decode, Wrap, Fetch;
    var inputSize, outputSize := |input|, output.Length;
    var inputIndex: nat, indicator: nat, indicatorBit: nat, nibbleIndex: nat := 0, 0, 0, 0;
    outputIndex := 0;
    ghost var result := Decode(input, outputSize, BEGIN, []);
    assert output[..0] == [];
    while outputIndex < outputSize && inputIndex < inputSize
      invariant outputIndex <= outputSize && inputIndex <= inputSize && indicatorBit <= 32
      invariant inputSize > 0 ==> nibbleIndex < inputSize
      invariant Decode(input, outputSize, Cursor(inputIndex, indicator, indicatorBit, nibbleIndex),
                       output[..outputIndex])
             == result
      decreases inputSize - inputIndex
    {
      ghost var entry := Cursor(inputIndex, indicator, indicatorBit, nibbleIndex);
      ghost var out := output[..outputIndex];
      if indicatorBit == 0 {
        WrapSmall(inputIndex + 3);
        if Wrap(inputIndex + 3) >= inputSize {
          DecodeShort(input, outputSize, entry, out);
          return;
        }
        indicator := Word32(input, inputIndex);
        WrapSmall(inputIndex + 4);
        inputIndex := Wrap(inputIndex + 4);
        indicatorBit := 32;
        if inputIndex >= inputSize {
          DecodeShort(input, outputSize, entry, out);
          return;
        }
      }
      assert Refill(input, entry) == Cursor(inputIndex, indicator, indicatorBit, nibbleIndex);
      indicatorBit := indicatorBit - 1;
      if indicator / Pow2(indicatorBit) % 2 == 0 {
        DecodeLiteral(input, outputSize, entry, out);
        output[outputIndex] := input[inputIndex];
        assert output[..outputIndex] == out;
        assert output[..outputIndex + 1] == out + [input[inputIndex]];
        WrapSmall(inputIndex + 1);
        inputIndex := Wrap(inputIndex + 1);
        WrapSmall(outputIndex + 1);
        outputIndex := Wrap(outputIndex + 1);
        if inputIndex >= inputSize {
          return;
        }
        if outputIndex >= outputSize {
          outputIndex := outputIndex - 1;
          return;
        }
      } else {
        DecodeMatch(input, outputSize, entry, out);
        ghost var c := Cursor(inputIndex, indicator, indicatorBit, nibbleIndex);
        var ok, offset, length, nextIndex, nextNibble := ReadMatch(input, c, inputIndex, nibbleIndex);
        if !ok {
          return;
        }
        inputIndex, nibbleIndex := nextIndex, nextNibble;
        outputIndex := CopyMatch(output, outputSize, outputIndex, offset, length);
      }
    }
    DecodeOver(input, outputSize, Cursor(inputIndex, indicator, indicatorBit, nibbleIndex), output[..outputIndex]);
  }

  lemma DecodeOver(input: bytes, size: nat, c: Cursor, out: bytes)
    requires (CursorOk(input, c) || c.at >= |input|) && (|out| >= size || c.at >= |input|)
    ensures Decode(input, size, c, out) == out
  {}

  /** No room for an indicator word and a token behind it. */
  lemma DecodeShort(input: bytes, size: nat, entry: Cursor, out: bytes)
    requires entry.at < |input| && CursorOk(input, entry)
    requires Refill(input, entry).at >= |input|
    ensures Decode(input, size, entry, out) == out
  {}
}

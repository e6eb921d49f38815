/** The table-driven CRC-32 of `src/scan_evtx.cpp` against bit-at-a-time division. */
module Crc32 {

  // The bit operations have names so that proofs about whole buffers need not look into them.

  function Xor(a: bv32, b: bv32): bv32 { a ^ b }

  function Mix(c: bv32, b: bv8): bv32 { c ^ b as bv32 }

  function Complement(c: bv32): bv32 { c ^ 0xFFFFFFFF }

  function Half(c: bv32): bv32 { c >> 1 }

  function HighPart(c: bv32): bv32 { c >> 8 }

  function LowWord(c: bv32): (r: bv32)
    ensures r < 256
  {
    c & 0xFF
  }

  function HighWord(c: bv32): bv32 { c & 0xFFFFFF00 }

  /** The table index for a word. */
  function LowPart(c: bv32): (i: nat)
    ensures i < 256
  {
    LowWord(c) as nat
  }

  function Word(i: nat): bv32
    requires i < 256
  {
    i as bv32
  }

  /** One bit of the division by the reflected polynomial (section 8 of RFC 1952). */
  function DivideBit(c: bv32): bv32 {
    if c & 1 == 1 then 0xEDB88320 ^ (c >> 1) else c >> 1
  }

  function DivideBits(c: bv32, n: nat): bv32 {
    if n == 0 then c else DivideBit(DivideBits(c, n - 1))
  }

  /** Dividing in one more byte, bit by bit. */
  function DivideByte(c: bv32, b: bv8): bv32 { DivideBits(Mix(c, b), 8) }

  function Divide(c: bv32, buf: seq<bv8>): bv32 {
    if buf == [] then c else DivideByte(Divide(c, buf[..|buf| - 1]), buf[|buf| - 1])
  }

  /** The checksum of `buf` continued from `initial`. */
  function Crc(initial: bv32, buf: seq<bv8>): bv32 { Complement(Divide(Complement(initial), buf)) }

  ghost predicate IsTable(table: seq<bv32>) {
    |table| == 256 && forall i: nat :: i < 256 ==> table[i] == DivideBits(Word(i), 8)
  }

  method GenerateTable(table: array<bv32>)
    requires table.Length == 256
    modifies table
    ensures IsTable(table[..])
  {
    for i := 0 to 256
      invariant forall k: nat :: k < i ==> table[k] == DivideBits(Word(k), 8)
    {
      var c := Word(i);
      for j := 0 to 8
        invariant c == DivideBits(Word(i), j)
        invariant forall k: nat :: k < i ==> table[k] == DivideBits(Word(k), 8)
      {
        if c & 1 == 1 {
          c := 0xEDB88320 ^ (c >> 1);
        } else {
          c := c >> 1;
        }
      }
      table[i] := c;
    }
  }

  /** The checksum of the letter a, as RFC 1952 has it: complemented before and after. */
  lemma KnownAnswer()
    ensures Crc(0, [0x61]) == 0xE8B7BE43
  {
    var c0: bv32 := 0xFFFFFF9E;
    assert Mix(Complement(0), 0x61) == c0;
    var c1 := DivideBit(c0);
    var c2 := DivideBit(c1);
    var c3 := DivideBit(c2);
    var c4 := DivideBit(c3);
    var c5 := DivideBit(c4);
    var c6 := DivideBit(c5);
    var c7 := DivideBit(c6);
    var c8 := DivideBit(c7);
    assert Complement(c8) == 0xE8B7BE43;
    hide DivideBit, Complement, Mix;
    assert DivideBits(c0, 4) == c4;
    assert DivideBits(c0, 8) == c8;
    assert [0x61 as bv8][..0] == [];
  }

  // ---- One table look-up is eight steps ----

  predicate LowBitClear(y: bv32) { y & 1 == 0 }

  /** A step is linear, and only shifts a word whose low bit is clear. */
  lemma BitLinear(a: bv32, y: bv32)
    requires LowBitClear(y)
    ensures DivideBit(Xor(a, y)) == Xor(DivideBit(a), Half(y))
  {
    hide DivideBit, LowBitClear, Xor, Half;
    LowBitKept(a, y);
    StepIs(a);
    StepIs(Xor(a, y));
    HalfXor(a, y);
    XorOrder(0xEDB88320, Half(a), Half(y));
  }

  lemma StepIs(a: bv32)
    ensures DivideBit(a) == if LowBitClear(a) then Half(a) else Xor(0xEDB88320, Half(a))
  {}

  lemma LowBitKept(a: bv32, y: bv32)
    requires LowBitClear(y)
    ensures LowBitClear(Xor(a, y)) <==> LowBitClear(a)
  {}

  lemma HalfXor(a: bv32, y: bv32)
    ensures Half(Xor(a, y)) == Xor(Half(a), Half(y))
  {}

  lemma XorOrder(a: bv32, b: bv32, c: bv32)
    ensures Xor(a, Xor(b, c)) == Xor(Xor(a, b), c)
  {}

  function Dropped(y: bv32, n: nat): bv32 { if n == 0 then y else Half(Dropped(y, n - 1)) }

  /** While the dropped bits are clear, steps leave the rest of the word alone. */
  lemma {:induction false} HighBits(x: bv32, y: bv32, n: nat)
    requires forall k :: 0 <= k < n ==> LowBitClear(Dropped(y, k))
    ensures DivideBits(Xor(x, y), n) == Xor(DivideBits(x, n), Dropped(y, n))
  {
    hide DivideBit, Xor, Half, LowBitClear;
    if n > 0 {
      HighBits(x, y, n - 1);
      BitLinear(DivideBits(x, n - 1), Dropped(y, n - 1));
    }
  }

  lemma DroppedByte(y: bv32)
    requires y & 0xFF == 0
    ensures forall k :: 0 <= k < 8 ==> LowBitClear(Dropped(y, k))
    ensures Dropped(y, 8) == HighPart(y)
  {
    assert Dropped(y, 0) == y;
    assert Dropped(y, 1) == y >> 1;
    assert Dropped(y, 2) == y >> 2;
    assert Dropped(y, 3) == y >> 3;
    assert Dropped(y, 4) == y >> 4;
    assert Dropped(y, 5) == y >> 5;
    assert Dropped(y, 6) == y >> 6;
    assert Dropped(y, 7) == y >> 7;
    assert Dropped(y, 8) == y >> 8;
    forall k | 0 <= k < 8 ensures LowBitClear(Dropped(y, k)) {
      assert k == 0 || k == 1 || k == 2 || k == 3 || k == 4 || k == 5 || k == 6 || k == 7;
    }
  }

  lemma Split(x: bv32)
    ensures Xor(LowWord(x), HighWord(x)) == x && HighWord(x) & 0xFF == 0
  {}

  lemma MixHigh(c: bv32, b: bv8)
    ensures HighPart(HighWord(Mix(c, b))) == HighPart(c)
  {}

  lemma WordBack(y: bv32)
    requires y < 256
    ensures Word(y as nat) == y
  {}

  lemma IndexBack(x: bv32)
    ensures Word(LowPart(x)) == LowWord(x)
  {
    hide LowWord, Word;
    WordBack(LowWord(x));
  }

  lemma HighDropped(x: bv32)
    ensures forall k :: 0 <= k < 8 ==> LowBitClear(Dropped(HighWord(x), k))
    ensures Dropped(HighWord(x), 8) == HighPart(HighWord(x))
  {
    hide LowBitClear, Dropped, HighPart;
    Split(x);
    DroppedByte(HighWord(x));
  }

  lemma TableStep(table: seq<bv32>, c: bv32, b: bv8)
    requires IsTable(table)
    ensures Xor(table[LowPart(Mix(c, b))], HighPart(c)) == DivideByte(c, b)
  {
    hide DivideBits, Xor, Mix, Half, HighPart, LowPart, Word, LowBitClear, Dropped, LowWord, HighWord;
    var x := Mix(c, b);
    Split(x);
    IndexBack(x);
    MixHigh(c, b);
    HighDropped(x);
    HighBits(LowWord(x), HighWord(x), 8);
  }

  lemma DivideNone(c: bv32, buf: seq<bv8>)
    requires buf == []
    ensures Divide(c, buf) == c
  {}

  lemma DivideSnoc(c: bv32, buf: seq<bv8>, b: bv8)
    ensures Divide(c, buf + [b]) == DivideByte(Divide(c, buf), b)
  {
    hide DivideByte;
    assert (buf + [b])[..|buf|] == buf;
  }

  /** `update`: one table look-up per byte computes the division. */
  method Update(table: array<bv32>, initial: bv32, buf: seq<bv8>) returns (crc: bv32)
    requires table.Length == 256 && IsTable(table[..])
    ensures crc == Crc(initial, buf)
  {
    hide Divide, DivideByte, IsTable, Xor, Mix, Complement, HighPart, LowPart;
    var c := Complement(initial);
    DivideNone(c, buf[..0]);
    for i := 0 to |buf|
      invariant c == Divide(Complement(initial), buf[..i])
    {
      TableStep(table[..], c, buf[i]);
      DivideSnoc(Complement(initial), buf[..i], buf[i]);
      assert buf[..i + 1] == buf[..i] + [buf[i]];
      c := Xor(table[LowPart(Mix(c, buf[i]))], HighPart(c));
    }
    assert buf[..|buf|] == buf;
    return Complement(c);
  }

  // ---- Checksums of split and of altered buffers ----

  lemma {:induction false} DivideConcat(c: bv32, a: seq<bv8>, b: seq<bv8>)
    ensures Divide(c, a + b) == Divide(Divide(c, a), b)
  {
    hide DivideByte;
    if b == [] {
      assert a + b == a;
    } else {
      assert (a + b)[..|a + b| - 1] == a + b[..|b| - 1];
      DivideConcat(c, a, b[..|b| - 1]);
    }
  }

  lemma ComplementTwice(c: bv32)
    ensures Complement(Complement(c)) == c
  {}

  /** Continuing a checksum is the checksum of the whole. */
  lemma UpdateSplit(initial: bv32, a: seq<bv8>, b: seq<bv8>)
    ensures Crc(Crc(initial, a), b) == Crc(initial, a + b)
  {
    hide Divide, Complement;
    ComplementTwice(Divide(Complement(initial), a));
    DivideConcat(Complement(initial), a, b);
  }

  /** One step loses nothing: the top bit of the result tells which way it went. */
  lemma BitInjective(a: bv32, b: bv32)
    requires DivideBit(a) == DivideBit(b)
    ensures a == b
  {}

  lemma {:induction false} BitsInjective(a: bv32, b: bv32, n: nat)
    requires DivideBits(a, n) == DivideBits(b, n)
    ensures a == b
  {
    hide DivideBit;
    if n > 0 {
      BitInjective(DivideBits(a, n - 1), DivideBits(b, n - 1));
      BitsInjective(a, b, n - 1);
    }
  }

  lemma MixInjective(a: bv32, b: bv32, x: bv8, y: bv8)
    requires Mix(a, x) == Mix(b, y)
    ensures x == y ==> a == b
    ensures a == b ==> x == y
  {}

  lemma ByteInjective(a: bv32, b: bv32, x: bv8, y: bv8)
    requires DivideByte(a, x) == DivideByte(b, y)
    ensures x == y ==> a == b
    ensures a == b ==> x == y
  {
    hide DivideBits, Mix;
    BitsInjective(Mix(a, x), Mix(b, y), 8);
    MixInjective(a, b, x, y);
  }

  lemma {:induction false} DivideInjective(a: bv32, b: bv32, buf: seq<bv8>)
    requires Divide(a, buf) == Divide(b, buf)
    ensures a == b
  {
    hide DivideByte;
    if buf != [] {
      var init, x := buf[..|buf| - 1], buf[|buf| - 1];
      ByteInjective(Divide(a, init), Divide(b, init), x, x);
      DivideInjective(a, b, init);
    }
  }

  /** Buffers that differ in one byte never share a checksum. */
  lemma OneByteIsDetected(initial: bv32, before: seq<bv8>, x: bv8, y: bv8, after: seq<bv8>)
    requires x != y
    ensures Crc(initial, before + [x] + after) != Crc(initial, before + [y] + after)
  {
    hide Divide, DivideByte, Complement;
    var c := Complement(initial);
    var d := Divide(c, before);
    DivideConcat(c, before + [x], after);
    DivideConcat(c, before + [y], after);
    DivideSnoc(c, before, x);
    DivideSnoc(c, before, y);
    if Crc(initial, before + [x] + after) == Crc(initial, before + [y] + after) {
      ComplementTwice(Divide(c, before + [x] + after));
      ComplementTwice(Divide(c, before + [y] + after));
      DivideInjective(DivideByte(d, x), DivideByte(d, y), after);
      ByteInjective(d, d, x, y);
    }
  }
}

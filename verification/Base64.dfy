/**
 The forgiving base64 decoder of `src/base64_forensic.cpp` and its caller in
 `src/scan_base64.cpp`, against sections 4 and 5 of RFC 4648. Bytes are bit
 vectors here, because the decoder puts them together with shifts and `|=`.
 */
module Base64 {
  import opened Octet
  import opened Bytes

  type Octets = seq<bv8>

  /** Values of base64 digits, each below 64. */
  type Sextets = seq<bv8>

  // ---- The alphabets ----

  const PAD: bv8 := 0x3d

  /** `isspace` in the C locale. */
  predicate IsSpace(ch: bv8) { ch == 0x20 || 0x09 <= ch <= 0x0d }

  /** The characters of section 5 are taken for those of section 4. */
  function Standard(ch: bv8): bv8 {
    if ch == 0x2d then 0x2b else if ch == 0x5f then 0x2f else ch
  }

  /** Where a character stands in the alphabet of section 4. */
  function Position(ch: bv8): Option<bv8> {
    if 0x41 <= ch <= 0x5a then Some(ch - 0x41)
    else if 0x61 <= ch <= 0x7a then Some(ch - 71)
    else if 0x30 <= ch <= 0x39 then Some(ch + 4)
    else if ch == 0x2b then Some(62)
    else if ch == 0x2f then Some(63)
    else None
  }

  /** Table 1 of RFC 4648, or Table 2 if `url` is set. */
  function Digit(v: bv8, url: bool): (ch: bv8)
    requires v < 64
    ensures Position(Standard(ch)) == Some(v)
    ensures !IsSpace(ch) && ch != 0 && ch != PAD
  {
    if v < 26 then v + 0x41
    else if v < 52 then v + 71
    else if v < 62 then v - 4
    else if v == 62 then if url then 0x2d else 0x2b
    else if url then 0x5f else 0x2f
  }

  /** The tables of RFC 4648 by their characters. */
  lemma DigitIsTable(v: bv8, url: bool)
    requires v < 64
    ensures v < 26 ==> Digit(v, url) == v + ('A' as int) as bv8
    ensures 26 <= v < 52 ==> Digit(v, url) == (v - 26) + ('a' as int) as bv8
    ensures 52 <= v < 62 ==> Digit(v, url) == (v - 52) + ('0' as int) as bv8
    ensures v == 62 ==> Digit(v, url) == if url then ('-' as int) as bv8 else ('+' as int) as bv8
    ensures v == 63 ==> Digit(v, url) == if url then ('_' as int) as bv8 else ('/' as int) as bv8
  {}

  /** No other character is a digit. */
  lemma OnlyDigits(ch: bv8)
    ensures var p := Position(Standard(ch));
      p.Some? ==> p.value < 64 && (ch == Digit(p.value, false) || ch == Digit(p.value, true))
  {}

  /** The digits of the longest readable prefix: it ends at a NUL, at a pad
      character or at the first character that is neither a digit nor a space. */
  function Digits(src: Octets): Sextets {
    if src == [] || src[0] == 0 then []
    else if IsSpace(src[0]) then Digits(src[1..])
    else if src[0] == PAD then []
    else match Position(Standard(src[0]))
      case None => []
      case Some(v) => [v] + Digits(src[1..])
  }

  // ---- From digits to bytes ----

  function Or(a: bv8, b: bv8): bv8 { a | b }

  /** What a digit leaves at the top of a byte when it is the first, second or
      third of its group of four. */
  function Top(a: bv8, place: nat): bv8 {
    if place == 1 then a << 2 else if place == 2 then (a & 0x0f) << 4 else (a & 0x03) << 6
  }

  /** What the digit after it puts at the bottom of that byte. */
  function Bottom(b: bv8, place: nat): bv8 {
    if place == 1 then b >> 4 else if place == 2 then b >> 2 else b
  }

  /** The place of the n-th digit, counted from 0, in its group of four. */
  function Place(n: nat): nat { n % 4 }

  /** The whole bytes in a string of digits. */
  function Decoded(v: Sextets): Octets {
    if v == [] then []
    else
      var n := |v| - 1;
      if Place(n) == 0 then Decoded(v[..n])
      else Decoded(v[..n]) + [Or(Top(v[n - 1], Place(n)), Bottom(v[n], Place(n)))]
  }

  lemma NextDigit(v: Sextets, x: bv8)
    ensures Place(|v|) == 0 ==> Decoded(v + [x]) == Decoded(v)
    ensures Place(|v|) != 0 ==>
      |v| > 0 && Decoded(v + [x]) == Decoded(v) + [Or(Top(v[|v| - 1], Place(|v|)), Bottom(x, Place(|v|)))]
  {
    assert Place(0) == 0;
    hide Or, Top, Bottom, Place;
    assert (v + [x])[..|v|] == v;
    assert |v| > 0 ==> (v + [x])[|v| - 1] == v[|v| - 1];
  }

  /** How many bytes a target of `size` bytes gets of `n` decoded bytes. */
  function Stored(n: nat, target: array?<bv8>): nat {
    if target == null || n < target.Length then n
    else if target.Length % 3 == 0 then target.Length
    else target.Length - 1
  }

  /** Bytes finished by `n` digits. */
  function Whole(n: nat): nat { 3 * n / 4 }

  lemma WholeNext(n: nat)
    ensures Whole(0) == 0 && Whole(n + 1) == if Place(n) == 0 then Whole(n) else Whole(n) + 1
  {
    var q, r := n / 4, n % 4;
    assert n == 4 * q + r;
  }

  lemma {:induction false} WholeMod3(n: nat)
    ensures Whole(n) % 3 == if Place(n) == 0 then 0 else Place(n) - 1
  {
    if n >= 4 {
      WholeMod3(n - 4);
      assert Whole(n) == Whole(n - 4) + 3 && Place(n) == Place(n - 4);
    }
  }

  lemma {:induction false} DecodedLength(v: Sextets)
    ensures |Decoded(v)| == Whole(|v|)
  {
    hide Or, Top, Bottom, Place, Whole;
    WholeNext(0);
    if v != [] {
      DecodedLength(v[..|v| - 1]);
      WholeNext(|v| - 1);
    }
  }

  lemma {:induction false} DecodedPrefix(v: Sextets, w: Sextets)
    ensures Decoded(v) <= Decoded(v + w)
  {
    hide Or, Top, Bottom, Place;
    if w == [] {
      assert v + w == v;
    } else {
      assert v + w == v + w[..|w| - 1] + [w[|w| - 1]];
      DecodedPrefix(v, w[..|w| - 1]);
      NextDigit(v + w[..|w| - 1], w[|w| - 1]);
    }
  }

  // ---- The decoder ----

  /** The digits `v` have been put into the target. */
  ghost predicate Filled(v: Sextets, target: array?<bv8>, tarindex: nat, state: nat)
    reads target
  {
    && tarindex == |Decoded(v)| && state == Place(|v|)
    && (target != null ==> tarindex <= target.Length && target[..tarindex] == Decoded(v))
    && (target != null && state != 0 ==>
          tarindex < target.Length && v != [] && target[tarindex] == Top(v[|v| - 1], state))
  }

  /** One digit goes into the target, unless there is no room for it. */
  method Put(target: array?<bv8>, tarindex: nat, state: nat, x: bv8, ghost v: Sextets)
    returns (index: nat, next: nat, full: bool)
    requires Filled(v, target, tarindex, state)
    modifies target
    ensures full <==> target != null && target.Length <= if state == 0 || state == 3 then tarindex else tarindex + 1
    ensures full ==> target != null && target[..tarindex] == old(target[..tarindex])
    ensures !full ==> Filled(v + [x], target, index, next)
  {
    hide Or, Top, Bottom, Decoded, Place;
    NextDigit(v, x);
    PlaceNext(|v|);
    full, next, index := false, (state + 1) % 4, if state == 0 then tarindex else tarindex + 1;
    if target == null {
    } else if state == 0 {
      full := tarindex >= target.Length;
      if !full {
        target[tarindex] := Top(x, 1);
      }
    } else if state == 1 || state == 2 {
      full := tarindex + 1 >= target.Length;
      if !full {
        target[tarindex] := Or(target[tarindex], Bottom(x, state));
        target[tarindex + 1] := Top(x, state + 1);
        assert target[..tarindex + 1] == old(target[..tarindex]) + [target[tarindex]];
      }
    } else {
      full := tarindex >= target.Length;
      if !full {
        target[tarindex] := Or(target[tarindex], Bottom(x, 3));
        assert target[..tarindex + 1] == old(target[..tarindex]) + [target[tarindex]];
      }
    }
  }

  lemma DigitsStep(src: Octets, i: nat)
    requires i < |src| && src[i] != 0
    ensures IsSpace(src[i]) ==> Digits(src[i..]) == Digits(src[i + 1..])
    ensures !IsSpace(src[i]) && (src[i] == PAD || Position(Standard(src[i])) == None) ==> Digits(src[i..]) == []
    ensures !IsSpace(src[i]) && src[i] != PAD && Position(Standard(src[i])) != None ==>
      Digits(src[i..]) == [Position(Standard(src[i])).value] + Digits(src[i + 1..])
  {
    assert src[i..][1..] == src[i + 1..];
    hide IsSpace, Position, Standard;
  }

  /** `b64_pton_forensic`; `src` is the `srclen` characters. What comes after the
      first pad character does not change the count that is returned. */
  method Pton(src: Octets, target: array?<bv8>) returns (tarindex: nat)
    modifies target
    ensures tarindex == Stored(|Decoded(Digits(src))|, target)
    ensures target != null ==> tarindex <= target.Length && target[..tarindex] == Decoded(Digits(src))[..tarindex]
  {
    hide Or, Top, Bottom, Decoded, Place, Position, Standard, Stored, Whole, Digits, IsSpace;
    tarindex := 0;
    var state, i := 0, 0;
    ghost var v: Sextets := [];
    ghost var all := Digits(src);
    Empty();
    assert src[0..] == src;
    while i < |src| && src[i] != 0
      invariant i <= |src| && v + Digits(src[i..]) == all
      invariant Filled(v, target, tarindex, state)
    {
      var ch := src[i];
      DigitsStep(src, i);
      i := i + 1;
      if IsSpace(ch) {
        continue;
      }
      var pos := if ch == PAD then None else Position(Standard(ch));
      if pos == None {
        break;
      }
      ghost var w := v + [pos.value];
      assert v + ([pos.value] + Digits(src[i..])) == w + Digits(src[i..]);
      Limits(v, pos.value, Digits(src[i..]));
      var index, next, full := Put(target, tarindex, state, pos.value, v);
      if full {
        StoredAtLimit(tarindex, |Decoded(all)|, state, target);
        return tarindex;
      }
      tarindex, state, v := index, next, w;
    }
    if i == |src| || src[i] == 0 {
      DigitsEnd(src[i..]);
    }
    assert v + [] == v;
    Limits(v, 0, []);
    StoredWhole(tarindex, state, target);
  }

  lemma DigitsEnd(src: Octets)
    requires src == [] || src[0] == 0
    ensures Digits(src) == []
  {}

  /** What the count of bytes is once `v` is read, and if `x` follows. */
  lemma Limits(v: Sextets, x: bv8, rest: Sextets)
    ensures Place(|v|) < 4 && |Decoded(v)| % 3 == if Place(|v|) == 0 then 0 else Place(|v|) - 1
    ensures Decoded(v) <= Decoded(v + [x] + rest)
    ensures |Decoded(v + [x] + rest)| >= if Place(|v|) == 0 then |Decoded(v)| else |Decoded(v)| + 1
  {
    PlaceNext(|v|);
    DecodedLength(v);
    WholeMod3(|v|);
    NextDigit(v, x);
    DecodedPrefix(v + [x], rest);
    hide Or, Top, Bottom, Decoded, Place, Whole;
  }

  lemma Empty()
    ensures Decoded([]) == [] && Place(0) == 0
  {}

  lemma PlaceNext(n: nat)
    ensures Place(n) < 4 && Place(n + 1) == (Place(n) + 1) % 4
  {}

  lemma StoredWhole(t: nat, state: nat, target: array?<bv8>)
    requires t % 3 == if state == 0 then 0 else state - 1
    requires target != null ==> t <= target.Length && (state != 0 ==> t < target.Length)
    ensures Stored(t, target) == t
  {}

  lemma StoredAtLimit(t: nat, n: nat, state: nat, target: array?<bv8>)
    requires state < 4 && t % 3 == (if state == 0 then 0 else state - 1)
    requires n >= if state == 0 then t else t + 1
    requires target != null && t <= target.Length && (state != 0 ==> t < target.Length)
    requires target.Length <= if state == 0 then t else if state == 3 then t else t + 1
    ensures Stored(n, target) == t
  {}

  lemma {:induction false} DigitsFit(src: Octets)
    ensures |Digits(src)| <= |src| && Below64(Digits(src))
  {
    if src != [] {
      PositionBelow64(Standard(src[0]));
      DigitsFit(src[1..]);
      hide IsSpace, Position, Standard;
    }
  }

  predicate IsSextet(x: bv8) { x < 64 }

  predicate Below64(v: Sextets) { forall i :: 0 <= i < |v| ==> IsSextet(v[i]) }

  lemma PositionBelow64(ch: bv8)
    ensures Position(ch) != None ==> IsSextet(Position(ch).value)
  {}

  /** The text as the decoder gets it: its length is passed as an `int`. */
  function Passed(text: Octets): (r: Octets)
    ensures r <= text && (r == text <==> |text| < 0x8000_0000)
  {
    IntExact(|text|);
    if ToInt32(|text|) <= 0 then [] else text[..ToInt32(|text|)]
  }

  /** `decode_base64`. Its target is 64 bytes longer than the text and never
      cuts the result short. */
  method DecodeBase64(buffer: Octets, start: nat, length: nat) returns (result: Option<Octets>)
    requires start <= |buffer|
    ensures var text := buffer[start..if length + start > |buffer| then |buffer| else start + length];
      var decoded := Decoded(Digits(Passed(text)));
      result == if |decoded| > 0 then Some(decoded) else None
  {
    hide Decoded, Digits, Passed, ToInt32;
    var srcLen := length;
    if srcLen + start > |buffer| {
      srcLen := |buffer| - start;
    }
    var text := Passed(buffer[start..start + srcLen]);
    var dst := new bv8[srcLen + 64];
    DigitsFit(text);
    DecodedLength(Digits(text));
    var convLen := Pton(text, dst);
    assert convLen == |Decoded(Digits(text))|;
    assert Decoded(Digits(text))[..convLen] == Decoded(Digits(text));
    if convLen > 0 {
      return Some(dst[..convLen]);
    }
    return None;
  }

  /** A length of 2^31 is passed as a negative number, and nothing is decoded. */
  lemma HugeTextIsLost(text: Octets)
    requires |text| == 0x8000_0000
    ensures Passed(text) == [] && Decoded(Digits(Passed(text))) == []
  {
    Empty();
  }

  // ---- The bit string ----

  /** The `n` least significant bits, the most significant of them first. */
  function Bits(x: bv8, n: nat): (r: seq<bool>)
    ensures |r| == n
  {
    if n == 0 then [] else [Bit(x, n - 1)] + Bits(x, n - 1)
  }

  function BitsOfOctets(s: Octets): (r: seq<bool>)
    ensures |r| == 8 * |s|
  {
    if s == [] then [] else BitsOfOctets(s[..|s| - 1]) + Bits(s[|s| - 1], 8)
  }

  function BitsOfDigits(v: Sextets): (r: seq<bool>)
    ensures |r| == 6 * |v|
  {
    if v == [] then [] else BitsOfDigits(v[..|v| - 1]) + Bits(v[|v| - 1], 6)
  }

  /** The bits of the last digit that no whole byte has taken. */
  function Spare(v: Sextets): seq<bool> {
    if v == [] || Place(|v|) == 0 then [] else Bits(v[|v| - 1], 6 - 2 * (Place(|v|) - 1))
  }

  /** The byte in place `place` takes what is spare of one digit and the first
      bits of the next. */
  lemma JoinBits(a: bv8, b: bv8, place: nat)
    requires IsSextet(a) && IsSextet(b) && 1 <= place <= 3
    ensures Bits(a, 8 - 2 * place) + Bits(b, 6)
         == Bits(Or(Top(a, place), Bottom(b, place)), 8) + Bits(b, 6 - 2 * place)
  {
    hide Bit, Bits, Or, Top, Bottom, IsSextet;
    var joined := Or(Top(a, place), Bottom(b, place));
    if place == 1 {
      FirstByte(a, b, joined);
    } else if place == 2 {
      SecondByte(a, b, joined);
    } else {
      ThirdByte(a, b, joined);
    }
    var left := Bits(a, 8 - 2 * place) + Bits(b, 6);
    var right := Bits(joined, 8) + Bits(b, 6 - 2 * place);
    forall i | 0 <= i < |left|
      ensures left[i] == right[i]
    {
      BitsAt(a, 8 - 2 * place, i);
      BitsAt(b, 6, i - (8 - 2 * place));
      BitsAt(joined, 8, i);
      BitsAt(b, 6 - 2 * place, i - 8);
    }
  }

  lemma {:induction false} BitsAt(x: bv8, n: nat, i: int)
    ensures 0 <= i < n ==> Bits(x, n)[i] == Bit(x, n - 1 - i)
  {
    hide Bit;
    if 0 < i < n {
      BitsAt(x, n - 1, i - 1);
    }
  }

  lemma FirstByte(a: bv8, b: bv8, j: bv8)
    requires IsSextet(a) && IsSextet(b) && j == Or(Top(a, 1), Bottom(b, 1))
    ensures Bit(j, 7) == Bit(a, 5) && Bit(j, 6) == Bit(a, 4) && Bit(j, 5) == Bit(a, 3) && Bit(j, 4) == Bit(a, 2)
    ensures Bit(j, 3) == Bit(a, 1) && Bit(j, 2) == Bit(a, 0) && Bit(j, 1) == Bit(b, 5) && Bit(j, 0) == Bit(b, 4)
  {}

  lemma SecondByte(a: bv8, b: bv8, j: bv8)
    requires IsSextet(a) && IsSextet(b) && j == Or(Top(a, 2), Bottom(b, 2))
    ensures Bit(j, 7) == Bit(a, 3) && Bit(j, 6) == Bit(a, 2) && Bit(j, 5) == Bit(a, 1) && Bit(j, 4) == Bit(a, 0)
    ensures Bit(j, 3) == Bit(b, 5) && Bit(j, 2) == Bit(b, 4) && Bit(j, 1) == Bit(b, 3) && Bit(j, 0) == Bit(b, 2)
  {}

  lemma ThirdByte(a: bv8, b: bv8, j: bv8)
    requires IsSextet(a) && IsSextet(b) && j == Or(Top(a, 3), Bottom(b, 3))
    ensures Bit(j, 7) == Bit(a, 1) && Bit(j, 6) == Bit(a, 0) && Bit(j, 5) == Bit(b, 5) && Bit(j, 4) == Bit(b, 4)
    ensures Bit(j, 3) == Bit(b, 3) && Bit(j, 2) == Bit(b, 2) && Bit(j, 1) == Bit(b, 1) && Bit(j, 0) == Bit(b, 0)
  {}

  /** Decoding cuts the bit string of the digits into bytes; the bits that do not
      fill a byte are dropped. */
  lemma {:induction false} DecodedBits(v: Sextets)
    requires Below64(v)
    ensures BitsOfDigits(v) == BitsOfOctets(Decoded(v)) + Spare(v)
  {
    if v != [] {
      var n := |v| - 1;
      DecodedBits(v[..n]);
      assert v[..n] + [v[n]] == v;
      OneMoreDigit(v[..n], v[n]);
    }
  }

  lemma OneMoreDigit(v: Sextets, x: bv8)
    requires Below64(v) && IsSextet(x) && BitsOfDigits(v) == BitsOfOctets(Decoded(v)) + Spare(v)
    ensures BitsOfDigits(v + [x]) == BitsOfOctets(Decoded(v + [x])) + Spare(v + [x])
  {
    hide Bit, IsSextet, Or, Top, Bottom, Bits, Decoded, BitsOfDigits, BitsOfOctets, Place, Spare;
    NextDigit(v, x);
    LastDigit(v, x);
    SpareNext(v, x);
    if Place(|v|) != 0 {
      PlaceNext(|v|);
      var joined := Or(Top(v[|v| - 1], Place(|v|)), Bottom(x, Place(|v|)));
      LastOctet(Decoded(v), joined);
      var whole := BitsOfOctets(Decoded(v));
      assert whole + Spare(v) + Bits(x, 6) == whole + (Spare(v) + Bits(x, 6));
      assert whole + Bits(joined, 8) + Spare(v + [x]) == whole + (Bits(joined, 8) + Spare(v + [x]));
    } else {
      assert BitsOfOctets(Decoded(v)) + [] == BitsOfOctets(Decoded(v));
    }
  }

  lemma SpareNext(v: Sextets, x: bv8)
    requires Below64(v) && IsSextet(x)
    ensures Place(|v|) == 0 ==> Spare(v) == [] && Spare(v + [x]) == Bits(x, 6)
    ensures Place(|v|) != 0 ==> |v| > 0
    ensures Place(|v|) != 0 ==>
      Spare(v) + Bits(x, 6) == Bits(Or(Top(v[|v| - 1], Place(|v|)), Bottom(x, Place(|v|))), 8) + Spare(v + [x])
  {
    hide Bit, Or, Top, Bottom, Place, Bits, IsSextet;
    PlaceNext(|v|);
    Empty();
    if Place(|v|) != 0 {
      JoinBits(v[|v| - 1], x, Place(|v|));
    }
  }

  lemma LastOctet(s: Octets, x: bv8)
    ensures BitsOfOctets(s + [x]) == BitsOfOctets(s) + Bits(x, 8)
  {
    hide Bit;
    assert (s + [x])[..|s|] == s;
  }

  lemma LastDigit(v: Sextets, x: bv8)
    ensures BitsOfDigits(v + [x]) == BitsOfDigits(v) + Bits(x, 6)
  {
    hide Bit;
    assert (v + [x])[..|v|] == v;
  }

  // ---- Decoding undoes encoding ----

  function Digit0(a: bv8): bv8 { a >> 2 }

  function Digit1(a: bv8, b: bv8): bv8 { ((a & 0x03) << 4) | (b >> 4) }

  function Digit2(b: bv8, c: bv8): bv8 { ((b & 0x0f) << 2) | (c >> 6) }

  function Digit3(c: bv8): bv8 { c & 0x3f }

  /** The digits of one group: four for three bytes, and zero bits to fill the
      last digit of a shorter group. */
  function Quantum(t: Octets): Sextets
    requires 1 <= |t| <= 3
  {
    if |t| == 1 then [Digit0(t[0]), Digit1(t[0], 0)]
    else if |t| == 2 then [Digit0(t[0]), Digit1(t[0], t[1]), Digit2(t[1], 0)]
    else [Digit0(t[0]), Digit1(t[0], t[1]), Digit2(t[1], t[2]), Digit3(t[2])]
  }

  /** The size of the last group of `n` bytes. */
  function LastGroup(n: nat): (k: nat)
    requires n > 0
    ensures 1 <= k <= 3 && k <= n
  {
    if n % 3 == 0 then 3 else n % 3
  }

  /** Section 4 of RFC 4648, up to the choice of characters. */
  function Encoded(b: Octets): Sextets {
    if b == [] then [] else
      var k := |b| - LastGroup(|b|);
      Encoded(b[..k]) + Quantum(b[k..])
  }

  function Upper(x: bv8, k: nat): bv8 { if k == 4 then x >> 4 else x >> 6 }

  function Zeros(n: nat): (r: seq<bool>)
    ensures |r| == n
  {
    if n == 0 then [] else [false] + Zeros(n - 1)
  }

  function Filler(n: nat): nat { if n % 3 == 1 then 4 else if n % 3 == 2 then 2 else 0 }

  /** Bits strung together. */
  lemma Spliced(x: bv8, m: nat, y: bv8, k: nat, z: bv8)
    requires forall i :: 0 <= i < k ==> Bit(z, i) == Bit(y, i)
    requires forall i :: 0 <= i < m ==> Bit(z, k + i) == Bit(x, i)
    ensures Bits(x, m) + Bits(y, k) == Bits(z, m + k)
  {
    hide Bit, Bits;
    forall j | 0 <= j < m + k
      ensures (Bits(x, m) + Bits(y, k))[j] == Bits(z, m + k)[j]
    {
      BitsAt(x, m, j);
      BitsAt(y, k, j - m);
      BitsAt(z, m + k, j);
    }
  }

  lemma FirstDigitBits(a: bv8)
    ensures Bits(Digit0(a), 6) + Bits(a, 2) == Bits(a, 8)
  {
    hide Bits;
    Spliced(Digit0(a), 6, a, 2, a);
  }

  lemma SecondDigitBits(a: bv8, b: bv8)
    ensures Bits(a, 2) + Bits(Upper(b, 4), 4) == Bits(Digit1(a, b), 6)
  {
    hide Bits;
    Spliced(a, 2, Upper(b, 4), 4, Digit1(a, b));
  }

  lemma SecondByteBits(b: bv8)
    ensures Bits(Upper(b, 4), 4) + Bits(b, 4) == Bits(b, 8)
  {
    hide Bits;
    Spliced(Upper(b, 4), 4, b, 4, b);
  }

  lemma ThirdDigitBits(b: bv8, c: bv8)
    ensures Bits(b, 4) + Bits(Upper(c, 6), 2) == Bits(Digit2(b, c), 6)
  {
    hide Bits;
    Spliced(b, 4, Upper(c, 6), 2, Digit2(b, c));
  }

  lemma ThirdByteBits(c: bv8)
    ensures Bits(Upper(c, 6), 2) + Bits(Digit3(c), 6) == Bits(c, 8)
  {
    hide Bits;
    Spliced(Upper(c, 6), 2, Digit3(c), 6, c);
  }

  lemma ZeroBits()
    ensures Bits(Upper(0, 4), 4) == Zeros(4) && Bits(Upper(0, 6), 2) == Zeros(2) && Zeros(0) == []
  {}

  lemma OneByte(a: bv8)
    ensures BitsOfDigits([Digit0(a), Digit1(a, 0)]) == Bits(a, 8) + Zeros(4)
  {
    hide Bit, Bits, BitsOfDigits, Zeros, Upper, Digit0, Digit1;
    TwoDigits(Digit0(a), Digit1(a, 0));
    FirstDigitBits(a);
    SecondDigitBits(a, 0);
    ZeroBits();
  }

  lemma TwoBytes(a: bv8, b: bv8)
    ensures BitsOfDigits([Digit0(a), Digit1(a, b), Digit2(b, 0)]) == Bits(a, 8) + Bits(b, 8) + Zeros(2)
  {
    hide Bit, Bits, BitsOfDigits, Zeros, Upper, Digit0, Digit1, Digit2;
    TwoDigits(Digit0(a), Digit1(a, b));
    LastDigit([Digit0(a), Digit1(a, b)], Digit2(b, 0));
    assert [Digit0(a), Digit1(a, b)] + [Digit2(b, 0)] == [Digit0(a), Digit1(a, b), Digit2(b, 0)];
    FirstDigitBits(a);
    SecondDigitBits(a, b);
    SecondByteBits(b);
    ThirdDigitBits(b, 0);
    ZeroBits();
  }

  lemma ThreeBytes(a: bv8, b: bv8, c: bv8)
    ensures BitsOfDigits([Digit0(a), Digit1(a, b), Digit2(b, c), Digit3(c)]) == Bits(a, 8) + Bits(b, 8) + Bits(c, 8)
  {
    hide Bit, Bits, BitsOfDigits, Upper, Digit0, Digit1, Digit2, Digit3;
    TwoDigits(Digit0(a), Digit1(a, b));
    LastDigit([Digit0(a), Digit1(a, b)], Digit2(b, c));
    LastDigit([Digit0(a), Digit1(a, b)] + [Digit2(b, c)], Digit3(c));
    assert [Digit0(a), Digit1(a, b)] + [Digit2(b, c)] + [Digit3(c)]
        == [Digit0(a), Digit1(a, b), Digit2(b, c), Digit3(c)];
    FirstDigitBits(a);
    SecondDigitBits(a, b);
    SecondByteBits(b);
    ThirdDigitBits(b, c);
    ThirdByteBits(c);
  }

  lemma TwoDigits(x: bv8, y: bv8)
    ensures BitsOfDigits([x, y]) == Bits(x, 6) + Bits(y, 6)
  {
    hide Bit, Bits;
    LastDigit([], x);
    LastDigit([x], y);
    assert [] + [x] == [x] && [x] + [y] == [x, y];
    assert BitsOfDigits([]) == [];
  }

  lemma {:induction false} DigitsAppend(v: Sextets, w: Sextets)
    ensures BitsOfDigits(v + w) == BitsOfDigits(v) + BitsOfDigits(w)
  {
    hide Bit, Bits;
    if w == [] {
      assert v + w == v;
    } else {
      DigitsAppend(v, w[..|w| - 1]);
      LastDigit(v + w[..|w| - 1], w[|w| - 1]);
      assert v + w == v + w[..|w| - 1] + [w[|w| - 1]];
    }
  }

  lemma {:induction false} OctetsAppend(s: Octets, t: Octets)
    ensures BitsOfOctets(s + t) == BitsOfOctets(s) + BitsOfOctets(t)
  {
    hide Bit, Bits;
    if t == [] {
      assert s + t == s;
    } else {
      OctetsAppend(s, t[..|t| - 1]);
      LastOctet(s + t[..|t| - 1], t[|t| - 1]);
      assert s + t == s + t[..|t| - 1] + [t[|t| - 1]];
    }
  }

  lemma OctetsOf(a: bv8, b: bv8, c: bv8)
    ensures BitsOfOctets([a]) == Bits(a, 8)
    ensures BitsOfOctets([a, b]) == Bits(a, 8) + Bits(b, 8)
    ensures BitsOfOctets([a, b, c]) == Bits(a, 8) + Bits(b, 8) + Bits(c, 8)
  {
    hide Bit, Bits;
    LastOctet([], a);
    LastOctet([a], b);
    LastOctet([a, b], c);
    assert [] + [a] == [a] && [a] + [b] == [a, b] && [a, b] + [c] == [a, b, c];
    assert BitsOfOctets([]) == [];
  }

  lemma QuantumBits(t: Octets)
    requires 1 <= |t| <= 3
    ensures BitsOfDigits(Quantum(t)) == BitsOfOctets(t) + Zeros(Filler(|t|))
  {
    hide Bit, Bits, BitsOfDigits, BitsOfOctets, Zeros, Digit0, Digit1, Digit2, Digit3;
    if |t| == 1 {
      assert t == [t[0]];
      OctetsOf(t[0], 0, 0);
      OneByte(t[0]);
    } else if |t| == 2 {
      assert t == [t[0], t[1]];
      OctetsOf(t[0], t[1], 0);
      TwoBytes(t[0], t[1]);
    } else {
      assert t == [t[0], t[1], t[2]];
      OctetsOf(t[0], t[1], t[2]);
      ThreeBytes(t[0], t[1], t[2]);
      ZeroBits();
      assert BitsOfOctets(t) + [] == BitsOfOctets(t);
    }
  }

  lemma GroupFiller(n: nat)
    requires n > 0
    ensures Filler(LastGroup(n)) == Filler(n) && Filler(n - LastGroup(n)) == 0
  {}

  /** The digits of a byte string hold its bits, and zeros to fill the last. */
  lemma {:induction false} EncodedBits(b: Octets)
    ensures BitsOfDigits(Encoded(b)) == BitsOfOctets(b) + Zeros(Filler(|b|))
  {
    hide Bit, Bits, BitsOfDigits, BitsOfOctets, Quantum, LastGroup, Filler, Zeros;
    if b == [] {
      Nothing();
    } else {
      var k := |b| - LastGroup(|b|);
      var s, t := b[..k], b[k..];
      EncodedBits(s);
      QuantumBits(t);
      GroupFiller(|b|);
      DigitsAppend(Encoded(s), Quantum(t));
      OctetsAppend(s, t);
      ZeroBits();
      assert s + t == b;
      assert BitsOfOctets(s) + Zeros(0) == BitsOfOctets(s);
    }
  }

  lemma Nothing()
    ensures BitsOfDigits([]) == BitsOfOctets([]) + Zeros(Filler(0))
  {}

  lemma {:induction false} EncodedBelow64(b: Octets)
    ensures Below64(Encoded(b))
  {
    hide Digit0, Digit1, Digit2, Digit3, IsSextet;
    if b != [] {
      var k := |b| - LastGroup(|b|);
      EncodedBelow64(b[..k]);
      var t := b[k..];
      var t1, t2 := if |t| > 1 then t[1] else 0, if |t| > 2 then t[2] else 0;
      DigitsBelow64(t[0], t1, t2);
    }
  }

  lemma DigitsBelow64(a: bv8, b: bv8, c: bv8)
    ensures IsSextet(Digit0(a)) && IsSextet(Digit1(a, b)) && IsSextet(Digit2(b, c)) && IsSextet(Digit3(c))
    ensures IsSextet(Digit1(a, 0)) && IsSextet(Digit2(b, 0))
  {}

  lemma {:induction false} SameBits(s: Octets, t: Octets)
    requires BitsOfOctets(s) == BitsOfOctets(t)
    ensures s == t
  {
    hide Bits;
    assert |s| == |t|;
    if s != [] {
      var n := |s| - 1;
      assert BitsOfOctets(s)[..8 * n] == BitsOfOctets(s[..n]) && BitsOfOctets(t)[..8 * n] == BitsOfOctets(t[..n]);
      assert BitsOfOctets(s)[8 * n..] == Bits(s[n], 8) && BitsOfOctets(t)[8 * n..] == Bits(t[n], 8);
      SameBits(s[..n], t[..n]);
      SameByte(s[n], t[n]);
      assert s == s[..n] + [s[n]] && t == t[..n] + [t[n]];
    }
  }

  lemma SameByte(x: bv8, y: bv8)
    requires Bits(x, 8) == Bits(y, 8)
    ensures x == y
  {
    assert forall i | 0 <= i < 8 :: Bit(x, i) == Bit(y, i) by {
      hide Bit, Bits;
      forall i | 0 <= i < 8
        ensures Bit(x, i) == Bit(y, i)
      {
        BitsAt(x, 8, 7 - i);
        BitsAt(y, 8, 7 - i);
      }
    }
    EightBits(x, y);
  }

  lemma EightBits(x: bv8, y: bv8)
    requires forall i | 0 <= i < 8 :: Bit(x, i) == Bit(y, i)
    ensures x == y
  {
    assert Bit(x, 0) == Bit(y, 0) && Bit(x, 1) == Bit(y, 1) && Bit(x, 2) == Bit(y, 2) && Bit(x, 3) == Bit(y, 3);
    assert Bit(x, 4) == Bit(y, 4) && Bit(x, 5) == Bit(y, 5) && Bit(x, 6) == Bit(y, 6) && Bit(x, 7) == Bit(y, 7);
  }

  /** Decoding the digits of a byte string gives it back. */
  lemma DecodeEncoded(b: Octets)
    ensures Decoded(Encoded(b)) == b
  {
    hide Bit, Bits, BitsOfDigits, BitsOfOctets, Encoded, Decoded, Place, IsSextet;
    var v := Encoded(b);
    EncodedBelow64(b);
    EncodedBits(b);
    DecodedBits(v);
    DecodedLength(v);
    assert 6 * |v| == 8 * |b| + Filler(|b|);
    assert |Decoded(v)| == |b|;
    assert BitsOfOctets(Decoded(v)) == BitsOfDigits(v)[..8 * |b|] == BitsOfOctets(b);
    SameBits(Decoded(v), b);
  }

  // ---- Texts ----

  function Text(v: Sextets, url: bool): Octets
    requires Below64(v)
  {
    if v == [] then [] else [Digit(v[0], url)] + Text(v[1..], url)
  }

  /** A byte string in one of the two alphabets, without padding. */
  function Base64Text(b: Octets, url: bool): Octets {
    EncodedBelow64(b);
    Text(Encoded(b), url)
  }

  /** Blank, tab, line feed, vertical tab, form feed or carriage return. */
  predicate White(ch: bv8) { ch == 32 || ch == 9 || ch == 10 || ch == 11 || ch == 12 || ch == 13 }

  lemma WhiteIsSpace(ch: bv8)
    ensures White(ch) <==> IsSpace(ch)
  {}

  /** A text without its white space. */
  function Strip(src: Octets): Octets {
    if src == [] then []
    else if White(src[0]) then Strip(src[1..])
    else [src[0]] + Strip(src[1..])
  }

  lemma {:induction false} DigitsOfStripped(src: Octets)
    ensures Digits(Strip(src)) == Digits(src)
  {
    hide Position, Standard, White, IsSpace;
    if src != [] {
      WhiteIsSpace(src[0]);
      DigitsOfStripped(src[1..]);
      assert ([src[0]] + Strip(src[1..]))[1..] == Strip(src[1..]);
      NulIsNoSpace();
    }
  }

  lemma NulIsNoSpace()
    ensures !IsSpace(0)
  {}

  lemma {:induction false} DigitsOfText(v: Sextets, url: bool, rest: Octets)
    requires Below64(v) && (rest == [] || rest[0] == PAD || rest[0] == 0)
    ensures Digits(Text(v, url) + rest) == v
  {
    hide Position, Standard, Digit;
    if v == [] {
      assert Text(v, url) + rest == rest;
      PadIsNoSpace();
    } else {
      DigitsOfText(v[1..], url, rest);
      assert (Text(v, url) + rest)[1..] == Text(v[1..], url) + rest;
    }
  }

  lemma PadIsNoSpace()
    ensures !IsSpace(PAD)
  {}

  /** Decoding undoes encoding for every byte string, in both alphabets, padded
      or not, with white space anywhere and anything after the padding. */
  lemma RoundTrip(b: Octets, url: bool, src: Octets, rest: Octets)
    requires Strip(src) == Base64Text(b, url) + rest
    requires rest == [] || rest[0] == PAD || rest[0] == 0
    ensures Decoded(Digits(src)) == b
  {
    EncodedBelow64(b);
    assert Base64Text(b, url) == Text(Encoded(b), url);
    hide *;
    DigitsOfStripped(src);
    DigitsOfText(Encoded(b), url, rest);
    DecodeEncoded(b);
  }

  /** A character at which reading stops. */
  predicate Stops(ch: bv8) {
    ch == 0 || (!IsSpace(ch) && (ch == PAD || Position(Standard(ch)) == None))
  }

  /** For any text, what counts is the part before the first character at which
      reading stops; every character of it that is no space is a digit. */
  lemma {:induction false} LongestPrefix(src: Octets, k: nat)
    requires k <= |src| && (k < |src| ==> Stops(src[k]))
    requires forall i :: 0 <= i < k ==> !Stops(src[i])
    ensures Digits(src) == Digits(src[..k]) && |Digits(src)| == |Strip(src[..k])|
  {
    if k > 0 {
      LongestPrefix(src[1..], k - 1);
      assert src[1..][..k - 1] == src[..k][1..];
      assert src[..k][0] == src[0] && !Stops(src[0]);
    }
    hide IsSpace, Position, Standard;
  }
}

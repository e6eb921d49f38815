/** Base-58 decoding into a 25-byte number, as `src/scan_ccns2.cpp` does for Bitcoin addresses. */
module Base58 {
  import opened Arithmetic
  import opened Bytes

  const NUMERALS := "123456789"
  const CAPITALS := "ABCDEFGHJKLMNPQRSTUVWXYZ"
  const SMALL := "abcdefghijkmnopqrstuvwxyz"

  function Alphabet(): string {
    NUMERALS + CAPITALS + SMALL
  }

  const OUT_SIZE := 25

  /** The digit value of a character code, or -1. */
  function DigitValue(c: int): int {
    if 49 <= c <= 57 then c - 49
    else if 65 <= c <= 72 then c - 56
    else if 74 <= c <= 78 then c - 57
    else if 80 <= c <= 90 then c - 58
    else if 97 <= c <= 107 then c - 64
    else if 109 <= c <= 122 then c - 65
    else -1
  }

  /** The character code of a digit. */
  function Character(d: nat): (c: byte)
    requires d < 58
    ensures DigitValue(c) == d && c != 0
  {
    if d < 9 then d + 49
    else if d < 17 then d + 56
    else if d < 22 then d + 57
    else if d < 33 then d + 58
    else if d < 44 then d + 64
    else d + 65
  }

  /** `DigitValue` is the position in the alphabet. */
  lemma AlphabetValues(i: nat)
    requires i < |Alphabet()|
    ensures |Alphabet()| == 58
    ensures Alphabet()[i] as int == Character(i)
    ensures forall c: int :: DigitValue(c) == i <==> c == Alphabet()[i] as int
  {
    if i < 9 {
      NumeralAt(i);
    } else if i < 33 {
      CapitalAt(i - 9);
    } else {
      SmallAt(i - 33);
    }
  }

  lemma NumeralAt(i: nat)
    requires i < |NUMERALS|
    ensures NUMERALS[i] as int == Character(i)
  {
  }

  lemma CapitalAt(i: nat)
    requires i < |CAPITALS|
    ensures CAPITALS[i] as int == Character(9 + i)
  {
  }

  lemma SmallAt(i: nat)
    requires i < |SMALL|
    ensures SMALL[i] as int == Character(33 + i)
  {
  }

  /** The table `build_unbase58` fills. */
  method BuildUnbase58(vals: array<int>)
    requires vals.Length == 256
    modifies vals
    ensures forall c :: 0 <= c < 256 ==> vals[c] == DigitValue(c)
  {
    var chars := Alphabet();
    assert |chars| == 58;
    hide DigitValue, Character, Alphabet;
    for k := 0 to 256
      invariant forall c :: 0 <= c < k ==> vals[c] == -1
    {
      vals[k] := -1;
    }
    for i := 0 to |chars|
      invariant forall c :: 0 <= c < 256 ==> vals[c] == if 0 <= DigitValue(c) < i then DigitValue(c) else -1
    {
      AlphabetValues(i);
      vals[chars[i] as int] := i;
    }
    DigitRange();
  }

  lemma DigitRange()
    ensures forall c :: -1 <= DigitValue(c) < 58
  {}

  // ---- Numbers ----

  function Pow256(n: nat): (r: nat)
    ensures r >= 1
  {
    if n == 0 then 1 else 256 * Pow256(n - 1)
  }

  /** The big-endian value of a byte string. */
  function Value(s: bytes): nat {
    if s == [] then 0 else s[0] as nat * Pow256(|s| - 1) + Value(s[1..])
  }

  /** The text proper: up to the first NUL, at most `len` characters. */
  function TextOf(s: bytes, len: nat): bytes {
    if s == [] || len == 0 || s[0] == 0 then [] else [s[0]] + TextOf(s[1..], len - 1)
  }

  predicate AllDigits(t: bytes) { forall i :: 0 <= i < |t| ==> DigitValue(t[i]) >= 0 }

  /** The base-58 value of a text of digits. */
  function Value58(t: bytes): nat
    requires AllDigits(t)
  {
    if t == [] then 0 else 58 * Value58(t[..|t| - 1]) + DigitValue(t[|t| - 1])
  }

  lemma {:induction false} Value58Grows(t: bytes, k: nat)
    requires AllDigits(t) && k <= |t|
    ensures Value58(t[..k]) <= Value58(t)
  {
    if k < |t| {
      assert t[..|t| - 1][..k] == t[..k];
      Value58Grows(t[..|t| - 1], k);
    } else {
      assert t[..k] == t;
    }
  }

  lemma {:induction false} ValueBound(s: bytes)
    ensures Value(s) < Pow256(|s|)
  {
    if s != [] {
      ValueBound(s[1..]);
      Digit256(s[0], Pow256(|s| - 1), Value(s[1..]));
    }
  }

  lemma Digit256(d: nat, p: nat, v: nat)
    requires d < 256 && v < p
    ensures d * p + v < 256 * p
  {
    assert (255 - d) * p >= 0;
    assert (255 - d) * p == 255 * p - d * p;
  }

  // ---- Multiply and carry in place ----

  /** One byte of the multiplication by 58. */
  lemma CarryStep(c: nat, p: nat, d: nat, tail: nat, old': nat, c0: nat)
    requires c * p + tail == 58 * old' + c0
    ensures var t := c + 58 * d; t / 256 * (256 * p) + (t % 256 * p + tail) == 58 * (d * p + old') + c0
  {
    var t := c + 58 * d;
    var q, r := t / 256, t % 256;
    assert t == 256 * q + r;
    assert q * (256 * p) + r * p == t * p by {
      assert (256 * q + r) * p == 256 * q * p + r * p;
      assert 256 * q * p == q * (256 * p);
    }
    assert t * p == c * p + 58 * d * p;
    assert 58 * d * p == 58 * (d * p);
  }

  /** Multiplies the number in `out` by 58 and adds a digit; the carry out is returned. */
  method MulAdd(out: array<byte>, digit: nat) returns (carry: nat)
    requires out.Length == OUT_SIZE
    modifies out
    ensures carry * Pow256(OUT_SIZE) + Value(out[..]) == 58 * Value(old(out[..])) + digit
  {
    hide Pow256;
    ghost var before := out[..];
    var c: nat := digit;
    var j := OUT_SIZE;
    assert before[25..] == [];
    PowZero();
    while j > 0
      invariant 0 <= j <= OUT_SIZE
      invariant out[..j] == before[..j]
      invariant c * Pow256(OUT_SIZE - j) + Value(out[j..]) == 58 * Value(before[j..]) + digit
    {
      j := j - 1;
      ghost var tail := out[j + 1..];
      assert out[j] == out[..j + 1][j] == before[j];
      CarryStep(c, Pow256(OUT_SIZE - j - 1), out[j] as nat, Value(tail), Value(before[j + 1..]), digit);
      ValueCons(before[j..]);
      c := c + 58 * out[j] as nat;
      out[j] := c % 256;
      assert out[j..] == [out[j]] + tail;
      ValueCons(out[j..]);
      PowNext(OUT_SIZE - j - 1);
      c := c / 256;
    }
    assert out[0..] == out[..] && before[0..] == before;
    return c;
  }

  lemma PowZero()
    ensures Pow256(0) == 1
  {}

  lemma PowNext(n: nat)
    ensures Pow256(n + 1) == 256 * Pow256(n)
  {}

  lemma ValueCons(s: bytes)
    requires s != []
    ensures Value(s) == s[0] as nat * Pow256(|s| - 1) + Value(s[1..])
  {}

  /** A number that spills over does not fit below `p`. */
  lemma Spill(carry: nat, p: nat, v: nat, total: nat)
    requires carry * p + v == total && v < p
    ensures carry == 0 <==> total < p
  {
    if carry > 0 {
      assert carry * p == (carry - 1) * p + p;
      assert (carry - 1) * p >= 0;
    }
  }

  /** `unbase58`. The text ends at a NUL or after `len` characters, one of which is in `s`. */
  method Unbase58(vals: array<int>, s: bytes, out: array<byte>, len: nat) returns (ok: bool)
    requires vals.Length == 256 && forall c :: 0 <= c < 256 ==> vals[c] == DigitValue(c)
    requires out.Length == OUT_SIZE && (0 in s || len < |s|)
    modifies out
    ensures ok <==> AllDigits(TextOf(s, len)) && Value58(TextOf(s, len)) < Pow256(OUT_SIZE)
    ensures ok ==> Value(out[..]) == Value58(TextOf(s, len))
  {
    hide Pow256, Value, DigitValue, TextOf;
    for k := 0 to OUT_SIZE
      invariant forall j :: 0 <= j < k ==> out[j] == 0
    {
      out[k] := 0;
    }
    ValueZero(out[..]);
    ghost var text := TextOf(s, len);
    var i := 0;
    TextPrefix(s, len, 0);
    assert text[..0] == [];
    while s[i] != 0 && i < len
      invariant i < |s| && i <= |text|
      invariant s[i] != 0 && i < len <==> i < |text|
      invariant AllDigits(text[..i]) && Value(out[..]) == Value58(text[..i])
      decreases |text| - i
    {
      TextPrefix(s, len, i);
      assert text[i] == s[i];
      assert text[..i + 1][..i] == text[..i];
      var c := vals[s[i]];
      if c == -1 {
        NotDigit(text, i);
        return false;
      }
      DigitKnown(s[i]);
      assert AllDigits(text[..i + 1]);
      var carry := MulAdd(out, c);
      ValueBound(out[..]);
      Spill(carry, Pow256(OUT_SIZE), Value(out[..]), Value58(text[..i + 1]));
      if carry != 0 {
        if AllDigits(text) {
          Value58Grows(text, i + 1);
        }
        return false;
      }
      TextPrefix(s, len, i + 1);
      i := i + 1;
    }
    assert text[..i] == text;
    ValueBound(out[..]);
    return true;
  }

  lemma NotDigit(t: bytes, i: nat)
    requires i < |t| && DigitValue(t[i]) == -1
    ensures !AllDigits(t)
  {}

  lemma DigitKnown(c: int)
    ensures DigitValue(c) >= -1
  {}

  lemma {:induction false} ValueZero(s: bytes)
    requires forall i :: 0 <= i < |s| ==> s[i] == 0
    ensures Value(s) == 0
  {
    if s != [] {
      ValueZero(s[1..]);
    }
  }

  /** The text agrees with the buffer up to its end, which the loop condition finds. */
  lemma {:induction false} TextPrefix(s: bytes, len: nat, i: nat)
    requires 0 in s || len < |s|
    ensures i <= |TextOf(s, len)| ==> i < |s| && (i < |TextOf(s, len)| <==> s[i] != 0 && i < len)
    ensures i < |TextOf(s, len)| ==> TextOf(s, len)[i] == s[i]
    decreases i
  {
    if i > 0 && s != [] && len > 0 && s[0] != 0 {
      assert 0 in s ==> 0 in s[1..];
      TextPrefix(s[1..], len - 1, i - 1);
    }
  }

  // ---- Decoding undoes encoding ----

  /** The base-58 digits of a number. */
  function Encode58(n: nat): bytes {
    if n == 0 then [] else Encode58(n / 58) + [Character(n % 58)]
  }

  lemma {:induction false} EncodeValue(n: nat)
    ensures AllDigits(Encode58(n)) && Value58(Encode58(n)) == n
    ensures forall i :: 0 <= i < |Encode58(n)| ==> Encode58(n)[i] != 0
  {
    if n > 0 {
      EncodeValue(n / 58);
      var t := Encode58(n);
      assert t[..|t| - 1] == Encode58(n / 58);
    }
  }

  /** A text and a NUL after it are read back as that text, whatever follows. */
  lemma {:induction false} TextBeforeNul(t: bytes, rest: bytes, len: nat)
    requires |t| <= len && forall i :: 0 <= i < |t| ==> t[i] != 0
    ensures TextOf(t + [0] + rest, len) == t
  {
    if t != [] {
      TextBeforeNul(t[1..], rest, len - 1);
      assert (t + [0] + rest)[1..] == t[1..] + [0] + rest;
    }
  }

  lemma FirstByteSettled(a: bytes, b: bytes)
    requires |a| == |b| > 0 && Value(a) == Value(b)
    ensures a[0] == b[0] && Value(a[1..]) == Value(b[1..])
  {
    hide Value, Pow256;
    ValueBound(a[1..]);
    ValueBound(b[1..]);
    ValueCons(a);
    ValueCons(b);
    var p := Pow256(|a| - 1);
    SameQuotient(p, a[0], Value(a[1..]), b[0], Value(b[1..]));
  }

  /** Big-endian byte strings of one length with one value are equal, so the value settles all 25 bytes. */
  lemma {:induction false} ValueDeterminesBytes(a: bytes, b: bytes)
    requires |a| == |b| && Value(a) == Value(b)
    ensures a == b
  {
    if a != [] {
      FirstByteSettled(a, b);
      ValueDeterminesBytes(a[1..], b[1..]);
      assert a == [a[0]] + a[1..] && b == [b[0]] + b[1..];
    }
  }

  /** The text of a byte string: a `1` for every zero byte it starts with, then the digits of its value. */
  function EncodeBytes(s: bytes): bytes { Ones(LeadingZeros(s)) + Encode58(Value(s)) }

  function LeadingZeros(s: bytes): nat {
    if s == [] || s[0] != 0 then 0 else 1 + LeadingZeros(s[1..])
  }

  function Ones(n: nat): bytes { seq(n, _ => 49) }

  lemma {:induction false} ZerosCounted(n: nat, rest: bytes)
    requires rest == [] || rest[0] != 0
    ensures LeadingZeros(seq(n, _ => 0) + rest) == n && Value(seq(n, _ => 0) + rest) == Value(rest)
  {
    var s: bytes := seq(n, _ => 0) + rest;
    if n == 0 {
      assert s == rest;
    } else {
      assert s[1..] == seq(n - 1, _ => 0) + rest;
      ZerosCounted(n - 1, rest);
      assert Value(s) == 0 * Pow256(|s| - 1) + Value(s[1..]);
    }
  }

  /** Bytes that begin with exactly `n` zeros have a text of `n` times `1` and the digits of the rest. */
  lemma ZerosBecomeOnes(n: nat, rest: bytes)
    requires rest == [] || rest[0] != 0
    ensures EncodeBytes(seq(n, _ => 0) + rest) == seq(n, _ => 49) + Encode58(Value(rest))
  {
    hide Value, Encode58, LeadingZeros;
    ZerosCounted(n, rest);
  }

  /** Leading `1`s leave the value as it is. */
  lemma {:induction false} OnesChangeNothing(n: nat, t: bytes)
    requires AllDigits(t)
    ensures AllDigits(Ones(n) + t) && Value58(Ones(n) + t) == Value58(t)
    decreases n, |t|
  {
    var whole := Ones(n) + t;
    if t != [] {
      assert whole[..|whole| - 1] == Ones(n) + t[..|t| - 1];
      OnesChangeNothing(n, t[..|t| - 1]);
    } else if n > 0 {
      assert whole[..|whole| - 1] == Ones(n - 1) + [];
      OnesChangeNothing(n - 1, []);
    } else {
      assert whole == [];
    }
  }

  /** Decoding undoes encoding, for every 25 bytes: their text and its NUL meet the conditions under which `Unbase58`
      succeeds, and the value it then leaves in `out` is the value of those bytes and of no others. */
  lemma DecodeUndoesEncode(s: bytes, rest: bytes, len: nat, out: bytes)
    requires |s| == |out| == OUT_SIZE && |EncodeBytes(s)| <= len
    ensures var t := TextOf(EncodeBytes(s) + [0] + rest, len);
      AllDigits(t) && Value58(t) < Pow256(OUT_SIZE) && (Value(out) == Value58(t) <==> out == s)
  {
    hide Value, Value58, TextOf, Pow256, Encode58;
    EncodeValue(Value(s));
    OnesChangeNothing(LeadingZeros(s), Encode58(Value(s)));
    TextBeforeNul(EncodeBytes(s), rest, len);
    ValueBound(s);
    if Value(out) == Value(s) {
      ValueDeterminesBytes(out, s);
    }
  }
}

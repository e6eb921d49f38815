/**
 The S-box of `src/scan_aes.cpp`, against section 5.1.1 of FIPS 197: the inverse in
 the field, then an affine step over its bits.
 */
module AesSbox {
  import opened AesField
  import opened AesInverse
  import opened AesSchedule
  import opened Octet

  /** One bit circular rotate to the left. */
  function RotateLeft(s: bv8): bv8 { (s << 1) | (s >> 7) }

  function Rotated(s: bv8, n: nat): bv8 { if n == 0 then s else RotateLeft(Rotated(s, n - 1)) }

  /** The sum of `s` and its first `n` rotations. */
  function RotationSum(s: bv8, n: nat): bv8 {
    if n == 0 then s else Xor(RotationSum(s, n - 1), Rotated(s, n))
  }

  function Affine(b: bv8): bv8 { Xor(RotationSum(b, 4), 99) }

  function SubByte(b: bv8): bv8 { Affine(GmulInverse(b)) }

  /** The table the code works with. */
  function CodeSbox(): Sbox { seq(256, i requires 0 <= i < 256 => SubByte(i as bv8)) }

  method SboxFunction(b: bv8) returns (x: bv8)
    ensures x == SubByte(b)
  {
    hide RotateLeft, Xor, GmulInverse;
    ghost var inverse := GmulInverse(b);
    var s := GmulInverse(b);
    x := s;
    for c := 0 to 4
      invariant s == Rotated(inverse, c) && x == RotationSum(inverse, c)
    {
      s := RotateLeft(s);
      x := Xor(x, s);
    }
    x := Xor(x, 99);
  }

  method SboxSetup(sbox: array<bv8>)
    requires sbox.Length == 256
    modifies sbox
    ensures sbox[..] == CodeSbox()
  {
    hide SubByte;
    for i := 0 to 256
      invariant forall j :: 0 <= j < i ==> sbox[j] == SubByte(j as bv8)
    {
      var x := SboxFunction(i as bv8);
      sbox[i] := x;
    }
  }

  /** Bits 4 to 7 after bit `i`, going round, and bit `i`: what equation (5.1) of FIPS 197 adds up. */
  predicate Sum5(b: bv8, i: nat) {
    Bit(b, i) != (Bit(b, (i + 4) % 8) != (Bit(b, (i + 5) % 8) != (Bit(b, (i + 6) % 8) != Bit(b, (i + 7) % 8))))
  }

  lemma RotationSumIs(b: bv8)
    ensures RotationSum(b, 4) == FiveTerms(b)
  {
    hide Xor, RotateLeft;
    assert Rotated(b, 0) == b && Rotated(b, 1) == RotateLeft(b);
    assert Rotated(b, 2) == RotateLeft(RotateLeft(b));
    assert Rotated(b, 3) == RotateLeft(RotateLeft(RotateLeft(b)));
    assert Rotated(b, 4) == RotateLeft(RotateLeft(RotateLeft(RotateLeft(b))));
    assert RotationSum(b, 1) == Xor(b, Rotated(b, 1));
    assert RotationSum(b, 2) == Xor(RotationSum(b, 1), Rotated(b, 2));
    assert RotationSum(b, 3) == Xor(RotationSum(b, 2), Rotated(b, 3));
  }

  function FiveTerms(b: bv8): bv8 {
    var r1 := RotateLeft(b);
    var r2 := RotateLeft(r1);
    var r3 := RotateLeft(r2);
    var r4 := RotateLeft(r3);
    Xor(Xor(Xor(Xor(b, r1), r2), r3), r4)
  }

  lemma LowBit(b: bv8, i: nat)
    requires i < 4
    ensures Bit(Xor(FiveTerms(b), 99), i) == (Sum5(b, i) != Bit(99, i))
  {}

  lemma HighBit(b: bv8, i: nat)
    requires 4 <= i < 8
    ensures Bit(Xor(FiveTerms(b), 99), i) == (Sum5(b, i) != Bit(99, i))
  {}

  /** Equation (5.1) of FIPS 197, for every bit: the affine step over GF(2) with the constant 63 (hexadecimal). */
  lemma AffineIsFips(b: bv8, i: nat)
    requires i < 8
    ensures Bit(Affine(b), i) == (Sum5(b, i) != Bit(0x63, i))
  {
    hide RotationSum, FiveTerms, Xor, Bit, Sum5;
    RotationSumIs(b);
    if i < 4 {
      LowBit(b, i);
    } else {
      HighBit(b, i);
    }
  }

  /** The affine step loses nothing, so the S-box is a permutation if the inverse table is. */
  lemma AffineInjective(a: bv8, b: bv8)
    requires Affine(a) == Affine(b)
    ensures a == b
  {
    RotationSumIs(a);
    RotationSumIs(b);
    hide RotationSum;
  }

  /** `x` is what section 5.1.1 of FIPS 197 puts in the place of `b`: with the
      multiplicative inverse of `b`, or 0 for 0, every bit of `x` is given by equation (5.1). */
  ghost predicate Fips(b: bv8, x: bv8) {
    exists inverse ::
      && (if b == 0 then inverse == 0 else Times(b, inverse) == 1)
      && forall i: nat :: i < 8 ==> Bit(x, i) == (Sum5(inverse, i) != Bit(0x63, i))
  }

  lemma BitsDecide(x: bv8, y: bv8)
    requires forall i: nat :: i < 8 ==> Bit(x, i) == Bit(y, i)
    ensures x == y
  {
    assert Bit(x, 0) == Bit(y, 0) && Bit(x, 1) == Bit(y, 1) && Bit(x, 2) == Bit(y, 2) && Bit(x, 3) == Bit(y, 3);
    assert Bit(x, 4) == Bit(y, 4) && Bit(x, 5) == Bit(y, 5) && Bit(x, 6) == Bit(y, 6) && Bit(x, 7) == Bit(y, 7);
  }

  /** The table of the code is the S-box of FIPS 197. */
  lemma SboxIsFips(b: bv8, x: bv8)
    ensures x == Sub(CodeSbox(), b) <==> Fips(b, x)
  {
    hide Bit, Sum5, Affine, GmulInverse, Times;
    SubIs(b);
    var inverse := GmulInverse(b);
    InverseExactly(b, inverse);
    forall i: nat | i < 8 ensures Bit(Affine(inverse), i) == (Sum5(inverse, i) != Bit(0x63, i)) {
      AffineIsFips(inverse, i);
    }
    if Fips(b, x) {
      var other :| (if b == 0 then other == 0 else Times(b, other) == 1)
                && forall i: nat :: i < 8 ==> Bit(x, i) == (Sum5(other, i) != Bit(0x63, i));
      InverseExactly(b, other);
      BitsDecide(x, Affine(inverse));
    }
  }

  lemma SubIs(b: bv8)
    ensures Sub(CodeSbox(), b) == SubByte(b)
  {
    hide SubByte;
    assert (b as nat) as bv8 == b;
  }

  /** It is a permutation. */
  lemma SboxInjective(a: bv8, b: bv8)
    requires Sub(CodeSbox(), a) == Sub(CodeSbox(), b)
    ensures a == b
  {
    hide Affine, GmulInverse, Times;
    SubIs(a);
    SubIs(b);
    AffineInjective(GmulInverse(a), GmulInverse(b));
    var x := GmulInverse(a);
    InverseExactly(a, x);
    InverseExactly(b, x);
    TimesZero(a);
    TimesZero(b);
    if a != 0 && b != 0 {
      Commutes(a, x);
      Commutes(b, x);
      InverseUnique(x, a, b);
    }
  }

  lemma TimesZero(a: bv8)
    ensures Times(a, 0) == 0
  {
    NoBits(a, 8);
  }
}

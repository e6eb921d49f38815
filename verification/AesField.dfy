/** The field of section 4.2 of FIPS 197, in which `gmul` of `src/scan_aes.cpp` multiplies. */
module AesField {

  function Xor(a: bv8, b: bv8): bv8 { a ^ b }

  /** Multiplication by x in the field of section 4.2 of FIPS 197. */
  function XTime(a: bv8): bv8 { if a & 0x80 == 0x80 then (a << 1) ^ 0x1b else a << 1 }

  predicate Odd(b: bv8) { b & 1 == 1 }

  function Half(b: bv8): bv8 { b >> 1 }

  /** The sum of `a` times x to the power `i` over the bits `i` of `b`. */
  function Product(a: bv8, b: bv8, n: nat): bv8
    decreases n
  {
    if n == 0 then 0 else Xor(if Odd(b) then a else 0, Product(XTime(a), Half(b), n - 1))
  }

  /** `gmul`: multiplication in the field, a bit of `b` at a time. */
  method Gmul(a0: bv8, b0: bv8) returns (p: bv8)
    ensures p == Product(a0, b0, 8)
  {
    hide XTime, Odd, Half, Xor;
    var a, b := a0, b0;
    p := 0;
    XorIdentities(Product(a, b, 8), 0, 0);
    for counter := 0 to 8
      invariant Xor(p, Product(a, b, 8 - counter)) == Product(a0, b0, 8)
    {
      XorIdentities(p, if Odd(b) then a else 0, Product(XTime(a), Half(b), 7 - counter));
      if Odd(b) {
        p := Xor(p, a);
      }
      a := Doubled(a);
      b := Half(b);
    }
    XorIdentities(p, 0, 0);
  }

  /** The shift of `gmul` with its conditional reduction. */
  method Doubled(a: bv8) returns (r: bv8)
    ensures r == XTime(a)
  {
    var hiBitSet := a & 0x80;
    r := a << 1;
    if hiBitSet == 0x80 {
      r := r ^ 0x1b;
    }
  }

  lemma XorIdentities(p: bv8, x: bv8, y: bv8)
    ensures Xor(p, Xor(x, y)) == Xor(Xor(p, x), y) && Xor(p, 0) == p && Xor(0, p) == p
  {}

  lemma TimesTwo(a: bv8)
    ensures Product(a, 2, 8) == XTime(a)
  {
    hide XTime, Xor;
    NoBits(XTime(XTime(a)), 6);
    XorIdentities(XTime(a), 0, 0);
    assert Product(XTime(a), 1, 7) == Xor(XTime(a), Product(XTime(XTime(a)), 0, 6));
    assert Product(a, 2, 8) == Xor(0, Product(XTime(a), 1, 7));
  }

  lemma {:induction false} NoBits(a: bv8, n: nat)
    ensures Product(a, 0, n) == 0
    decreases n
  {
    hide XTime, Xor;
    if n > 0 {
      NoBits(XTime(a), n - 1);
      XorIdentities(0, 0, 0);
      assert Half(0) == 0 && !Odd(0);
    }
  }

  // ---- It is a field ----

  function Times(a: bv8, b: bv8): bv8 { Product(a, b, 8) }

  lemma XorLaws(a: bv8, b: bv8, c: bv8, d: bv8)
    ensures Xor(Xor(a, b), Xor(c, d)) == Xor(Xor(a, c), Xor(b, d))
    ensures Xor(a, b) == Xor(b, a) && Xor(a, a) == 0 && Xor(a, 0) == a
  {}

  function Left(a: bv8): bv8 { a << 1 }

  predicate Carries(a: bv8) { a & 0x80 == 0x80 }

  lemma LeftLinear(a: bv8, b: bv8)
    ensures Left(Xor(a, b)) == Xor(Left(a), Left(b)) && (Carries(Xor(a, b)) <==> Carries(a) != Carries(b))
  {}

  lemma XTimeCases(a: bv8)
    ensures XTime(a) == if Carries(a) then Xor(Left(a), 0x1b) else Left(a)
  {}

  lemma XTimeLinear(a: bv8, b: bv8)
    ensures XTime(Xor(a, b)) == Xor(XTime(a), XTime(b)) && XTime(0) == 0
  {
    hide XTime, Xor, Left, Carries;
    XTimeCases(a);
    XTimeCases(b);
    XTimeCases(Xor(a, b));
    LeftLinear(a, b);
    LeftLinear(0, 0);
    XTimeCases(0);
    var l, m := Left(a), Left(b);
    XorLaws(l, 0, m, 0x1b);
    XorLaws(l, 0x1b, m, 0);
    XorLaws(l, 0x1b, m, 0x1b);
    XorLaws(m, 0, 0, 0);
    XorLaws(Xor(l, m), 0, 0, 0);
    XorLaws(0x1b, 0, 0, 0);
    XorLaws(0, 0x1b, 0, 0);
    XorLaws(Left(0), 0, 0, 0);
  }

  lemma HalfLinear(a: bv8, b: bv8)
    ensures Half(Xor(a, b)) == Xor(Half(a), Half(b)) && (Odd(Xor(a, b)) <==> Odd(a) != Odd(b))
  {}

  /** Multiplication distributes over addition on the left ... */
  lemma {:induction false} ProductLeft(a: bv8, b: bv8, c: bv8, n: nat)
    ensures Product(Xor(a, b), c, n) == Xor(Product(a, c, n), Product(b, c, n))
    decreases n
  {
    hide Xor, XTime, Odd, Half;
    if n == 0 {
      XorLaws(0, 0, 0, 0);
    } else {
      XTimeLinear(a, b);
      ProductLeft(XTime(a), XTime(b), Half(c), n - 1);
      var p, q := Product(XTime(a), Half(c), n - 1), Product(XTime(b), Half(c), n - 1);
      XorLaws(a, b, p, q);
      XorLaws(0, 0, p, q);
      XorLaws(0, 0, 0, 0);
    }
  }

  /** ... and on the right. */
  lemma {:induction false} ProductRight(a: bv8, b: bv8, c: bv8, n: nat)
    ensures Product(a, Xor(b, c), n) == Xor(Product(a, b, n), Product(a, c, n))
    decreases n
  {
    hide Xor, XTime, Odd, Half;
    if n == 0 {
      XorLaws(0, 0, 0, 0);
    } else {
      HalfLinear(b, c);
      ProductRight(XTime(a), Half(b), Half(c), n - 1);
      var p, q := Product(XTime(a), Half(b), n - 1), Product(XTime(a), Half(c), n - 1);
      var x, y := if Odd(b) then a else 0, if Odd(c) then a else 0;
      XorLaws(x, p, y, q);
      XorLaws(x, y, p, q);
      XorLaws(a, a, 0, 0);
      XorLaws(0, a, 0, 0);
    }
  }

  /** The factor x can be taken out. */
  lemma {:induction false} ProductXTime(a: bv8, b: bv8, n: nat)
    ensures Product(XTime(a), b, n) == XTime(Product(a, b, n))
    decreases n
  {
    hide Xor, XTime, Odd, Half;
    XTimeLinear(0, 0);
    if n > 0 {
      ProductXTime(XTime(a), Half(b), n - 1);
      XTimeLinear(if Odd(b) then a else 0, Product(XTime(a), Half(b), n - 1));
    }
  }

  /** (c a) b = (c b) a, on which commutativity and associativity rest. */
  lemma {:induction false} ProductSwaps(c: bv8, a: bv8, b: bv8, n: nat)
    ensures Times(Product(c, a, n), b) == Product(Times(c, b), a, n)
    decreases n
  {
    hide Xor, XTime, Odd, Half;
    ZeroTimes(b, 8);
    if n > 0 {
      var rest := Product(XTime(c), Half(a), n - 1);
      ProductLeft(if Odd(a) then c else 0, rest, b, 8);
      ProductSwaps(XTime(c), Half(a), b, n - 1);
      ProductXTime(c, b, 8);
    }
  }

  lemma {:induction false} ZeroTimes(b: bv8, n: nat)
    ensures Product(0, b, n) == 0
    decreases n
  {
    hide Xor, Odd, Half;
    XTimeLinear(0, 0);
    XorLaws(0, 0, 0, 0);
    if n > 0 {
      ZeroTimes(Half(b), n - 1);
    }
  }

  /** The term of a product for one bit. */
  function Term(a: bv8, b: bv8): bv8 { if Odd(b) then a else 0 }

  lemma ProductTerm(a: bv8, b: bv8, n: nat)
    ensures Product(a, b, n + 1) == Xor(Term(a, b), Product(XTime(a), Half(b), n))
  {
    hide Xor, XTime, Odd, Half;
  }

  /** All eight terms of a product. */
  function Written(a: bv8, b: bv8): bv8 {
    var a1, b1 := XTime(a), Half(b);
    var a2, b2 := XTime(a1), Half(b1);
    var a3, b3 := XTime(a2), Half(b2);
    var a4, b4 := XTime(a3), Half(b3);
    var a5, b5 := XTime(a4), Half(b4);
    var a6, b6 := XTime(a5), Half(b5);
    var a7, b7 := XTime(a6), Half(b6);
    Xor(Term(a, b), Xor(Term(a1, b1), Xor(Term(a2, b2), Xor(Term(a3, b3),
    Xor(Term(a4, b4), Xor(Term(a5, b5), Xor(Term(a6, b6), Xor(Term(a7, b7), 0))))))))
  }

  lemma TimesWritten(a: bv8, b: bv8)
    ensures Times(a, b) == Written(a, b)
  {
    hide Xor, XTime, Odd, Half, Product, Term;
    var a1, b1 := XTime(a), Half(b);
    var a2, b2 := XTime(a1), Half(b1);
    var a3, b3 := XTime(a2), Half(b2);
    var a4, b4 := XTime(a3), Half(b3);
    var a5, b5 := XTime(a4), Half(b4);
    var a6, b6 := XTime(a5), Half(b5);
    var a7, b7 := XTime(a6), Half(b6);
    ProductTerm(a, b, 7);
    ProductTerm(a1, b1, 6);
    ProductTerm(a2, b2, 5);
    ProductTerm(a3, b3, 4);
    ProductTerm(a4, b4, 3);
    ProductTerm(a5, b5, 2);
    ProductTerm(a6, b6, 1);
    ProductTerm(a7, b7, 0);
    NoneLeft(XTime(a7), Half(b7));
  }

  /** A product by its bits. */
  function BitByBit(a: bv8, b: bv8): bv8 {
    var a1 := XTime(a);
    var a2 := XTime(a1);
    var a3 := XTime(a2);
    var a4 := XTime(a3);
    var a5 := XTime(a4);
    var a6 := XTime(a5);
    var a7 := XTime(a6);
    Sum(if b & 1 != 0 then a else 0, if b & 2 != 0 then a1 else 0, if b & 4 != 0 then a2 else 0,
        if b & 8 != 0 then a3 else 0, if b & 0x10 != 0 then a4 else 0, if b & 0x20 != 0 then a5 else 0,
        if b & 0x40 != 0 then a6 else 0, if b & 0x80 != 0 then a7 else 0)
  }

  function Sum(a: bv8, b: bv8, c: bv8, d: bv8, e: bv8, f: bv8, g: bv8, h: bv8): bv8 {
    a ^ b ^ c ^ d ^ e ^ f ^ g ^ h
  }

  lemma SumIs(a: bv8, b: bv8, c: bv8, d: bv8, e: bv8, f: bv8, g: bv8, h: bv8)
    ensures Sum(a, b, c, d, e, f, g, h) == Xor(a, Xor(b, Xor(c, Xor(d, Xor(e, Xor(f, Xor(g, Xor(h, 0))))))))
  {}

  lemma HalfBits(b: bv8)
    ensures (Odd(b) <==> b & 1 != 0) && (Odd(Half(b)) <==> b & 2 != 0) && (Odd(Half(Half(b))) <==> b & 4 != 0)
    ensures (Odd(Half(Half(Half(b)))) <==> b & 8 != 0) && (Odd(Half(Half(Half(Half(b))))) <==> b & 0x10 != 0)
    ensures Odd(Half(Half(Half(Half(Half(b)))))) <==> b & 0x20 != 0
    ensures Odd(Half(Half(Half(Half(Half(Half(b))))))) <==> b & 0x40 != 0
    ensures Odd(Half(Half(Half(Half(Half(Half(Half(b)))))))) <==> b & 0x80 != 0
  {}

  lemma TimesBitByBit(a: bv8, b: bv8)
    ensures Times(a, b) == BitByBit(a, b)
  {
    hide XTime, Product, Half, Odd, Xor, Sum;
    TimesWritten(a, b);
    HalfBits(b);
    var b1 := Half(b);
    var b2 := Half(b1);
    var b3 := Half(b2);
    var b4 := Half(b3);
    var b5 := Half(b4);
    var b6 := Half(b5);
    var b7 := Half(b6);
    var a1 := XTime(a);
    var a2 := XTime(a1);
    var a3 := XTime(a2);
    var a4 := XTime(a3);
    var a5 := XTime(a4);
    var a6 := XTime(a5);
    var a7 := XTime(a6);
    SumIs(Term(a, b), Term(a1, b1), Term(a2, b2), Term(a3, b3),
          Term(a4, b4), Term(a5, b5), Term(a6, b6), Term(a7, b7));
  }

  /** 1 is neutral: the powers of x below 8 are the single bits. */
  lemma OneTimes(a: bv8)
    ensures Times(1, a) == a
  {
    TimesWritten(1, a);
    PowersOfX();
    BitsMakeByte(a);
    hide XTime, Xor, Odd, Half, Term, Product;
  }

  lemma BitsMakeByte(a: bv8)
    ensures var h1 := Half(a);
      var h2 := Half(h1);
      var h3 := Half(h2);
      var h4 := Half(h3);
      var h5 := Half(h4);
      var h6 := Half(h5);
      var h7 := Half(h6);
      Xor(Term(1, a), Xor(Term(2, h1), Xor(Term(4, h2), Xor(Term(8, h3),
      Xor(Term(0x10, h4), Xor(Term(0x20, h5), Xor(Term(0x40, h6), Xor(Term(0x80, h7), 0)))))))) == a
  {}

  lemma NoneLeft(a: bv8, b: bv8)
    ensures Product(a, b, 0) == 0
  {}

  lemma PowersOfX()
    ensures XTime(1) == 2 && XTime(2) == 4 && XTime(4) == 8 && XTime(8) == 0x10
    ensures XTime(0x10) == 0x20 && XTime(0x20) == 0x40 && XTime(0x40) == 0x80 && XTime(0x80) == 0x1b
  {}

  lemma Commutes(a: bv8, b: bv8)
    ensures Times(a, b) == Times(b, a)
  {
    hide Product;
    ProductSwaps(1, a, b, 8);
    OneTimes(a);
    OneTimes(b);
  }

  lemma Associates(a: bv8, b: bv8, c: bv8)
    ensures Times(Times(a, b), c) == Times(a, Times(b, c))
  {
    hide Product;
    Commutes(a, b);
    ProductSwaps(b, a, c, 8);
    Commutes(Times(b, c), a);
  }

  /** A byte has at most one inverse. */
  lemma InverseUnique(a: bv8, x: bv8, y: bv8)
    requires Times(a, x) == 1 && Times(a, y) == 1
    ensures x == y
  {
    hide Times;
    OneTimes(x);
    OneTimes(y);
    Commutes(a, x);
    Associates(x, a, y);
    Commutes(x, 1);
  }
}

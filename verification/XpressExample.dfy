/** The encoding on the example of section 3.1 of [MS-XCA]. */
module XpressExample {
  import opened Bytes
  import opened Arithmetic
  import opened XpressFormat

  lemma {:induction false} AllOnes(k: nat)
    ensures FlagWord([], k, 1) == Pow2(k) - 1
  {
    if k > 0 {
      AllOnes(k - 1);
    }
  }

  lemma Pow2At29()
    ensures Pow2(29) == 0x2000_0000 && Pow2(28) == 0x1000_0000
  {
    assert Pow2(10) == 1024;
    assert Pow2(20) == 1024 * 1024;
  }

  /** The bit of the first token, and those behind it. */
  lemma FlagStep(t: Token, rest: seq<Token>, k: nat)
    ensures FlagWord([t] + rest, k + 1, 1) == (if t.Match? then Pow2(k) else 0) + FlagWord(rest, k, 1)
  {
    hide Pow2;
    assert ([t] + rest)[1..] == rest;
  }

  /** Three literals and a match: the fourth bit from the top and all behind it are set. */
  lemma FlagsOfExample(a: Token, b: Token, c: Token, m: Token)
    requires a.Literal? && b.Literal? && c.Literal? && m.Match?
    ensures FlagWord([a] + ([b] + ([c] + ([m] + []))), 32, 1) == 0x1fff_ffff
  {
    hide FlagWord, Pow2;
    FlagStep(a, [b] + ([c] + ([m] + [])), 31);
    FlagStep(b, [c] + ([m] + []), 30);
    FlagStep(c, [m] + [], 29);
    FlagStep(m, [], 28);
    AllOnes(28);
    Pow2At29();
  }

  lemma LiteralStep(b: byte, rest: seq<Token>, bits: nat)
    requires GoodTokens(rest) && bits > 0
    ensures GoodTokens([Literal(b)] + rest)
    ensures EncodeFrom([Literal(b)] + rest, bits, false, 1) == [b] + EncodeFrom(rest, bits - 1, false, 1)
  {
    assert ([Literal(b)] + rest)[1..] == rest;
  }

  lemma FirstStep(b: byte, rest: seq<Token>)
    requires GoodTokens(rest) && FlagWord([Literal(b)] + rest, 32, 1) == 0x1fff_ffff
    ensures GoodTokens([Literal(b)] + rest)
    ensures Encode([Literal(b)] + rest, 1) == [0xff, 0xff, 0xff, 0x1f] + ([b] + EncodeFrom(rest, 31, false, 1))
  {
    hide FlagWord;
    FlagsWritten();
    hide Le32;
    assert ([Literal(b)] + rest)[1..] == rest;
  }

  lemma FlagsWritten()
    ensures Le32(0x1fff_ffff) == [0xff, 0xff, 0xff, 0x1f]
  {}

  lemma MatchOfExample()
    ensures EncodeFrom([Match(3, 297)] + [], 29, false, 1) == [0x17, 0x00, 0x0f, 0xff, 0x26, 0x01]
  {
    var m := [Match(3, 297)];
    assert m + [] == m && m[1..] == [];
    assert TokenBytes(m, false) == [0x17, 0x00, 0x0f, 0xff, 0x26, 0x01];
    hide TokenBytes;
  }

  /** abc a hundred times: three literals, and a match of 297 bytes from 3 back. */
  lemma HundredTimes()
    ensures Encode([Literal(97), Literal(98), Literal(99), Match(3, 297)], 1)
         == [0xff, 0xff, 0xff, 0x1f, 0x61, 0x62, 0x63, 0x17, 0x00, 0x0f, 0xff, 0x26, 0x01]
  {
    hide Encode, EncodeFrom, FlagWord;
    var t3 := [Match(3, 297)] + [];
    var t2 := [Literal(99)] + t3;
    var t1 := [Literal(98)] + t2;
    FlagsOfExample(Literal(97), Literal(98), Literal(99), Match(3, 297));
    MatchOfExample();
    LiteralStep(99, t3, 30);
    LiteralStep(98, t2, 31);
    FirstStep(97, t1);
    assert [Literal(97), Literal(98), Literal(99), Match(3, 297)] == [Literal(97)] + t1;
  }
}

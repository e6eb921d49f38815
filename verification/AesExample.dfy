/** The key expansion on the examples of appendix A of FIPS 197. */
module AesExample {
  import opened AesField
  import opened AesInverse
  import opened AesSchedule
  import opened AesSbox

  /** The key of appendix A.1. */
  const KEY: AesSchedule.Bytes := [
    0x2b, 0x7e, 0x15, 0x16, 0x28, 0xae, 0xd2, 0xa6, 0xab, 0xf7, 0x15, 0x88, 0x09, 0xcf, 0x4f, 0x3c]

  lemma SubIs8a()
    ensures SubByte(0xcf) == 0x8a && SubByte(0x4f) == 0x84
  {
    RotationSumIs(GmulInverse(0xcf));
    RotationSumIs(GmulInverse(0x4f));
    hide RotationSum;
  }

  lemma SubIseb()
    ensures SubByte(0x3c) == 0xeb && SubByte(0x09) == 0x01
  {
    RotationSumIs(GmulInverse(0x3c));
    RotationSumIs(GmulInverse(0x09));
    hide RotationSum;
  }

  /** Words 4 and 5 of appendix A.1. */
  lemma ExpandsAsInFips()
    ensures Expanded(CodeSbox(), AES128, KEY, 4) == [0xa0, 0xfa, 0xfe, 0x17]
    ensures Expanded(CodeSbox(), AES128, KEY, 5) == [0x88, 0x54, 0x2c, 0xb1]
  {
    var w0: Word, w1: Word, w3: Word := [0x2b, 0x7e, 0x15, 0x16], [0x28, 0xae, 0xd2, 0xa6], [0x09, 0xcf, 0x4f, 0x3c];
    assert KEY[0..4] == w0 && KEY[4..8] == w1 && KEY[12..16] == w3;
    var sbox := CodeSbox();
    assert Expanded(sbox, AES128, KEY, 0) == w0 && Expanded(sbox, AES128, KEY, 1) == w1;
    assert Expanded(sbox, AES128, KEY, 3) == w3;
    WordOf(sbox, AES128, KEY, 4);
    WordOf(sbox, AES128, KEY, 5);
    hide Expanded, CodeSbox, SubByte;
    SubIs8a();
    SubIseb();
    SubIs(0xcf);
    SubIs(0x4f);
    SubIs(0x3c);
    SubIs(0x09);
    assert Temp(sbox, AES128, w3, 4) == [0x8b, 0x84, 0xeb, 0x01];
  }

  lemma SubIsb7()
    ensures SubByte(0x20) == 0xb7 && SubByte(0x67) == 0x85
  {
    RotationSumIs(GmulInverse(0x20));
    RotationSumIs(GmulInverse(0x67));
    hide RotationSum;
  }

  lemma SubIsb0()
    ensures SubByte(0xfc) == 0xb0 && SubByte(0xde) == 0x1d
  {
    RotationSumIs(GmulInverse(0xfc));
    RotationSumIs(GmulInverse(0xde));
    hide RotationSum;
  }

  /** Words 12 and 13 of appendix A.3 from the words before them: the
      substitution half way through a 256-bit key, and none behind it. */
  lemma HalfWayAsInFips()
    ensures XorWord([0x1f, 0x35, 0x2c, 0x07], Temp(CodeSbox(), AES256, [0x20, 0x67, 0xfc, 0xde], 12))
         == [0xa8, 0xb0, 0x9c, 0x1a]
    ensures XorWord([0x3b, 0x61, 0x08, 0xd7], Temp(CodeSbox(), AES256, [0xa8, 0xb0, 0x9c, 0x1a], 13))
         == [0x93, 0xd1, 0x94, 0xcd]
  {
    hide CodeSbox, SubByte;
    SubIsb7();
    SubIsb0();
    SubIs(0x20);
    SubIs(0x67);
    SubIs(0xfc);
    SubIs(0xde);
    assert Temp(CodeSbox(), AES256, [0x20, 0x67, 0xfc, 0xde], 12) == [0xb7, 0x85, 0xb0, 0x1d];
  }

  lemma SubIsfe()
    ensures SubByte(0x14) == 0xfa && SubByte(0xdf) == 0x9e
  {
    RotationSumIs(GmulInverse(0x14));
    RotationSumIs(GmulInverse(0xdf));
    hide RotationSum;
  }

  lemma SubIsbf()
    ensures SubByte(0xf4) == 0xbf
  {
    RotationSumIs(GmulInverse(0xf4));
    hide RotationSum;
  }

  /** Word 8 of appendix A.3, the first that takes a round constant. */
  lemma FirstRoundAsInFips()
    ensures XorWord([0x60, 0x3d, 0xeb, 0x10], Temp(CodeSbox(), AES256, [0x09, 0x14, 0xdf, 0xf4], 8))
         == [0x9b, 0xa3, 0x54, 0x11]
  {
    hide CodeSbox, SubByte;
    SubIsfe();
    SubIsbf();
    SubIseb();
    SubIs(0x14);
    SubIs(0xdf);
    SubIs(0xf4);
    SubIs(0x09);
    assert Temp(CodeSbox(), AES256, [0x09, 0x14, 0xdf, 0xf4], 8) == [0xfb, 0x9e, 0xbf, 0x01];
  }

  /** The round constants of section 5.2. */
  lemma RoundConstants()
    ensures Rcon(1) == 0x01 && Rcon(2) == 0x02 && Rcon(3) == 0x04 && Rcon(4) == 0x08 && Rcon(5) == 0x10
    ensures Rcon(6) == 0x20 && Rcon(7) == 0x40 && Rcon(8) == 0x80 && Rcon(9) == 0x1b && Rcon(10) == 0x36
  {
    PowersOfX();
    assert XTime(0x1b) == 0x36;
    hide XTime;
    assert Rcon(2) == XTime(Rcon(1)) && Rcon(3) == XTime(Rcon(2)) && Rcon(4) == XTime(Rcon(3));
    assert Rcon(5) == XTime(Rcon(4)) && Rcon(6) == XTime(Rcon(5)) && Rcon(7) == XTime(Rcon(6));
    assert Rcon(8) == XTime(Rcon(7)) && Rcon(9) == XTime(Rcon(8)) && Rcon(10) == XTime(Rcon(9));
  }
}

/** Published values of the generators and hashers (ops/gsm8k_vllm.py, `self_test`): the first draw of SplitMix64
    for seed 0, and FNV-1a of the single letter a. Exclusive or goes digit by digit in base sixteen. */
module KnownValues {
  import opened Words
  import opened SplitMix
  import opened Fnv1a

  /** Exclusive or of two hexadecimal digits, bit by bit. */
  function DigitXor(b: nat, d: nat): nat {
    (if b / 8 % 2 != d / 8 % 2 then 8 else 0) + (if b / 4 % 2 != d / 4 % 2 then 4 else 0) +
    (if b / 2 % 2 != d / 2 % 2 then 2 else 0) + (if b % 2 != d % 2 then 1 else 0)
  }

  lemma DigitXorIsXor(b: nat, d: nat)
    requires b < 16 && d < 16
    ensures Xor(b, d) == DigitXor(b, d)
  {
    hide Xor;
    LastTwoBits(b, d);
    LastTwoBits(b / 4, d / 4);
    Quarters(b);
    Quarters(d);
    XorZero(0);
  }

  lemma LastTwoBits(b: nat, d: nat)
    ensures Xor(b, d) == 4 * Xor(b / 4, d / 4) + (if b / 2 % 2 != d / 2 % 2 then 2 else 0) +
                         (if b % 2 != d % 2 then 1 else 0)
  {
    hide Xor;
    XorHalves(b, d);
    XorHalves(b / 2, d / 2);
    assert b / 2 / 2 == b / 4 && d / 2 / 2 == d / 4;
  }

  lemma Quarters(b: nat)
    requires b < 16
    ensures b / 4 / 4 == 0 && b / 4 / 2 == b / 8
  {
  }

  /** One more hexadecimal digit. */
  lemma XorHex(a: nat, c: nat, b: nat, d: nat, r: nat, e: nat)
    requires b < 16 && d < 16 && Xor(a, c) == r && DigitXor(b, d) == e
    ensures Xor(16 * a + b, 16 * c + d) == 16 * r + e
  {
    XorSplit(a, c, b, d, 4);
    Pow2At4();
    DigitXorIsXor(b, d);
  }

  /** Low parts below 2^k and high parts are handled apart. */
  lemma {:induction false} XorSplit(a: nat, c: nat, b: nat, d: nat, k: nat)
    requires b < Pow2(k) && d < Pow2(k)
    ensures Xor(Pow2(k) * a + b, Pow2(k) * c + d) == Pow2(k) * Xor(a, c) + Xor(b, d)
  {
    hide Xor;
    XorZero(0);
    if k == 0 {
    } else {
      var p := Pow2(k - 1);
      hide Pow2;
      XorSplit(a, c, b / 2, d / 2, k - 1);
      HalfOf(p, a, b);
      HalfOf(p, c, d);
      XorHalves(2 * p * a + b, 2 * p * c + d);
      XorHalves(b, d);
      Twice(p, Xor(a, c));
      Doubles(k);
    }
  }

  lemma Doubles(k: nat)
    requires k > 0
    ensures Pow2(k) == 2 * Pow2(k - 1)
  {
  }

  lemma HalfOf(p: nat, a: nat, b: nat)
    ensures (2 * p * a + b) / 2 == p * a + b / 2 && (2 * p * a + b) % 2 == b % 2
  {
    assert 2 * p * a == 2 * (p * a);
  }

  lemma Twice(p: nat, x: nat)
    ensures 2 * p * x == 2 * (p * x)
  {
  }

  lemma XorHalves(a: nat, b: nat)
    ensures Xor(a, b) == 2 * Xor(a / 2, b / 2) + if a % 2 != b % 2 then 1 else 0
  {
  }

  lemma FirstShift()
    ensures Xor(0x9E37_79B9_7F4A_7C15, 0x2_78DD_E6E5) == 0x9E37_79BB_0797_9AF0
  {
    hide Xor;
    XorZero(0x9E3_779B);
    XorHex(0x9E3_779B, 0x0, 0x9, 0x2, 0x9E3_779B, 0xB);
    XorHex(0x9E37_79B9, 0x2, 0x7, 0x7, 0x9E37_79BB, 0x0);
    XorHex(0x9_E377_9B97, 0x27, 0xF, 0x8, 0x9_E377_9BB0, 0x7);
    XorHex(0x9E_3779_B97F, 0x278, 0x4, 0xD, 0x9E_3779_BB07, 0x9);
    XorHex(0x9E3_779B_97F4, 0x278D, 0xA, 0xD, 0x9E3_779B_B079, 0x7);
    XorHex(0x9E37_79B9_7F4A, 0x2_78DD, 0x7, 0xE, 0x9E37_79BB_0797, 0x9);
    XorHex(0x9_E377_9B97_F4A7, 0x27_8DDE, 0xC, 0x6, 0x9_E377_9BB0_7979, 0xA);
    XorHex(0x9E_3779_B97F_4A7C, 0x278_DDE6, 0x1, 0xE, 0x9E_3779_BB07_979A, 0xF);
    XorHex(0x9E3_779B_97F4_A7C1, 0x278D_DE6E, 0x5, 0x5, 0x9E3_779B_B079_79AF, 0x0);
  }

  lemma SecondShift()
    ensures Xor(0x6F68_261B_57E7_A770, 0xD_ED04_C36A) == 0x6F68_2616_BAE3_641A
  {
    hide Xor;
    XorZero(0x6F6_8261);
    XorHex(0x6F6_8261, 0x0, 0xB, 0xD, 0x6F6_8261, 0x6);
    XorHex(0x6F68_261B, 0xD, 0x5, 0xE, 0x6F68_2616, 0xB);
    XorHex(0x6_F682_61B5, 0xDE, 0x7, 0xD, 0x6_F682_616B, 0xA);
    XorHex(0x6F_6826_1B57, 0xDED, 0xE, 0x0, 0x6F_6826_16BA, 0xE);
    XorHex(0x6F6_8261_B57E, 0xDED0, 0x7, 0x4, 0x6F6_8261_6BAE, 0x3);
    XorHex(0x6F68_261B_57E7, 0xD_ED04, 0xA, 0xC, 0x6F68_2616_BAE3, 0x6);
    XorHex(0x6_F682_61B5_7E7A, 0xDE_D04C, 0x7, 0x3, 0x6_F682_616B_AE36, 0x4);
    XorHex(0x6F_6826_1B57_E7A7, 0xDED_04C3, 0x7, 0x6, 0x6F_6826_16BA_E364, 0x1);
    XorHex(0x6F6_8261_B57E_7A77, 0xDED0_4C36, 0x0, 0xA, 0x6F6_8261_6BAE_3641, 0xA);
  }

  lemma ThirdShift()
    ensures Xor(0xE220_A838_BF5C_9DDE, 0x1_C441_5071) == 0xE220_A839_7B1D_CDAF
  {
    hide Xor;
    XorZero(0xE22_0A83);
    XorHex(0xE22_0A83, 0x0, 0x8, 0x1, 0xE22_0A83, 0x9);
    XorHex(0xE220_A838, 0x1, 0xB, 0xC, 0xE220_A839, 0x7);
    XorHex(0xE_220A_838B, 0x1C, 0xF, 0x4, 0xE_220A_8397, 0xB);
    XorHex(0xE2_20A8_38BF, 0x1C4, 0x5, 0x4, 0xE2_20A8_397B, 0x1);
    XorHex(0xE22_0A83_8BF5, 0x1C44, 0xC, 0x1, 0xE22_0A83_97B1, 0xD);
    XorHex(0xE220_A838_BF5C, 0x1_C441, 0x9, 0x5, 0xE220_A839_7B1D, 0xC);
    XorHex(0xE_220A_838B_F5C9, 0x1C_4415, 0xD, 0x0, 0xE_220A_8397_B1DC, 0xD);
    XorHex(0xE2_20A8_38BF_5C9D, 0x1C4_4150, 0xD, 0x7, 0xE2_20A8_397B_1DCD, 0xA);
    XorHex(0xE22_0A83_8BF5_C9DD, 0x1C44_1507, 0xE, 0x1, 0xE22_0A83_97B1_DCDA, 0xF);
  }

  lemma LetterA()
    ensures Xor(0xCBF2_9CE4_8422_2325, 0x61) == 0xCBF2_9CE4_8422_2344
  {
    hide Xor;
    XorZero(0xCB_F29C_E484_2223);
    XorHex(0xCB_F29C_E484_2223, 0x0, 0x2, 0x6, 0xCB_F29C_E484_2223, 0x4);
    XorHex(0xCBF_29CE_4842_2232, 0x6, 0x5, 0x1, 0xCBF_29CE_4842_2234, 0x4);
  }

  lemma Shifts(z: nat)
    ensures Shr(z, 27) == z / 0x800_0000 && Shr(z, 30) == z / 0x4000_0000 && Shr(z, 31) == z / 0x8000_0000
  {
    hide Shr, Pow2;
    Powers();
    ShrDivides(z, 27);
    ShrDivides(z, 30);
    ShrDivides(z, 31);
  }

  lemma Powers()
    ensures Pow2(27) == 0x800_0000 && Pow2(30) == 0x4000_0000 && Pow2(31) == 0x8000_0000
  {
    assert Pow2(3) == 8;
    hide Pow2;
    Pow2At4();
    Pow2Add(4, 4);
    Pow2Add(8, 8);
    Pow2Add(16, 8);
    Pow2Add(24, 3);
    Pow2Add(27, 3);
    Pow2Add(27, 4);
  }

  /** The finaliser on the first state, step by step. */
  lemma FirstMix()
    ensures Mix(0x9E37_79B9_7F4A_7C15) == 0xE220_A839_7B1D_CDAF
  {
    hide Xor, Shr;
    Shifts(0x9E37_79B9_7F4A_7C15);
    FirstShift();
    assert 0x9E37_79BB_0797_9AF0 * MUL1 % WORD == 0x6F68_261B_57E7_A770;
    Shifts(0x6F68_261B_57E7_A770);
    SecondShift();
    assert 0x6F68_2616_BAE3_641A * MUL2 % WORD == 0xE220_A838_BF5C_9DDE;
    Shifts(0xE220_A838_BF5C_9DDE);
    ThirdShift();
  }

  /** Seed 0 draws 0xE220A8397B1DCDAF first. */
  lemma FirstDrawOfZero()
    ensures Draw(0, 0) == 0xE220_A839_7B1D_CDAF
  {
    hide And, Mix, MixMasked;
    MaskWraps(GAMMA);
    assert State(0, 1) == GAMMA by { FirstState(); }
    MaskedIsWrapping(GAMMA);
    FirstMix();
  }

  lemma FirstState()
    ensures State(0, 1) == And(GAMMA, MASK)
  {
    hide And;
    assert State(0, 0) == 0;
  }

  /** Token 1 is the bytes 01 00 00 00, and 0x01020304 is 04 03 02 01. */
  lemma TokenBytesOfOne()
    ensures TokenBytes([1]) == [1, 0, 0, 0] && LittleEndian(0x0102_0304, 4) == [4, 3, 2, 1]
  {
    assert [1][..0] == [];
    assert LittleEndian(1, 4) == [1, 0, 0, 0];
  }

  /** Nothing absorbed leaves the offset; the letter a gives 0xAF63DC4C8601EC8C. */
  lemma DigestOfLetterA()
    ensures Digest(FNV_OFFSET, []) == 0xCBF2_9CE4_8422_2325
    ensures Digest(FNV_OFFSET, [0x61]) == 0xAF63_DC4C_8601_EC8C
  {
    hide Xor;
    LetterA();
    assert [0x61][..0] == [];
    assert Digest(FNV_OFFSET, [0x61]) == Absorb(FNV_OFFSET, 0x61);
  }
}

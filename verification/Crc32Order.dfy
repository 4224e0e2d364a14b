/** The multiplicative order of x modulo the CRC-32 generator is 2^32 - 1 = 3 * 5 * 17 * 257 * 65537. The
    residues of the powers that the order test needs are multiplied out; each `by { }` evaluates one
    product on its own. */
module Crc32Order {
  import opened Lfsr
  import opened LfsrOrder
  import opened Divisors
  import opened Words
  import opened ByteStrings
  import opened Crc32
  import opened Crc32Reflection
  import WordPowers

  /** c is x^k modulo the generator. */
  ghost predicate PowerIs(k: nat, c: bv32) {
    WordPowers.PowerIs(POLYNOMIAL, 32, k, c)
  }

  /** Multiplying c by the upper byte of d gives r1, by the next ones r2 and r3, and by all four e. */
  predicate ProductIs(c: bv32, d: bv32, r1: bv32, r2: bv32, r3: bv32, e: bv32) {
    && WordPowers.AbsorbByte(POLYNOMIAL, c, 0, TopByte(d)) == r1
    && WordPowers.AbsorbByte(POLYNOMIAL, c, r1, TopByte(d << 8)) == r2
    && WordPowers.AbsorbByte(POLYNOMIAL, c, r2, TopByte(d << 16)) == r3
    && WordPowers.AbsorbByte(POLYNOMIAL, c, r3, TopByte(d << 24)) == e
  }

  lemma Sum(j: nat, c: bv32, k: nat, d: bv32, r1: bv32, r2: bv32, r3: bv32, e: bv32)
    requires PowerIs(j, c) && PowerIs(k, d) && ProductIs(c, d, r1, r2, r3, e)
    ensures PowerIs(j + k, e)
  {
    hide WordPowers.PowerIs, WordPowers.AbsorbByte, TopByte;
    WordPowers.LowerHalf(d);
    WordPowers.Multiply(POLYNOMIAL, 32, j, c, k, d, e);
  }

  lemma Twice(k: nat, c: bv32, r1: bv32, r2: bv32, r3: bv32, d: bv32)
    requires PowerIs(k, c) && ProductIs(c, c, r1, r2, r3, d)
    ensures PowerIs(2 * k, d) && PowerIs(2 * k + 1, Clock(POLYNOMIAL, d))
  {
    hide WordPowers.PowerIs, WordPowers.AbsorbByte, TopByte, Clock;
    WordPowers.LowerHalf(c);
    WordPowers.Double(POLYNOMIAL, 32, k, c, d);
  }

  lemma Next(k: nat, c: bv32)
    requires PowerIs(k, c)
    ensures PowerIs(k + 1, Clock(POLYNOMIAL, c))
  {
    hide WordPowers.PowerIs, Clock;
    WordPowers.Next(POLYNOMIAL, 32, k, c);
  }

  lemma LowestBit()
    ensures WordBits(1, 32) == Unit(32)
  {
    hide WordBits;
    WordBytes(1);
    forall i: nat | i < 8 ensures !ByteBits(MsbFirst, 0x00)[i] && ByteBits(MsbFirst, 0x01)[i] == (i == 7) {
      assert Bit(0x01, Mask(7 - i)) == (i == 7);
    }
  }

  lemma PowerZero()
    ensures PowerIs(0, 0x0000_0001)
  {
    hide Fits, WordBits, Run;
    WordFits(POLYNOMIAL);
    WordFits(1);
    LowestBit();
    RunOneZero(WordBits(POLYNOMIAL, 32), Unit(32));
  }

  lemma WordFits(c: bv32)
    ensures Fits(c, 32)
  {
    ShiftedOut(c);
  }

  lemma Power31()
    ensures PowerIs(31, 0x8000_0000)
  {
    hide PowerIs;
    PowerZero();
    Twice(0, 0x0000_0001, 0x0000_0000, 0x0000_0000, 0x0000_0000, 0x0000_0001) by { }
    Twice(1, 0x0000_0002, 0x0000_0000, 0x0000_0000, 0x0000_0000, 0x0000_0004) by { }
    Twice(3, 0x0000_0008, 0x0000_0000, 0x0000_0000, 0x0000_0000, 0x0000_0040) by { }
    Twice(7, 0x0000_0080, 0x0000_0000, 0x0000_0000, 0x0000_0000, 0x0000_4000) by { }
    Twice(15, 0x0000_8000, 0x0000_0000, 0x0000_0000, 0x0040_0000, 0x4000_0000) by { }
  }

  lemma Power255()
    ensures PowerIs(255, 0xB8BF_AD80)
  {
    hide PowerIs;
    Power31();
    Twice(31, 0x8000_0000, 0x3486_7077, 0x4146_6C4C, 0x762B_21C0, 0xD113_9055) by { }
    Twice(63, 0xA6E6_3D1D, 0x5E0F_A5C5, 0x16D6_6A67, 0x56CE_894C, 0xF979_DC37) by { }
    Twice(127, 0xF632_A5D9, 0x6B78_60CA, 0xFA84_B184, 0x655E_41E7, 0x5C5F_D6C0) by { }
  }

  lemma Power2047()
    ensures PowerIs(2047, 0xC61F_9FC0)
  {
    hide PowerIs;
    Power255();
    Twice(255, 0xB8BF_AD80, 0x2567_DF1C, 0xEB23_78CE, 0x1B8F_CF8B, 0xFAD8_6B72) by { }
    Twice(511, 0xF171_CB53, 0x4391_A92F, 0x95A4_895E, 0xD7DE_3FC1, 0x54AF_B017) by { }
    Twice(1023, 0xA95F_602E, 0x407A_7535, 0x1A1F_96FF, 0xEC44_2CCB, 0x630F_CFE0) by { }
  }

  lemma Power16383()
    ensures PowerIs(16383, 0x03AE_F159)
  {
    hide PowerIs;
    Power2047();
    Twice(2047, 0xC61F_9FC0, 0x64FE_FB87, 0x6409_07B3, 0x3DDC_33FD, 0xC0F1_962A) by { }
    Twice(4095, 0x8522_31E3, 0x3434_7798, 0x1593_1A2D, 0xD190_B860, 0x9E60_F7D2) by { }
    Twice(8191, 0x3800_F213, 0x57D3_98A3, 0xB548_5802, 0x4461_78E1, 0x83B7_F677) by { }
  }

  lemma Power65535()
    ensures PowerIs(65535, 0xFA3A_DE3B)
  {
    hide PowerIs;
    Power16383();
    Twice(16383, 0x03AE_F159, 0x04F3_13EB, 0x52E1_AAD5, 0xE425_6DF7, 0x3C4A_9FE4) by { }
    Twice(32767, 0x7895_3FC8, 0x21C6_B9DB, 0xF8EE_1379, 0x5A9F_FBDF, 0xFF7D_E1C6) by { }
  }

  lemma Power65537()
    ensures PowerIs(65537, 0xE5A8_5E35)
    ensures PowerIs(131074, 0x6710_AD87)
    ensures PowerIs(196611, 0xBEB6_1913)
  {
    hide PowerIs;
    Power65535();
    Next(65535, 0xFA3A_DE3B);
    Next(65536, 0xF0B4_A1C1);
    Twice(65537, 0xE5A8_5E35, 0x13A9_AA5A, 0x2AF2_BCB9, 0xD884_D4CE, 0x6710_AD87) by { }
    Sum(131074, 0x6710_AD87, 65537, 0xE5A8_5E35, 0xD35E_EFDE, 0xF1CF_5A9C, 0xE038_1987, 0xBEB6_1913) by { }
  }

  lemma Power983055()
    ensures PowerIs(983055, 0xECCA_2A14)
  {
    hide PowerIs;
    Power65537();
    Twice(196611, 0xBEB6_1913, 0x37E9_BF3E, 0xF656_1F58, 0x59C8_080A, 0x9567_3DDB) by { }
    Twice(393222, 0x9567_3DDB, 0x1551_9747, 0xD268_90F6, 0x9C03_999B, 0x1ADC_35F1) by { }
    Sum(786444, 0x1ADC_35F1, 196611, 0xBEB6_1913, 0x2839_B7A3, 0x7944_E073, 0xE3A2_4636, 0xECCA_2A14) by { }
  }

  lemma Power7864440()
    ensures PowerIs(7864440, 0xF50B_1E1C)
  {
    hide PowerIs;
    Power983055();
    Twice(983055, 0xECCA_2A14, 0x7030_E8AB, 0x27CB_8679, 0x0C38_C9FC, 0x4382_E8A7) by { }
    Twice(1966110, 0x4382_E8A7, 0x682C_CB59, 0x7CF5_5BB6, 0x921E_BDEA, 0xF7AC_6DBD) by { }
    Twice(3932220, 0xF7AC_6DBD, 0x1B71_1DEF, 0xFE4A_960D, 0xF32C_D8A7, 0xF50B_1E1C) by { }
  }

  lemma Power16711935()
    ensures PowerIs(16711935, 0x9344_38AC)
  {
    hide PowerIs;
    Power983055();
    Power7864440();
    Twice(7864440, 0xF50B_1E1C, 0x78EF_0D40, 0x8472_2F29, 0xE17E_3C8C, 0xB8DA_15FF) by { }
    Sum(15728880, 0xB8DA_15FF, 983055, 0xECCA_2A14, 0xC052_3A5D, 0x1969_998A, 0xEA35_6730, 0x9344_38AC) by { }
  }

  lemma Power16843009()
    ensures PowerIs(16843009, 0x85DA_D68C)
    ensures PowerIs(33686018, 0x38D9_84DA)
    ensures PowerIs(50529027, 0x9C20_C0D1)
  {
    hide PowerIs;
    Power65537();
    Power16711935();
    Sum(16711935, 0x9344_38AC, 131074, 0x6710_AD87, 0x82A2_933F, 0xD497_9E4F, 0x52B5_031D, 0x85DA_D68C) by { }
    Twice(16843009, 0x85DA_D68C, 0x4B5C_BACB, 0x304C_8233, 0xC8B0_0F57, 0x38D9_84DA) by { }
    Sum(33686018, 0x38D9_84DA, 16843009, 0x85DA_D68C, 0xCE60_BAA6, 0x2DEB_74A7, 0x4FA4_5D08, 0x9C20_C0D1) by { }
  }

  lemma Power252645135()
    ensures PowerIs(252645135, 0x053C_1431)
  {
    hide PowerIs;
    Power16843009();
    Twice(50529027, 0x9C20_C0D1, 0x73AE_0D9C, 0x86B0_40B7, 0x55F6_7004, 0x73FB_93FA) by { }
    Twice(101058054, 0x73FB_93FA, 0x71F7_BA75, 0xFB95_16B3, 0x8925_3E5C, 0xF55A_BCF8) by { }
    Sum(202116108, 0xF55A_BCF8, 50529027, 0x9C20_C0D1, 0x633F_A7F0, 0x4589_F434, 0x7B87_4D6E, 0x053C_1431) by { }
  }

  lemma Power286331153()
    ensures PowerIs(286331153, 0x80E6_C2BC)
    ensures PowerIs(572662306, 0xCA31_AE5F)
    ensures PowerIs(858993459, 0x1E48_8021)
  {
    hide PowerIs;
    Power16843009();
    Power252645135();
    Sum(252645135, 0x053C_1431, 33686018, 0x38D9_84DA, 0xDDA3_64B8, 0x2063_B18A, 0x78EA_4FCA, 0x80E6_C2BC) by { }
    Twice(286331153, 0x80E6_C2BC, 0x47E7_2E77, 0x7447_4544, 0x578D_8063, 0xCA31_AE5F) by { }
    Sum(572662306, 0xCA31_AE5F, 286331153, 0x80E6_C2BC, 0xA3B7_827C, 0x2448_71A6, 0xA198_6477, 0x1E48_8021) by { }
  }

  lemma Power4294967295()
    ensures PowerIs(1431655765, 0x4AD7_6CE3)
    ensures PowerIs(4294967295, 0x0000_0001)
  {
    hide PowerIs;
    Power286331153();
    Sum(858993459, 0x1E48_8021, 572662306, 0xCA31_AE5F, 0x5EBD_F432, 0xC3BF_8472, 0x80E6_4A4A, 0x4AD7_6CE3) by { }
    Twice(1431655765, 0x4AD7_6CE3, 0x3ADF_5D6E, 0x7E6A_0261, 0x4EF1_9A11, 0x4AD7_6CE2) by { }
    Sum(2863311530, 0x4AD7_6CE2, 1431655765, 0x4AD7_6CE3, 0x3ADF_5D24, 0x7E6A_48B6, 0x4EBB_4D7D, 0x0000_0001) by { }
  }

  /** k is a period exactly when the word of x^k is the one of 1. */
  lemma PeriodByWord(k: nat, c: bv32)
    requires PowerIs(k, c)
    ensures Period(Generator32(), k) <==> c == 0x0000_0001
  {
    hide WordBits, Period, WordPowers.PowerIs;
    PowerZero();
    WordPowers.PeriodByWord(POLYNOMIAL, 32, 0x0000_0001, k, c);
  }

  const PRIMES: seq<nat> := [3, 5, 17, 257, 65537]

  /** 2^32 - 1 without one of its primes is no period. */
  lemma Cofactors(p: nat, m: nat)
    requires p in PRIMES && Factors(p, m, 0xFFFF_FFFF)
    ensures !Period(Generator32(), m)
  {
    hide Period, PowerIs, Generator32;
    if p == 3 {
      Power4294967295();
      PeriodByWord(m, 0x4AD7_6CE3);
    } else if p == 5 {
      Power286331153();
      PeriodByWord(m, 0x1E48_8021);
    } else if p == 17 {
      Power252645135();
      PeriodByWord(m, 0x053C_1431);
    } else if p == 257 {
      Power16711935();
      PeriodByWord(m, 0x9344_38AC);
    } else {
      Power65535();
      PeriodByWord(m, 0xFA3A_DE3B);
    }
  }

  lemma PrimeFactors()
    ensures ProductOf(PRIMES) == 0xFFFF_FFFF
  {
    var l := PRIMES;
    assert l[..4] == [3, 5, 17, 257] && l[..3] == [3, 5, 17] && l[..2] == [3, 5] && l[..1] == [3];
    assert l[..4][..3] == l[..3] && l[..3][..2] == l[..2] && l[..2][..1] == l[..1];
    assert ProductOf(l[..1]) == 3;
    assert ProductOf(l[..2]) == 15;
    assert ProductOf(l[..3]) == 255;
    assert ProductOf(l[..4]) == 65535;
  }

  /** x^d is 1 exactly at the multiples of 2^32 - 1. */
  lemma PeriodsOfX(d: nat)
    ensures Period(Generator32(), d) <==> d % 0xFFFF_FFFF == 0
  {
    hide Period, PowerIs, ProductOf, Prime, Generator32;
    Power4294967295();
    PeriodByWord(0xFFFF_FFFF, 0x0000_0001);
    SmallPrimes();
    FermatPrime();
    PrimeFactors();
    forall p: nat, m: nat | p in PRIMES && Factors(p, m, 0xFFFF_FFFF) ensures !Period(Generator32(), m) {
      Cofactors(p, m);
    }
    OrderTest(Generator32(), PRIMES, 0xFFFF_FFFF, d);
  }

  lemma UnitRegister()
    ensures RegisterBits(0x8000_0000) == Unit(32)
  {
    assert Reverse32(0x8000_0000) == 1;
    LowestBit();
  }

  /** d right-shifting steps take the residue 1 back to itself exactly at the multiples of 2^32 - 1. */
  lemma OrderOfX(d: nat)
    ensures Steps(0x8000_0000, d) == 0x8000_0000 <==> d % 0xFFFF_FFFF == 0
  {
    hide RegisterBits, Run, Step, Steps, Generator32;
    StepsRun(0x8000_0000, d);
    UnitRegister();
    if Period(Generator32(), d) {
      RegisterBitsInjective(Steps(0x8000_0000, d), 0x8000_0000);
    }
    PeriodsOfX(d);
  }
}

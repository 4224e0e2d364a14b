/** The multiplicative order of x modulo the CRC-16 generator is 32767 = 7 * 31 * 151. The residues of the
    powers that the order test needs are multiplied out; each `by { }` evaluates one product on its own. */
module Crc16Order {
  import opened Lfsr
  import opened LfsrOrder
  import opened Divisors
  import opened Words
  import opened ByteStrings
  import opened Crc16
  import opened Crc16Register
  import WordPowers

  const WIDE_POLYNOMIAL: bv32 := 0x1021_0000

  /** c, in the upper half of a word, is x^k modulo the generator. */
  ghost predicate PowerIs(k: nat, c: bv32) {
    WordPowers.PowerIs(WIDE_POLYNOMIAL, 16, k, c)
  }

  /** Multiplying c by the upper byte of d gives h, and by both bytes gives e. */
  predicate ProductIs(c: bv32, d: bv32, h: bv32, e: bv32) {
    && WordPowers.AbsorbByte(WIDE_POLYNOMIAL, c, 0, TopByte(d)) == h
    && WordPowers.AbsorbByte(WIDE_POLYNOMIAL, c, h, TopByte(d << 8)) == e
  }

  lemma Sum(j: nat, c: bv32, k: nat, d: bv32, h: bv32, e: bv32)
    requires PowerIs(j, c) && PowerIs(k, d) && ProductIs(c, d, h, e)
    ensures PowerIs(j + k, e)
  {
    hide WordPowers.PowerIs, WordPowers.AbsorbByte, TopByte;
    WordPowers.Multiply(WIDE_POLYNOMIAL, 16, j, c, k, d, e);
  }

  lemma Twice(k: nat, c: bv32, h: bv32, d: bv32)
    requires PowerIs(k, c) && ProductIs(c, c, h, d)
    ensures PowerIs(2 * k, d) && PowerIs(2 * k + 1, Clock(WIDE_POLYNOMIAL, d))
  {
    hide WordPowers.PowerIs, WordPowers.AbsorbByte, TopByte, Clock;
    WordPowers.Double(WIDE_POLYNOMIAL, 16, k, c, d);
  }

  lemma LowestBit()
    ensures RegisterBits(1) == Unit(16)
  {
    BigEndianBits(1);
    var h: bv8, l: bv8 := 0x00, 0x01;
    assert HighByte(1) == h && LowByte(1) == l;
    DataBitsSnoc(MsbFirst, [], h);
    DataBitsSnoc(MsbFirst, [h], l);
    assert [] + [h] == [h] && [h] + [l] == [h, l];
    forall i: nat | i < 8
      ensures !ByteBits(MsbFirst, h)[i] && ByteBits(MsbFirst, l)[i] == (i == 7)
    {
      assert Bit(l, Mask(7 - i)) == (i == 7);
    }
  }

  lemma WideConstants()
    ensures Wide(POLYNOMIAL) == WIDE_POLYNOMIAL && Wide(1) == 0x0001_0000
  {
  }

  lemma PowerZero()
    ensures PowerIs(0, 0x0001_0000)
  {
    hide Wide, Fits, WordBits, Run;
    WideConstants();
    WideFits(POLYNOMIAL);
    WideFits(1);
    LowestBit();
    RunOneZero(WordBits(WIDE_POLYNOMIAL, 16), Unit(16));
  }

  lemma Power18()
    ensures PowerIs(18, 0x4084_0000)
  {
    hide PowerIs;
    PowerZero();
    Twice(0, 0x0001_0000, 0x0000_0000, 0x0001_0000) by { }
    Twice(1, 0x0002_0000, 0x0000_0000, 0x0004_0000) by { }
    Twice(2, 0x0004_0000, 0x0000_0000, 0x0010_0000) by { }
    Twice(4, 0x0010_0000, 0x0000_0000, 0x0100_0000) by { }
    Twice(9, 0x0200_0000, 0x0400_0000, 0x4084_0000) by { }
  }

  lemma Power151()
    ensures PowerIs(151, 0xF008_0000)
  {
    hide PowerIs;
    Power18();
    Twice(18, 0x4084_0000, 0x3331_0000, 0x4363_0000) by { }
    Twice(37, 0x86C6_0000, 0x3D50_0000, 0x0F6D_0000) by { }
    Twice(75, 0x1EDA_0000, 0x4D8D_0000, 0x7804_0000) by { }
  }

  lemma Power27()
    ensures PowerIs(27, 0x89A9_0000)
  {
    hide PowerIs;
    PowerZero();
    Twice(0, 0x0001_0000, 0x0000_0000, 0x0001_0000) by { }
    Twice(1, 0x0002_0000, 0x0000_0000, 0x0004_0000) by { }
    Twice(3, 0x0008_0000, 0x0000_0000, 0x0040_0000) by { }
    Twice(6, 0x0040_0000, 0x0000_0000, 0x1000_0000) by { }
    Twice(13, 0x2000_0000, 0x4084_0000, 0xCCC4_0000) by { }
  }

  lemma Power217()
    ensures PowerIs(217, 0x48E3_0000)
  {
    hide PowerIs;
    Power27();
    Twice(27, 0x89A9_0000, 0x58A5_0000, 0x1168_0000) by { }
    Twice(54, 0x1168_0000, 0x17C9_0000, 0x3750_0000) by { }
    Twice(108, 0x3750_0000, 0x4B15_0000, 0xAC61_0000) by { }
  }

  lemma Power1057()
    ensures PowerIs(1057, 0xF2AF_0000)
  {
    hide PowerIs;
    Power151();
    Twice(151, 0xF008_0000, 0x0DD0_0000, 0xF10A_0000) by { }
    Sum(302, 0xF10A_0000, 151, 0xF008_0000, 0xFC30_0000, 0xE624_0000) by { }
    Twice(453, 0xE624_0000, 0x1129_0000, 0x94DE_0000) by { }
    Sum(906, 0x94DE_0000, 151, 0xF008_0000, 0xB0B3_0000, 0xF2AF_0000) by { }
  }

  lemma Power4681()
    ensures PowerIs(4681, 0x2C42_0000)
  {
    hide PowerIs;
    Power151();
    Power1057();
    Twice(1057, 0xF2AF_0000, 0x6C5E_0000, 0xF59B_0000) by { }
    Sum(2114, 0xF59B_0000, 151, 0xF008_0000, 0x7BA3_0000, 0xB0C3_0000) by { }
    Twice(2265, 0xB0C3_0000, 0x6DB1_0000, 0xA23C_0000) by { }
    Sum(4530, 0xA23C_0000, 151, 0xF008_0000, 0xE901_0000, 0x2C42_0000) by { }
  }

  lemma Power32767()
    ensures PowerIs(32767, 0x0001_0000)
  {
    hide PowerIs;
    Power4681();
    Twice(4681, 0x2C42_0000, 0x1BDC_0000, 0x8635_0000) by { }
    Sum(9362, 0x8635_0000, 4681, 0x2C42_0000, 0x9D2B_0000, 0xDC5C_0000) by { }
    Twice(14043, 0xDC5C_0000, 0x2584_0000, 0x762B_0000) by { }
    Sum(28086, 0x762B_0000, 4681, 0x2C42_0000, 0x6D18_0000, 0x0001_0000) by { }
  }

  /** k is a period exactly when the word of x^k is the one of 1. */
  lemma PeriodByWord(k: nat, c: bv32)
    requires PowerIs(k, c)
    ensures Period(GENERATOR, k) <==> c == 0x0001_0000
  {
    hide Wide, WordBits, Period, WordPowers.PowerIs;
    GeneratorBits();
    WideConstants();
    PowerZero();
    WordPowers.PeriodByWord(WIDE_POLYNOMIAL, 16, 0x0001_0000, k, c);
  }

  /** 32767 without one of its primes is no period. */
  lemma Cofactors(p: nat, m: nat)
    requires p in [7, 31, 151] && Factors(p, m, 32767)
    ensures !Period(GENERATOR, m)
  {
    hide Period, PowerIs;
    if p == 7 {
      Power4681();
      PeriodByWord(m, 0x2C42_0000);
    } else if p == 31 {
      Power1057();
      PeriodByWord(m, 0xF2AF_0000);
    } else {
      Power217();
      PeriodByWord(m, 0x48E3_0000);
    }
  }

  lemma PrimeFactors()
    ensures ProductOf([7, 31, 151]) == 32767
  {
    assert [7, 31, 151][..2] == [7, 31] && [7, 31][..1] == [7] && [7][..0] == [];
    assert ProductOf([7]) == 7 && ProductOf([7, 31]) == 217;
  }

  /** x^d is 1 exactly at the multiples of 32767. */
  lemma PeriodsOfX(d: nat)
    ensures Period(GENERATOR, d) <==> d % 32767 == 0
  {
    hide Period, PowerIs, ProductOf, Prime;
    Power32767();
    PeriodByWord(32767, 0x0001_0000);
    SmallPrimes();
    PrimeFactors();
    forall p: nat, m: nat | p in [7, 31, 151] && Factors(p, m, 32767) ensures !Period(GENERATOR, m) {
      Cofactors(p, m);
    }
    OrderTest(GENERATOR, [7, 31, 151], 32767, d);
  }

  /** d steps of the register take 1 back to 1 exactly at the multiples of 32767. */
  lemma OrderOfX(d: nat)
    ensures Steps(1, d) == 1 <==> d % 32767 == 0
  {
    hide RegisterBits, Run, Step, Steps;
    StepsRun(1, d);
    LowestBit();
    if Period(GENERATOR, d) {
      RegisterBitsInjective(Steps(1, d), 1);
    }
    PeriodsOfX(d);
  }
}

/** The CRC-16 register as a 16-stage shift register over the message bits. */
module Crc16Register {
  import opened BitStrings
  import opened Lfsr
  import opened Words
  import opened ByteStrings
  import opened Crc16

  function Wide(c: bv16): bv32 {
    (c as bv32) << 16
  }

  function RegisterBits(c: bv16): (r: Bits)
    ensures |r| == 16
  {
    WordBits(Wide(c), 16)
  }

  /** The low coefficients of x^16 + x^12 + x^5 + 1, highest first. */
  const GENERATOR: Bits := [false, false, false, true, false, false, false, false,
                            false, false, true, false, false, false, false, true]

  lemma GeneratorBits()
    ensures GENERATOR == RegisterBits(POLYNOMIAL)
  {
    var w := Wide(POLYNOMIAL);
    assert w == 0x1021_0000;
    hide Top, Shl, Wide;
    WordBitsSplit(w, 8, 8);
    LeadingBits(0x10);
    LeadingBits(0x21);
    ShlByConstant(w);
    PolynomialBytes();
  }

  lemma PolynomialBytes()
    ensures WordBits(0x1021_0000, 8) == ByteBits(MsbFirst, 0x10)
  {
  }

  lemma WideShift(c: bv16)
    ensures Wide(c << 1) == Shl(Wide(c))
    ensures Top(Wide(c)) <==> c & TOP_BIT != 0
  {
  }

  lemma WideAdd(c: bv16, d: bv16)
    ensures Wide(c ^ d) == Add(Wide(c), Wide(d))
  {
  }

  lemma StepWide(c: bv16)
    ensures Wide(Step(c)) == Clock(Wide(POLYNOMIAL), Wide(c))
  {
    hide Wide, Shl, Top, Add;
    WideShift(c);
    WideAdd(c << 1, POLYNOMIAL);
  }

  lemma LoadWide(c: bv16, b: bv8)
    ensures Wide(Loaded(c, b)) == Add(Wide(c), Leading(b))
  {
  }

  lemma WideFits(c: bv16)
    ensures Fits(Wide(c), 16)
  {
    hide ShlBy;
    ShiftedOut(Wide(c));
    assert Wide(c) << 16 == 0;
  }

  lemma {:induction false} StepsWide(c: bv16, k: nat)
    ensures Wide(Steps(c, k)) == Clocks(Wide(POLYNOMIAL), Wide(c), k)
  {
    hide Wide, Step, Clock;
    if k > 0 {
      StepsWide(c, k - 1);
      StepWide(Steps(c, k - 1));
    }
  }

  lemma StepsRun(c: bv16, k: nat)
    ensures RegisterBits(Steps(c, k)) == Run(GENERATOR, RegisterBits(c), Zeros(k))
  {
    hide Wide, Step, Steps, Clocks, WordBits, Run, Fits;
    StepsWide(c, k);
    WideFits(c);
    WideFits(POLYNOMIAL);
    ClocksRun(Wide(POLYNOMIAL), Wide(c), 16, k);
    GeneratorBits();
  }

  lemma LeadingPadded(b: bv8)
    ensures WordBits(Leading(b), 16) == ByteBits(MsbFirst, b) + Zeros(8)
  {
    hide Leading, WordBits, ByteBits;
    WordBitsSplit(Leading(b), 8, 8);
    LeadingGone(b);
    ZeroWordBits(8);
    LeadingBits(b);
  }

  lemma LoadedBits(c: bv16, b: bv8)
    ensures RegisterBits(Loaded(c, b)) == Xor(RegisterBits(c), ByteBits(MsbFirst, b) + Zeros(8))
  {
    hide Wide, Leading, Loaded, WordBits, ByteBits;
    LoadWide(c, b);
    WordBitsAdd(Wide(c), Leading(b), 16);
    LeadingPadded(b);
  }

  /** Eight clocks after adding a byte to the high half read the byte's bits, highest first. */
  lemma ByteRun(c: bv16, b: bv8)
    ensures RegisterBits(Steps(Loaded(c, b), 8)) == Run(GENERATOR, RegisterBits(c), ByteBits(MsbFirst, b))
  {
    hide Loaded, Steps, RegisterBits, ByteBits, Run;
    LoadedBits(c, b);
    StepsRun(Loaded(c, b), 8);
    RunPreloaded(GENERATOR, RegisterBits(c), ByteBits(MsbFirst, b));
  }

  /** The byte loop is the bit register run over the message bits. */
  lemma {:induction false} AccumulatedRun(c: bv16, data: Bytes)
    ensures RegisterBits(Accumulated(c, data)) == Run(GENERATOR, RegisterBits(c), DataBits(MsbFirst, data))
    decreases |data|
  {
    hide Loaded, Steps, RegisterBits, ByteBits;
    if data != [] {
      var k := |data| - 1;
      AccumulatedRun(c, data[..k]);
      ByteRun(Accumulated(c, data[..k]), data[k]);
      RunAppend(GENERATOR, RegisterBits(c), DataBits(MsbFirst, data[..k]), ByteBits(MsbFirst, data[k]));
    }
  }

  lemma RegisterBitsInjective(c: bv16, d: bv16)
    requires RegisterBits(c) == RegisterBits(d)
    ensures c == d
  {
    assert Wide(c) == Wide(d) by {
      hide Wide, ShlBy;
      WideFits(c);
      WideFits(d);
      ShlBySame(Wide(c), Wide(d), 0, 16);
      ShlByConstant(Wide(c));
      ShlByConstant(Wide(d));
    }
    WideInjective(c, d);
  }

  lemma WideInjective(c: bv16, d: bv16)
    requires Wide(c) == Wide(d)
    ensures c == d
  {
  }

  // The two bytes in which a checksum travels.

  function HighByte(c: bv16): bv8 {
    (c >> 8) as bv8
  }

  function LowByte(c: bv16): bv8 {
    (c & 0xFF) as bv8
  }

  lemma WideHalves(c: bv16)
    ensures Wide(c) == Add(Leading(HighByte(c)), Second(LowByte(c)))
  {
  }

  lemma SecondTopClear(b: bv8, i: nat)
    requires i < 8
    ensures !Top(ShlBy(Second(b), i))
  {
    hide ShlBy;
    ShlByConstant(Second(b));
  }

  lemma SecondPadded(b: bv8)
    ensures WordBits(Second(b), 16) == Zeros(8) + ByteBits(MsbFirst, b)
  {
    assert WordBits(Second(b), 8) == Zeros(8) by {
      hide Top, ShlBy, Second;
      forall i: nat | i < 8 ensures !Top(ShlBy(Second(b), i)) {
        SecondTopClear(b, i);
      }
    }
    hide Leading, Second, WordBits, ByteBits;
    WordBitsSplit(Second(b), 8, 8);
    LeadingGone(b);
    LeadingBits(b);
  }

  /** A register reads as its big-endian byte pair. */
  lemma BigEndianBits(c: bv16)
    ensures RegisterBits(c) == DataBits(MsbFirst, [HighByte(c), LowByte(c)])
  {
    var h, l := HighByte(c), LowByte(c);
    var hb, lb := ByteBits(MsbFirst, h), ByteBits(MsbFirst, l);
    assert RegisterBits(c) == Xor(hb + Zeros(8), Zeros(8) + lb) by {
      hide Wide, Leading, Second, WordBits, ByteBits;
      WideHalves(c);
      WordBitsAdd(Leading(h), Second(l), 16);
      LeadingPadded(h);
      SecondPadded(l);
    }
    assert Xor(hb + Zeros(8), Zeros(8) + lb) == hb + lb by {
      hide ByteBits;
    }
    hide ByteBits;
    DataBitsSnoc(MsbFirst, [], h);
    DataBitsSnoc(MsbFirst, [h], l);
    assert [] + [h] == [h] && [h] + [l] == [h, l];
  }
}

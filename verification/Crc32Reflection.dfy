/** The reflected CRC-32 loop against the textbook form: bits reversed on the way in and out, and a
    left-shifting register with the polynomial 0x04C11DB7 in between. */
module Crc32Reflection {
  import opened BitStrings
  import opened Lfsr
  import opened Words
  import opened ByteStrings
  import opened Crc32

  const POLYNOMIAL: bv32 := 0x04C1_1DB7

  function Reverse32(c: bv32): bv32 {
    var c1 := ((c >> 1) & 0x5555_5555) | ((c & 0x5555_5555) << 1);
    var c2 := ((c1 >> 2) & 0x3333_3333) | ((c1 & 0x3333_3333) << 2);
    var c4 := ((c2 >> 4) & 0x0F0F_0F0F) | ((c2 & 0x0F0F_0F0F) << 4);
    var c8 := ((c4 >> 8) & 0x00FF_00FF) | ((c4 & 0x00FF_00FF) << 8);
    (c8 >> 16) | (c8 << 16)
  }

  function Reverse8(b: bv8): bv8 {
    var b1 := ((b >> 1) & 0x55) | ((b & 0x55) << 1);
    var b2 := ((b1 >> 2) & 0x33) | ((b1 & 0x33) << 2);
    (b2 >> 4) | (b2 << 4)
  }

  lemma ReverseShift(c: bv32)
    ensures Reverse32(c >> 1) == Shl(Reverse32(c))
    ensures Top(Reverse32(c)) <==> c & 1 != 0
  {
  }

  lemma ReverseAdd(c: bv32, d: bv32)
    ensures Reverse32(c ^ d) == Add(Reverse32(c), Reverse32(d))
  {
  }

  lemma ReverseTwice(c: bv32)
    ensures Reverse32(Reverse32(c)) == c
  {
  }

  lemma ReversePolynomial()
    ensures Reverse32(REFLECTED_POLYNOMIAL) == POLYNOMIAL
    ensures Reverse32(INITIAL_VALUE) == INITIAL_VALUE
  {
  }

  lemma ReverseByte(b: bv8)
    ensures Reverse32(b as bv32) == Leading(Reverse8(b))
  {
  }

  lemma ReverseByteBit(b: bv8, i: nat)
    requires i < 8
    ensures Bit(Reverse8(b), Mask(7 - i)) == Bit(b, Mask(i))
  {
  }

  /** The textbook register: each byte is bit-reversed before it enters at the top. */
  function LeftAccumulated(c: bv32, data: Bytes): bv32
    decreases |data|
  {
    if data == [] then c
    else
      var k := |data| - 1;
      Clocks(POLYNOMIAL, Add(LeftAccumulated(c, data[..k]), Leading(Reverse8(data[k]))), 8)
  }

  /** The textbook checksum: the register is bit-reversed and inverted at the end. */
  function TextbookValue(data: Bytes): bv32 {
    Reverse32(LeftAccumulated(0xFFFF_FFFF, data)) ^ 0xFFFF_FFFF
  }

  lemma StepReflects(c: bv32)
    ensures Reverse32(Step(c)) == Clock(POLYNOMIAL, Reverse32(c))
  {
    hide Reverse32, Top, Shl, Add;
    ReverseShift(c);
    ReverseAdd(c >> 1, REFLECTED_POLYNOMIAL);
    ReversePolynomial();
  }

  lemma {:induction false} StepsReflect(c: bv32, n: nat)
    ensures Reverse32(Steps(c, n)) == Clocks(POLYNOMIAL, Reverse32(c), n)
    decreases n
  {
    hide Reverse32, Step, Clock;
    if n > 0 {
      StepsReflect(c, n - 1);
      StepReflects(Steps(c, n - 1));
    }
  }

  lemma LoadReflects(c: bv32, b: bv8)
    ensures Reverse32(Loaded(c, b)) == Add(Reverse32(c), Leading(Reverse8(b)))
  {
    hide Reverse32, Reverse8, Add, Leading;
    ReverseAdd(c, b as bv32);
    ReverseByte(b);
  }

  lemma {:induction false} AccumulatedReflects(c: bv32, data: Bytes)
    ensures Reverse32(Accumulated(c, data)) == LeftAccumulated(Reverse32(c), data)
    decreases |data|
  {
    hide Reverse32, Reverse8, Add, Leading, Loaded, Steps, Clocks;
    if data != [] {
      var k := |data| - 1;
      AccumulatedReflects(c, data[..k]);
      var r := Accumulated(c, data[..k]);
      LoadReflects(r, data[k]);
      StepsReflect(Loaded(r, data[k]), 8);
    }
  }

  /** The right-shifting loop without any reversal computes the textbook checksum. */
  lemma ValueIsTextbook(data: Bytes)
    ensures Value(data) == TextbookValue(data)
  {
    hide Reverse32, Accumulated, LeftAccumulated;
    AccumulatedReflects(INITIAL_VALUE, data);
    ReversePolynomial();
    ReverseTwice(Accumulated(INITIAL_VALUE, data));
  }

  /** Verification succeeds exactly for the textbook checksum and reports a mismatch for every other value. */
  lemma VerdictExactly(data: Bytes, receivedCRC: bv32)
    ensures Verdict(data, receivedCRC) == if receivedCRC == TextbookValue(data) then Success else ErrorMismatch
  {
    hide Value, TextbookValue;
    ValueIsTextbook(data);
  }

  // The register as a 32-stage shift register fed with the message bits, lowest bit of each byte first.

  function RegisterBits(c: bv32): (r: Bits)
    ensures |r| == 32
  {
    WordBits(Reverse32(c), 32)
  }

  /** The low coefficients of the generator, highest first. */
  function Generator32(): (r: Bits)
    ensures |r| == 32
  {
    WordBits(POLYNOMIAL, 32)
  }

  lemma ReversedByteBits(b: bv8)
    ensures ByteBits(MsbFirst, Reverse8(b)) == ByteBits(LsbFirst, b)
  {
    hide Bit, Reverse8, Mask;
    forall i: nat | i < 8 ensures Bit(Reverse8(b), Mask(7 - i)) == Bit(b, Mask(i)) {
      ReverseByteBit(b, i);
    }
  }

  lemma LeadingPadded32(b: bv8)
    ensures WordBits(Leading(b), 32) == ByteBits(MsbFirst, b) + Zeros(24)
  {
    hide Leading, WordBits, ByteBits;
    WordBitsSplit(Leading(b), 8, 24);
    LeadingGone(b);
    ZeroWordBits(24);
    LeadingBits(b);
  }

  /** The right-shifting steps are zero bits fed to the register. */
  lemma StepsRun(c: bv32, n: nat)
    ensures RegisterBits(Steps(c, n)) == Run(Generator32(), RegisterBits(c), Zeros(n))
  {
    hide Steps, Reverse32, Run, WordBits, Clocks, ShlBy;
    StepsReflect(c, n);
    ShiftedOut(Reverse32(c));
    ShiftedOut(POLYNOMIAL);
    ClocksRun(POLYNOMIAL, Reverse32(c), 32, n);
  }

  lemma ByteRun(c: bv32, b: bv8)
    ensures RegisterBits(Steps(Loaded(c, b), 8)) == Run(Generator32(), RegisterBits(c), ByteBits(LsbFirst, b))
  {
    hide Loaded, Steps, Reverse32, Reverse8, ByteBits, Run, Add, Leading, WordBits, Clocks, ShlBy;
    var r, m := Reverse8(b), ByteBits(LsbFirst, b);
    StepsRun(Loaded(c, b), 8);
    LoadReflects(c, b);
    WordBitsAdd(Reverse32(c), Leading(r), 32);
    LeadingPadded32(r);
    ReversedByteBits(b);
    RunPreloaded(Generator32(), RegisterBits(c), m);
  }

  lemma {:induction false} AccumulatedRun(c: bv32, data: Bytes)
    ensures RegisterBits(Accumulated(c, data)) == Run(Generator32(), RegisterBits(c), DataBits(LsbFirst, data))
    decreases |data|
  {
    hide Loaded, Steps, RegisterBits, ByteBits, Generator32;
    if data != [] {
      var k := |data| - 1;
      AccumulatedRun(c, data[..k]);
      ByteRun(Accumulated(c, data[..k]), data[k]);
      RunAppend(Generator32(), RegisterBits(c), DataBits(LsbFirst, data[..k]), ByteBits(LsbFirst, data[k]));
    }
  }

  lemma RegisterBitsInjective(c: bv32, d: bv32)
    requires RegisterBits(c) == RegisterBits(d)
    ensures c == d
  {
    hide Reverse32;
    WordBitsInjective(Reverse32(c), Reverse32(d));
    ReverseTwice(c);
    ReverseTwice(d);
  }
}

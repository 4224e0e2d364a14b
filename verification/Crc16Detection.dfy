/** Which error patterns the CRC-16 can never miss. A pattern is the bitwise difference of the
    received and the sent bits. */
module Crc16Detection {
  import opened BitStrings
  import opened Lfsr
  import opened LfsrOrder
  import opened ByteStrings
  import opened Gf2Polynomials
  import opened LfsrDivision
  import opened Crc16
  import opened Crc16Register
  import opened Crc16Division
  import opened Crc16Order

  /** What is left in the register after the message and its checksum have been fed. */
  function Residue(m: Bits): Bits {
    Run(GENERATOR, RegisterBits(INITIAL_VALUE), m)
  }

  /** The generator divides the pattern, read as a polynomial. */
  ghost predicate Divisible(e: Bits) {
    MultipleOf(OfBits(e), CCITT)
  }

  /** The divisible patterns are the ones that leave a zero register at zero. */
  lemma DivisibleVanishes(e: Bits)
    ensures Divisible(e) <==> Vanishes(GENERATOR, e)
  {
    hide Run, Times, OfBits;
    GeneratorIsCcitt();
    VanishesExactly(GENERATOR, e);
  }

  /** Two bytes after a buffer leave residue zero exactly when they are its big-endian checksum. */
  lemma ResidueZero(data: Bytes, hi: bv8, lo: bv8)
    ensures Residue(DataBits(MsbFirst, data + [hi, lo])) == Zeros(16)
       <==> hi == HighByte(Value(data)) && lo == LowByte(Value(data))
  {
    hide RegisterBits, Value, HighByte, LowByte;
    var c := Value(data);
    var s, t := RegisterBits(c), DataBits(MsbFirst, [hi, lo]);
    ValueRun(data);
    DataBitsAppend(MsbFirst, data, [hi, lo]);
    RunAppend(GENERATOR, RegisterBits(INITIAL_VALUE), DataBits(MsbFirst, data), t);
    OwnBitsOnly(s, t);
    BigEndianBits(c);
    if s == t {
      DataBitsInjective(MsbFirst, [HighByte(c), LowByte(c)], [hi, lo]);
      assert [HighByte(c), LowByte(c)][0] == [hi, lo][0] && [HighByte(c), LowByte(c)][1] == [hi, lo][1];
    }
  }

  lemma ValueRun(data: Bytes)
    ensures RegisterBits(Value(data)) == Residue(DataBits(MsbFirst, data))
  {
    AccumulatedRun(INITIAL_VALUE, data);
  }

  /** Sixteen bits empty the register exactly when they are its own contents. */
  lemma OwnBitsOnly(s: Bits, t: Bits)
    requires |s| == |t| == 16
    ensures Run(GENERATOR, s, t) == Zeros(16) <==> s == t
  {
    RunOwnPrefix(GENERATOR, s, 16);
    assert s[..16] == s && s[16..] + Zeros(16) == Zeros(16);
    RunDifference(GENERATOR, s, t, s);
    XorCancels(t, s);
    if s != t {
      BurstLeavesTrace(GENERATOR, 0, Xor(t, s), 0);
      assert Zeros(0) + Xor(t, s) + Zeros(0) == Xor(t, s);
    }
  }

  /** An error pattern turns a zero residue into a nonzero one exactly when the generator does not
      divide it. */
  lemma ErrorShows(m: Bits, m': Bits)
    requires |m| == |m'| && Residue(m) == Zeros(16)
    ensures Residue(m') == Zeros(16) <==> MultipleOf(OfBits(Xor(m, m')), CCITT)
  {
    hide RegisterBits, OfBits, Times;
    DivisibleVanishes(Xor(m, m'));
    RunDifference(GENERATOR, RegisterBits(INITIAL_VALUE), m, m');
  }

  lemma BurstDetected(e: Bits, p: nat)
    requires Within(e, p, 16) && e != Zeros(|e|)
    ensures !Divisible(e)
  {
    hide Run, Divisible;
    DivisibleVanishes(e);
    WindowLeavesTrace(GENERATOR, e, p);
  }

  lemma GeneratorOdd()
    ensures Odd(GENERATOR)
  {
    hide RegisterBits;
    var b := GENERATOR;
    OddZeros(3);
    OddZeros(6);
    OddZeros(4);
    OddSnoc(Zeros(3), true);
    OddSnoc(Zeros(6), true);
    OddSnoc(Zeros(4), true);
    OddAppend(Zeros(3) + [true], Zeros(6) + [true]);
    OddAppend(Zeros(3) + [true] + (Zeros(6) + [true]), Zeros(4) + [true]);
    assert b == Zeros(3) + [true] + (Zeros(6) + [true]) + (Zeros(4) + [true]);
  }

  lemma OddZeros(n: nat)
    ensures !Odd(Zeros(n))
  {
    NoOnes(Zeros(n));
  }

  lemma OddDetected(e: Bits)
    requires Odd(e)
    ensures !Divisible(e)
  {
    hide Run, Divisible;
    DivisibleVanishes(e);
    GeneratorOdd();
    OddZeros(16);
    RunParity(GENERATOR, Zeros(16), e);
  }

  /** The parity of a checksum is the parity of its message. */
  lemma ValueParity(data: Bytes)
    ensures Odd(RegisterBits(Value(data))) == Odd(DataBits(MsbFirst, data))
  {
    hide RegisterBits;
    ValueRun(data);
    GeneratorOdd();
    RunParity(GENERATOR, RegisterBits(INITIAL_VALUE), DataBits(MsbFirst, data));
    InitialEven();
  }

  lemma InitialEven()
    ensures !Odd(RegisterBits(INITIAL_VALUE))
  {
    BigEndianBits(INITIAL_VALUE);
    var f: bv8 := 0xFF;
    assert HighByte(INITIAL_VALUE) == f && LowByte(INITIAL_VALUE) == f;
    DataBitsSnoc(MsbFirst, [], f);
    DataBitsSnoc(MsbFirst, [f], f);
    assert [] + [f] == [f] && [f] + [f] == [f, f];
    OddAppend(ByteBits(MsbFirst, f), ByteBits(MsbFirst, f));
    assert [] + ByteBits(MsbFirst, f) == ByteBits(MsbFirst, f);
  }

  // Two flipped bits at distance d.

  /** The generator divides two bits at distance d exactly when d is a multiple of 32767. */
  lemma TwoBitsMissed(i: nat, d: nat, k: nat)
    requires d > 0
    ensures Divisible(Zeros(i) + ([true] + Zeros(d - 1) + [true]) + Zeros(k)) <==> d % 32767 == 0
  {
    hide Divisible, Vanishes, Period;
    DivisibleVanishes(Zeros(i) + ([true] + Zeros(d - 1) + [true]) + Zeros(k));
    TwoOnesVanish(GENERATOR, i, d, k);
    PeriodsOfX(d);
  }

  /** The generator divides no pattern of one, two or three bits within 32767 consecutive ones. */
  lemma FewBitsDetected(e: Bits)
    requires 1 <= Ones(e) <= 3 && |e| <= 32767
    ensures !Divisible(e)
  {
    hide Divisible, Zeros;
    if Ones(e) == 2 {
      var i, d, k := TwoOnesShape(e);
      TwoBitsMissed(i, d, k);
    } else {
      OddDetected(e);
    }
  }
}

/** CRC-32 as a linear code: affinity, burst detection and polynomial division. */
module Crc32Detection {
  import opened BitStrings
  import opened Lfsr
  import opened LfsrOrder
  import opened Words
  import opened ByteStrings
  import opened Gf2Polynomials
  import opened LfsrDivision
  import opened Crc32
  import opened Crc32Reflection
  import opened Crc32Order

  lemma FinishedBits(c: bv32)
    ensures RegisterBits(Finished(c)) == Xor(RegisterBits(c), RegisterBits(FINAL_XOR))
  {
    hide Reverse32, WordBits, Add;
    ReverseAdd(c, FINAL_XOR);
    WordBitsAdd(Reverse32(c), Reverse32(FINAL_XOR), 32);
  }

  function Plus32(c: bv32, d: bv32): bv32 {
    c ^ d
  }

  lemma PlusBits(c: bv32, d: bv32)
    ensures RegisterBits(Plus32(c, d)) == Xor(RegisterBits(c), RegisterBits(d))
  {
    hide Reverse32, WordBits, Add;
    ReverseAdd(c, d);
    WordBitsAdd(Reverse32(c), Reverse32(d), 32);
  }

  lemma ValueBits(data: Bytes)
    ensures RegisterBits(Value(data))
         == Xor(Run(Generator32(), RegisterBits(INITIAL_VALUE), DataBits(LsbFirst, data)), RegisterBits(FINAL_XOR))
  {
    hide RegisterBits, Finished, Accumulated;
    FinishedBits(Accumulated(INITIAL_VALUE, data));
    AccumulatedRun(INITIAL_VALUE, data);
  }

  lemma XorThree(p: Bits, q: Bits, r: Bits, f: Bits)
    requires |p| == |q| == |r| == |f|
    ensures Xor(Xor(Xor(p, f), Xor(q, f)), Xor(r, f)) == Xor(Xor(Xor(p, q), r), f)
    ensures Xor(Xor(p, p), p) == p
  {
  }

  /** The checksum is affine: it commutes with the exclusive or of three messages of one length. */
  lemma ValueIsAffine(a: Bytes, b: Bytes, c: Bytes)
    requires |a| == |b| == |c|
    ensures Plus32(Plus32(Value(a), Value(b)), Value(c)) == Value(AddData(AddData(a, b), c))
  {
    hide RegisterBits, Value, DataBits, Run, Plus32, Generator32, AddData;
    var g, s, f := Generator32(), RegisterBits(INITIAL_VALUE), RegisterBits(FINAL_XOR);
    var x, y, z := DataBits(LsbFirst, a), DataBits(LsbFirst, b), DataBits(LsbFirst, c);
    ValueBits(a);
    ValueBits(b);
    ValueBits(c);
    ValueBits(AddData(AddData(a, b), c));
    DataBitsAdd(LsbFirst, a, b);
    DataBitsAdd(LsbFirst, AddData(a, b), c);
    RunLinear(g, s, s, x, y);
    RunLinear(g, Xor(s, s), s, Xor(x, y), z);
    XorThree(Run(g, s, x), Run(g, s, y), Run(g, s, z), f);
    XorThree(s, s, s, s);
    PlusBits(Value(a), Value(b));
    PlusBits(Plus32(Value(a), Value(b)), Value(c));
    RegisterBitsInjective(Plus32(Plus32(Value(a), Value(b)), Value(c)), Value(AddData(AddData(a, b), c)));
  }

  lemma XorSame(p: Bits, q: Bits, f: Bits)
    requires |p| == |q| == |f|
    ensures Xor(p, f) == Xor(q, f) <==> p == q
  {
    if Xor(p, f) == Xor(q, f) {
      forall i | 0 <= i < |p| ensures p[i] == q[i] {
        assert Xor(p, f)[i] == Xor(q, f)[i];
      }
    }
  }

  /** x^32 + x^26 + x^23 + x^22 + x^16 + x^12 + x^11 + x^10 + x^8 + x^7 + x^5 + x^4 + x^2 + x + 1 */
  ghost const ISO_HDLC: Poly := {32, 26, 23, 22, 16, 12, 11, 10, 8, 7, 5, 4, 2, 1, 0}

  lemma PolynomialBits()
    ensures Generator32() == ByteBits(MsbFirst, 0x04) + ByteBits(MsbFirst, 0xC1)
                           + ByteBits(MsbFirst, 0x1D) + ByteBits(MsbFirst, 0xB7)
  {
    hide WordBits, ByteBits;
    WordBytes(POLYNOMIAL);
  }

  /** The set bits of the four polynomial bytes, highest first. */
  lemma ConstantBytes(i: nat)
    requires i < 8
    ensures ByteBits(MsbFirst, 0x04)[i] <==> i == 5
    ensures ByteBits(MsbFirst, 0xC1)[i] <==> i == 0 || i == 1 || i == 7
    ensures ByteBits(MsbFirst, 0x1D)[i] <==> i == 3 || i == 4 || i == 5 || i == 7
    ensures ByteBits(MsbFirst, 0xB7)[i] <==> i != 1 && i != 4
  {
    assert Bit(0x04, Mask(7 - i)) == (i == 5);
    assert Bit(0xC1, Mask(7 - i)) == (i == 0 || i == 1 || i == 7);
    assert Bit(0x1D, Mask(7 - i)) == (i == 3 || i == 4 || i == 5 || i == 7);
    assert Bit(0xB7, Mask(7 - i)) == (i != 1 && i != 4);
  }

  lemma LowestCoefficient()
    ensures Generator32()[31]
  {
    hide Generator32, ByteBits;
    PolynomialBits();
    ConstantBytes(7);
  }

  lemma CoefficientOf(e: nat)
    requires e < 32
    ensures Generator32()[31 - e] <==> e in ISO_HDLC
  {
    hide ByteBits, Generator32;
    PolynomialBits();
    ConstantBytes((31 - e) % 8);
  }

  lemma GeneratorIsIsoHdlc()
    ensures Generator(Generator32()) == ISO_HDLC
  {
    hide Generator32;
    var g := Generator32();
    forall e: nat ensures e in OfBits(g) <==> e < 32 && e in ISO_HDLC {
      if e < 32 {
        CoefficientOf(e);
        assert Coefficient(g, e) == g[31 - e];
      }
    }
  }

  lemma InitialIsAllOnes()
    ensures OfBits(RegisterBits(INITIAL_VALUE)) == AllOnes(32)
    ensures OfBits(RegisterBits(FINAL_XOR)) == AllOnes(32)
  {
    hide Reverse32, WordBits;
    var w := INITIAL_VALUE;
    ReversePolynomial();
    WordBytes(w);
    OnesBytes();
    forall i: nat | i < 8 ensures ByteBits(MsbFirst, 0xFF)[i] {
      assert Bit(0xFF, Mask(7 - i));
    }
    hide ByteBits;
    var r := RegisterBits(w);
    assert forall i | 0 <= i < 32 :: r[i];
    forall e: nat ensures e in OfBits(r) <==> e in AllOnes(32) {
      AllOnesMember(32, e);
      if e < 32 {
        assert Coefficient(r, e) == r[31 - e];
      }
    }
  }

  lemma OnesBytes()
    ensures TopByte(INITIAL_VALUE) == 0xFF && TopByte(INITIAL_VALUE << 8) == 0xFF
    ensures TopByte(INITIAL_VALUE << 16) == 0xFF && TopByte(INITIAL_VALUE << 24) == 0xFF
  {
  }

  /** The checksum with its final inversion taken back is the remainder of the division, and only it is. */
  lemma ValueIsRemainder(data: Bytes)
    ensures exists q ::
      Divides(ISO_HDLC, 32, DataBits(LsbFirst, data), q, Plus(OfBits(RegisterBits(Value(data))), AllOnes(32)))
    ensures forall q, r ::
      Divides(ISO_HDLC, 32, DataBits(LsbFirst, data), q, r) ==>
      r == Plus(OfBits(RegisterBits(Value(data))), AllOnes(32))
  {
    hide RegisterBits, OfBits, Value, Generator32, Divides, Quotient, AllOnes;
    var g, s, m := Generator32(), RegisterBits(INITIAL_VALUE), DataBits(LsbFirst, data);
    ValueBits(data);
    GeneratorIsIsoHdlc();
    InitialIsAllOnes();
    OfBitsXor(Run(g, s, m), RegisterBits(FINAL_XOR));
    RunIsRemainder(g, s, m);
    assert OfBits(Run(g, s, m)) == Plus(OfBits(RegisterBits(Value(data))), AllOnes(32));
  }

  // Errors: a is the message that was sent with its checksum, b the one that arrived.

  /** The bits in which two messages of one length differ, in the order the register reads them. */
  function Difference(a: Bytes, b: Bytes): (e: Bits)
    requires |a| == |b|
    ensures |e| == 8 * |a|
  {
    Xor(DataBits(LsbFirst, a), DataBits(LsbFirst, b))
  }

  lemma SameValue(a: Bytes, b: Bytes)
    requires |a| == |b|
    ensures Value(a) == Value(b) <==> Vanishes(Generator32(), Difference(a, b))
  {
    hide RegisterBits, Value, DataBits, Run, Generator32;
    var g, s, f := Generator32(), RegisterBits(INITIAL_VALUE), RegisterBits(FINAL_XOR);
    var x, y := DataBits(LsbFirst, a), DataBits(LsbFirst, b);
    ValueBits(a);
    ValueBits(b);
    RunDifference(g, s, x, y);
    XorSame(Run(g, s, x), Run(g, s, y), f);
    if RegisterBits(Value(a)) == RegisterBits(Value(b)) {
      RegisterBitsInjective(Value(a), Value(b));
    }
  }

  /** Verification reports a mismatch exactly when the generator does not divide the difference. */
  lemma MismatchExactly(a: Bytes, b: Bytes)
    requires |a| == |b|
    ensures Verdict(b, Value(a)) == ErrorMismatch <==> !MultipleOf(OfBits(Difference(a, b)), ISO_HDLC)
  {
    hide Value, Vanishes, Generator32, OfBits, Times, Difference;
    SameValue(a, b);
    LowestCoefficient();
    VanishesExactly(Generator32(), Difference(a, b));
    GeneratorIsIsoHdlc();
  }

  /** Messages of one length that differ, and only within 32 consecutive bits, are told apart. */
  lemma BurstMismatch(a: Bytes, b: Bytes, p: nat)
    requires |a| == |b| && a != b && Within(Difference(a, b), p, 32)
    ensures Verdict(b, Value(a)) == ErrorMismatch
  {
    hide Value, DataBits, Run, Generator32;
    SameValue(a, b);
    XorCancels(DataBits(LsbFirst, a), DataBits(LsbFirst, b));
    if Difference(a, b) == Zeros(8 * |a|) {
      DataBitsInjective(LsbFirst, a, b);
    }
    LowestCoefficient();
    WindowLeavesTrace(Generator32(), Difference(a, b), p);
  }

  /** Two flipped bits at distance d are missed exactly when d is a multiple of 2^32 - 1. */
  lemma TwoFlipsMissed(a: Bytes, b: Bytes, i: nat, d: nat, k: nat)
    requires |a| == |b| && d > 0
    requires Difference(a, b) == Zeros(i) + ([true] + Zeros(d - 1) + [true]) + Zeros(k)
    ensures Verdict(b, Value(a)) == Success <==> d % 0xFFFF_FFFF == 0
  {
    hide Value, Vanishes, Generator32, Difference, Period;
    SameValue(a, b);
    LowestCoefficient();
    TwoOnesVanish(Generator32(), i, d, k);
    PeriodsOfX(d);
  }

  lemma SingleFlip(e: Bits) returns (p: nat)
    requires Ones(e) == 1
    ensures e != Zeros(|e|) && Within(e, p, 1)
  {
    hide Ones;
    p := LastOne(e);
    NoOnes(e[..p]);
    forall i | 0 <= i < |e| && e[i] ensures i == p {
      assert e[i] == (e[..p] + [true] + Zeros(|e| - p - 1))[i];
    }
  }

  /** One or two flipped bits in a message of less than 2^32 bits are always reported. */
  lemma FewFlipsMismatch(a: Bytes, b: Bytes)
    requires |a| == |b| && 8 * |a| <= 0xFFFF_FFFF && 1 <= Ones(Difference(a, b)) <= 2
    ensures Verdict(b, Value(a)) == ErrorMismatch
  {
    hide Value, DataBits, Zeros, Ones, Xor;
    if Ones(Difference(a, b)) == 2 {
      var i, d, k := TwoOnesShape(Difference(a, b));
      TwoFlipsMissed(a, b, i, d, k);
    } else {
      var p := SingleFlip(Difference(a, b));
      XorSelf(DataBits(LsbFirst, a));
      BurstMismatch(a, b, p);
    }
  }
}

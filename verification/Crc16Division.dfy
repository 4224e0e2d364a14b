/** CRC-16-CCITT-FALSE is polynomial division. */
module Crc16Division {
  import opened ByteStrings
  import opened Gf2Polynomials
  import opened LfsrDivision
  import opened Crc16
  import opened Crc16Register

  /** x^16 + x^12 + x^5 + 1 */
  ghost const CCITT: Poly := {16, 12, 5, 0}

  lemma GeneratorIsCcitt()
    ensures Generator(GENERATOR) == CCITT
  {
    var g := GENERATOR;
    forall e: nat ensures e in OfBits(g) <==> e in {12, 5, 0} {
      if e < 16 {
        assert g[15 - e] <==> e == 12 || e == 5 || e == 0;
      }
    }
  }

  lemma InitialIsAllOnes()
    ensures RegisterBits(INITIAL_VALUE) == seq(16, _ => true)
    ensures OfBits(RegisterBits(INITIAL_VALUE)) == AllOnes(16)
  {
    BigEndianBits(INITIAL_VALUE);
    var b := INITIAL_VALUE;
    assert HighByte(b) == 0xFF && LowByte(b) == 0xFF;
    DataBitsSnoc(MsbFirst, [], 0xFF);
    DataBitsSnoc(MsbFirst, [0xFF], 0xFF);
    assert [] + [0xFF as bv8] == [0xFF] && [0xFF as bv8] + [0xFF] == [0xFF, 0xFF];
    forall i: nat | i < 8 ensures ByteBits(MsbFirst, 0xFF)[i] {
      assert Bit(0xFF, Mask(7 - i));
    }
    var s := RegisterBits(INITIAL_VALUE);
    forall e: nat ensures e in OfBits(s) <==> e in AllOnes(16) {
      AllOnesMember(16, e);
      if e < 16 {
        assert Coefficient(s, e) == s[15 - e];
      }
    }
  }

  /** The checksum is the remainder, and no other polynomial of degree below 16 is. */
  lemma ValueIsRemainder(data: Bytes)
    ensures exists q :: Divides(CCITT, 16, DataBits(MsbFirst, data), q, OfBits(RegisterBits(Value(data))))
    ensures forall q, r :: Divides(CCITT, 16, DataBits(MsbFirst, data), q, r) ==> r == OfBits(RegisterBits(Value(data)))
  {
    hide RegisterBits, OfBits, Divides, Quotient;
    AccumulatedRun(INITIAL_VALUE, data);
    GeneratorIsCcitt();
    InitialIsAllOnes();
    var s, m := RegisterBits(INITIAL_VALUE), DataBits(MsbFirst, data);
    RunIsRemainder(GENERATOR, s, m);
    assert Divides(CCITT, 16, m, Quotient(GENERATOR, s, m), OfBits(RegisterBits(Value(data))));
  }
}

/** Byte buffers as bit strings, in the two bit orders the CRC modules use. */
module ByteStrings {
  import opened BitStrings
  import opened Words

  type Bytes = seq<bv8>

  /** MsbFirst is the order of CRC-16-CCITT-FALSE, LsbFirst the reflected order of CRC-32/ISO-HDLC. */
  datatype BitOrder = MsbFirst | LsbFirst

  function Mask(i: nat): bv8
    requires i < 8
  {
    if i == 0 then 0x01
    else if i == 1 then 0x02
    else if i == 2 then 0x04
    else if i == 3 then 0x08
    else if i == 4 then 0x10
    else if i == 5 then 0x20
    else if i == 6 then 0x40
    else 0x80
  }

  function Bit(b: bv8, mask: bv8): bool {
    b & mask != 0
  }

  function ByteBits(order: BitOrder, b: bv8): (r: Bits)
    ensures |r| == 8
  {
    seq(8, i requires 0 <= i < 8 => Bit(b, if order == MsbFirst then Mask(7 - i) else Mask(i)))
  }

  /** The bits of a buffer, byte after byte. */
  function DataBits(order: BitOrder, data: Bytes): (r: Bits)
    ensures |r| == 8 * |data|
  {
    if data == [] then [] else DataBits(order, data[..|data| - 1]) + ByteBits(order, data[|data| - 1])
  }

  lemma DataBitsSnoc(order: BitOrder, a: Bytes, b: bv8)
    ensures DataBits(order, a + [b]) == DataBits(order, a) + ByteBits(order, b)
  {
    assert (a + [b])[..|a|] == a;
  }

  lemma {:induction false} DataBitsAppend(order: BitOrder, a: Bytes, b: Bytes)
    ensures DataBits(order, a + b) == DataBits(order, a) + DataBits(order, b)
  {
    hide ByteBits;
    if b == [] {
      assert a + b == a;
    } else {
      var k := |b| - 1;
      assert (a + b)[..|a + b| - 1] == a + b[..k];
      DataBitsAppend(order, a, b[..k]);
    }
  }

  lemma SameByte(a: bv8, b: bv8)
    requires Bit(a, 0x80) == Bit(b, 0x80) && Bit(a, 0x40) == Bit(b, 0x40)
    requires Bit(a, 0x20) == Bit(b, 0x20) && Bit(a, 0x10) == Bit(b, 0x10)
    requires Bit(a, 0x08) == Bit(b, 0x08) && Bit(a, 0x04) == Bit(b, 0x04)
    requires Bit(a, 0x02) == Bit(b, 0x02) && Bit(a, 0x01) == Bit(b, 0x01)
    ensures a == b
  {
  }

  lemma ByteBitsInjective(order: BitOrder, a: bv8, b: bv8)
    requires ByteBits(order, a) == ByteBits(order, b)
    ensures a == b
  {
    hide Bit;
    var p, q := ByteBits(order, a), ByteBits(order, b);
    forall i: nat | i < 8 ensures Bit(a, Mask(i)) == Bit(b, Mask(i)) {
      var k := if order == MsbFirst then 7 - i else i;
      assert p[k] == q[k];
    }
    assert Bit(a, Mask(0)) == Bit(b, Mask(0)) && Bit(a, Mask(1)) == Bit(b, Mask(1));
    assert Bit(a, Mask(2)) == Bit(b, Mask(2)) && Bit(a, Mask(3)) == Bit(b, Mask(3));
    assert Bit(a, Mask(4)) == Bit(b, Mask(4)) && Bit(a, Mask(5)) == Bit(b, Mask(5));
    assert Bit(a, Mask(6)) == Bit(b, Mask(6)) && Bit(a, Mask(7)) == Bit(b, Mask(7));
    SameByte(a, b);
  }

  /** Two buffers of one length with the same bits are the same buffer. */
  lemma {:induction false} DataBitsInjective(order: BitOrder, a: Bytes, b: Bytes)
    requires |a| == |b| && DataBits(order, a) == DataBits(order, b)
    ensures a == b
  {
    hide ByteBits;
    if a != [] {
      var k := |a| - 1;
      var p, q := DataBits(order, a[..k]), DataBits(order, b[..k]);
      var s, t := ByteBits(order, a[k]), ByteBits(order, b[k]);
      assert p == (p + s)[..8 * k] && q == (q + t)[..8 * k];
      assert s == (p + s)[8 * k..] && t == (q + t)[8 * k..];
      DataBitsInjective(order, a[..k], b[..k]);
      ByteBitsInjective(order, a[k], b[k]);
      assert a == a[..k] + [a[k]] && b == b[..k] + [b[k]];
    }
  }

  function AddByte(a: bv8, b: bv8): bv8 {
    a ^ b
  }

  lemma AddByteBit(a: bv8, b: bv8, i: nat)
    requires i < 8
    ensures Bit(AddByte(a, b), Mask(i)) == (Bit(a, Mask(i)) != Bit(b, Mask(i)))
  {
  }

  lemma ByteBitsAdd(order: BitOrder, a: bv8, b: bv8)
    ensures ByteBits(order, AddByte(a, b)) == Xor(ByteBits(order, a), ByteBits(order, b))
  {
    hide Bit, AddByte, Mask;
    forall i: nat | i < 8
      ensures Bit(AddByte(a, b), Mask(i)) == (Bit(a, Mask(i)) != Bit(b, Mask(i)))
    {
      AddByteBit(a, b, i);
    }
  }

  /** Bytewise exclusive or of two buffers of one length. */
  function AddData(a: Bytes, b: Bytes): (r: Bytes)
    requires |a| == |b|
    ensures |r| == |a|
  {
    seq(|a|, i requires 0 <= i < |a| => AddByte(a[i], b[i]))
  }

  lemma {:induction false} DataBitsAdd(order: BitOrder, a: Bytes, b: Bytes)
    requires |a| == |b|
    ensures DataBits(order, AddData(a, b)) == Xor(DataBits(order, a), DataBits(order, b))
  {
    hide Bit, AddByte, ByteBits;
    if a != [] {
      var k := |a| - 1;
      DataBitsAdd(order, a[..k], b[..k]);
      assert AddData(a, b)[..k] == AddData(a[..k], b[..k]);
      ByteBitsAdd(order, a[k], b[k]);
    }
  }

  // A byte as the leading bits of a word.

  function Leading(b: bv8): bv32 {
    (b as bv32) << 24
  }

  function Second(b: bv8): bv32 {
    (b as bv32) << 16
  }

  lemma LeadingBit(b: bv8, i: nat)
    requires i < 8
    ensures Top(ShlBy(Leading(b), i)) == Bit(b, Mask(7 - i))
  {
    hide ShlBy, Shl;
    var c := Leading(b);
    ShlByConstant(c);
  }

  lemma LeadingBits(b: bv8)
    ensures WordBits(Leading(b), 8) == ByteBits(MsbFirst, b)
  {
    hide Top, ShlBy, Bit, Leading, Mask;
    forall i: nat | i < 8 ensures Top(ShlBy(Leading(b), i)) == Bit(b, Mask(7 - i)) {
      LeadingBit(b, i);
    }
  }

  lemma LeadingGone(b: bv8)
    ensures ShlBy(Leading(b), 8) == 0
    ensures ShlBy(Second(b), 8) == Leading(b)
  {
    hide ShlBy;
    ShlByConstant(Leading(b));
    ShlByConstant(Second(b));
  }

  function TopByte(w: bv32): bv8 {
    (w >> 24) as bv8
  }

  lemma TopByteBit(w: bv32, i: nat)
    requires i < 8
    ensures Top(ShlBy(w, i)) == Bit(TopByte(w), Mask(7 - i))
  {
    hide ShlBy, Shl;
    ShlByConstant(w);
  }

  /** The leading eight bits of a word are its top byte. */
  lemma TopByteBits(w: bv32)
    ensures WordBits(w, 8) == ByteBits(MsbFirst, TopByte(w))
  {
    hide Top, ShlBy, Bit, TopByte, Mask;
    forall i: nat | i < 8 ensures Top(ShlBy(w, i)) == Bit(TopByte(w), Mask(7 - i)) {
      TopByteBit(w, i);
    }
  }

  lemma HalfBits(w: bv32)
    ensures WordBits(w, 16) == ByteBits(MsbFirst, TopByte(w)) + ByteBits(MsbFirst, TopByte(w << 8))
  {
    hide WordBits, ByteBits, TopByte, ShlBy;
    WordBitsSplit(w, 8, 8);
    ShlByConstant(w);
    TopByteBits(w);
    TopByteBits(w << 8);
  }

  /** A word reads as its four bytes, the top one first. */
  lemma WordBytes(w: bv32)
    ensures WordBits(w, 32) == WordBits(w, 16) + WordBits(w << 16, 16)
    ensures WordBits(w, 32)
         == ByteBits(MsbFirst, TopByte(w)) + ByteBits(MsbFirst, TopByte(w << 8))
          + ByteBits(MsbFirst, TopByte(w << 16)) + ByteBits(MsbFirst, TopByte(w << 24))
  {
    hide WordBits, ByteBits, TopByte, ShlBy;
    ShiftedOut(w);
    WordBitsSplit(w, 16, 16);
    HalfBits(w);
    HalfBits(w << 16);
    assert (w << 16) << 8 == w << 24;
  }
}

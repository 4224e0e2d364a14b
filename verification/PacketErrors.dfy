/** Transmission errors behind the length field of an accepted packet. */
module PacketErrors {
  import opened BitStrings
  import opened Lfsr
  import opened ByteStrings
  import opened Gf2Polynomials
  import Crc16
  import opened Crc16Register
  import opened Crc16Division
  import opened Crc16Detection
  import opened Protocol
  import opened PacketParser

  /** received differs from the accepted packet sent at most behind the length field. */
  predicate Disturbed(sent: Bytes, received: Bytes) {
    && Decode(sent).Accepted?
    && Envelope(sent) == Success
    && |received| == |sent|
    && received[..OFFSET_COMMAND] == sent[..OFFSET_COMMAND]
  }

  /** The flipped bits of command, payload and checksum, most significant bit of each byte first. */
  function FlippedBits(sent: Bytes, received: Bytes): (e: Bits)
    requires Disturbed(sent, received)
    ensures |e| == 8 * (PacketSize(sent) - OFFSET_COMMAND)
  {
    var size := PacketSize(sent);
    Xor(DataBits(MsbFirst, sent[OFFSET_COMMAND..size]), DataBits(MsbFirst, received[OFFSET_COMMAND..size]))
  }

  /** An in-order envelope is accepted exactly when the checked bytes leave residue zero. */
  lemma AcceptanceIsResidue(raw: Bytes)
    requires Envelope(raw) == Success
    ensures Decode(raw).Accepted? || Decode(raw) == Rejected(ErrorCrcMismatch)
    ensures Decode(raw).Accepted?
       <==> Residue(DataBits(MsbFirst, raw[OFFSET_LENGTH..PacketSize(raw)])) == Zeros(16)
  {
    hide Envelope, PacketSize, HighByte, LowByte, Crc16.Value, ReadUint16BE, Residue;
    EnvelopeBounds(raw);
    var end := PacketSize(raw) - CRC_SIZE;
    var hi, lo := raw[end], raw[end + 1];
    var body := raw[OFFSET_LENGTH..end];
    var c, r := Crc16.Value(body), ReadUint16BE(hi, lo);
    assert raw[OFFSET_LENGTH..end + 2] == body + [hi, lo];
    ResidueZero(body, hi, lo);
    DecodeCompares(raw, end, c, r);
    ReadWritten(c);
    WrittenRead(hi, lo);
  }

  lemma LeadingZeros(e: Bits, n: nat)
    ensures OfBits(Zeros(n) + e) == OfBits(e)
  {
    var l := Zeros(n) + e;
    forall i: nat ensures i in OfBits(l) <==> i in OfBits(e) {
      assert i < |l| ==> l[|l| - 1 - i] == if i < |e| then e[|e| - 1 - i] else false;
    }
  }

  lemma SameEnvelope(sent: Bytes, received: Bytes)
    requires Disturbed(sent, received)
    ensures Envelope(received) == Success && PacketSize(received) == PacketSize(sent)
  {
    hide Decode, ReadUint16BE;
    assert forall i | 0 <= i < OFFSET_COMMAND :: received[i] == received[..OFFSET_COMMAND][i];
    assert forall i | 0 <= i < OFFSET_COMMAND :: sent[i] == sent[..OFFSET_COMMAND][i];
  }

  lemma CheckedBits(sent: Bytes, received: Bytes)
    requires Disturbed(sent, received)
    ensures var size := PacketSize(sent);
      Xor(DataBits(MsbFirst, sent[OFFSET_LENGTH..size]), DataBits(MsbFirst, received[OFFSET_LENGTH..size]))
        == Zeros(16) + FlippedBits(sent, received)
  {
    hide Decode, Envelope, ReadUint16BE, ByteBits, DataBits;
    SameEnvelope(sent, received);
    EnvelopeBounds(sent);
    var size := PacketSize(sent);
    var l, s, r := sent[OFFSET_LENGTH..OFFSET_COMMAND], sent[OFFSET_COMMAND..size], received[OFFSET_COMMAND..size];
    assert l == sent[..OFFSET_COMMAND][OFFSET_LENGTH..] == received[OFFSET_LENGTH..OFFSET_COMMAND];
    assert sent[OFFSET_LENGTH..size] == l + s && received[OFFSET_LENGTH..size] == l + r;
    DataBitsAppend(MsbFirst, l, s);
    DataBitsAppend(MsbFirst, l, r);
    XorAppend(DataBits(MsbFirst, l), DataBits(MsbFirst, s), DataBits(MsbFirst, r));
  }

  lemma XorAppend(a: Bits, b: Bits, c: Bits)
    requires |b| == |c|
    ensures Xor(a + b, a + c) == Zeros(|a|) + Xor(b, c)
  {
  }

  /** The parser reports a CRC mismatch exactly when the generator does not divide the flipped bits;
      otherwise it accepts the disturbed packet. */
  lemma Verdict(sent: Bytes, received: Bytes)
    requires Disturbed(sent, received)
    ensures Decode(received) == Rejected(ErrorCrcMismatch)
       <==> !MultipleOf(OfBits(FlippedBits(sent, received)), CCITT)
    ensures Decode(received).Accepted? <==> MultipleOf(OfBits(FlippedBits(sent, received)), CCITT)
  {
    hide Envelope, PacketSize, Decode, Residue, Times, OfBits, DataBits;
    SameEnvelope(sent, received);
    EnvelopeBounds(sent);
    AcceptanceIsResidue(sent);
    AcceptanceIsResidue(received);
    CheckedBits(sent, received);
    var size := PacketSize(sent);
    ErrorShows(DataBits(MsbFirst, sent[OFFSET_LENGTH..size]), DataBits(MsbFirst, received[OFFSET_LENGTH..size]));
    LeadingZeros(FlippedBits(sent, received), 16);
  }

  /** Flipping any nonempty set of bits within 16 consecutive ones is reported. */
  lemma BurstRejected(sent: Bytes, received: Bytes, p: nat)
    requires Disturbed(sent, received)
    requires received[OFFSET_COMMAND..PacketSize(sent)] != sent[OFFSET_COMMAND..PacketSize(sent)]
    requires Within(FlippedBits(sent, received), p, 16)
    ensures Decode(received) == Rejected(ErrorCrcMismatch)
  {
    hide Envelope, PacketSize, Decode, Times, OfBits, DataBits;
    var size := PacketSize(sent);
    Verdict(sent, received);
    var s, r := sent[OFFSET_COMMAND..size], received[OFFSET_COMMAND..size];
    XorCancels(DataBits(MsbFirst, s), DataBits(MsbFirst, r));
    if FlippedBits(sent, received) == Zeros(8 * |s|) {
      DataBitsInjective(MsbFirst, s, r);
    }
    BurstDetected(FlippedBits(sent, received), p);
  }

  /** Flipping an odd number of bits is reported. */
  lemma OddFlipsRejected(sent: Bytes, received: Bytes)
    requires Disturbed(sent, received) && Odd(FlippedBits(sent, received))
    ensures Decode(received) == Rejected(ErrorCrcMismatch)
  {
    hide Envelope, PacketSize, Decode, Times, OfBits, DataBits;
    Verdict(sent, received);
    OddDetected(FlippedBits(sent, received));
  }

  /** Flipping one, two or three bits anywhere behind the length field is reported. */
  lemma FewFlipsRejected(sent: Bytes, received: Bytes)
    requires Disturbed(sent, received) && 1 <= Ones(FlippedBits(sent, received)) <= 3
    ensures Decode(received) == Rejected(ErrorCrcMismatch)
  {
    FlipsFit(sent, received);
    hide Envelope, PacketSize, Decode, Times, OfBits, DataBits;
    Verdict(sent, received);
    FewBitsDetected(FlippedBits(sent, received));
  }

  lemma FlipsFit(sent: Bytes, received: Bytes)
    requires Disturbed(sent, received)
    ensures |FlippedBits(sent, received)| <= 2064
  {
    hide Decode, ReadUint16BE;
  }
}

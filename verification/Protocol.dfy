/** The on-wire packet: two header bytes, big-endian length, command, payload, big-endian CRC-16. */
module Protocol {
  import opened ByteStrings
  import Crc16
  import opened Crc16Register

  const HEADER1: bv8 := 0xAA
  const HEADER2: bv8 := 0x55

  const HEADER_SIZE: nat := 2
  const LENGTH_SIZE: nat := 2
  const COMMAND_SIZE: nat := 1
  const CRC_SIZE: nat := 2
  const MAX_PAYLOAD_SIZE: nat := 255
  const MIN_PACKET_SIZE: nat := HEADER_SIZE + LENGTH_SIZE + COMMAND_SIZE + CRC_SIZE

  const OFFSET_LENGTH: nat := HEADER_SIZE
  const OFFSET_COMMAND: nat := HEADER_SIZE + LENGTH_SIZE
  const OFFSET_PAYLOAD: nat := HEADER_SIZE + LENGTH_SIZE + COMMAND_SIZE

  datatype Message = Message(commandId: bv8, payload: Bytes)

  predicate Sendable(m: Message) {
    |m.payload| <= MAX_PAYLOAD_SIZE
  }

  function BigEndian(v: bv16): (r: Bytes)
    ensures |r| == 2
  {
    [HighByte(v), LowByte(v)]
  }

  function Widened(b: bv8): bv16 {
    b as bv16
  }

  function Joined(hi: bv16, lo: bv16): bv16 {
    (hi << 8) | lo
  }

  function ReadUint16BE(hi: bv8, lo: bv8): bv16 {
    Joined(Widened(hi), Widened(lo))
  }

  /** A number as a 16-bit word, and back. */
  function WordOf(n: nat): bv16
    requires n < 0x1_0000
  {
    n as bv16
  }

  function NumberOf(v: bv16): nat {
    v as nat
  }

  /** The bytes the checksum covers. */
  function Body(m: Message): (r: Bytes)
    requires Sendable(m)
    ensures |r| == LENGTH_SIZE + COMMAND_SIZE + |m.payload|
  {
    BigEndian(WordOf(COMMAND_SIZE + |m.payload|)) + [m.commandId] + m.payload
  }

  /** The frame of a message. */
  function Frame(m: Message): (r: Bytes)
    requires Sendable(m)
    ensures |r| == MIN_PACKET_SIZE + |m.payload|
  {
    [HEADER1, HEADER2] + Body(m) + BigEndian(Crc16.Value(Body(m)))
  }

  lemma SubSlice<T>(s: seq<T>, start: nat, len: nat, from: nat, to: nat)
    requires start + len <= |s| && from <= to <= len
    ensures s[start..start + len][from..to] == s[start + from..start + to]
  {
    var l, r := s[start..start + len][from..to], s[start + from..start + to];
    forall i | 0 <= i < to - from ensures l[i] == r[i] {
    }
    assert l == r;
  }

  lemma Split<T>(s: seq<T>, i: nat, j: nat)
    requires i <= j <= |s|
    ensures s[..j] == s[..i] + s[i..j] && s == s[..j] + s[j..]
    ensures s[..j][i..] == s[i..j]
    ensures s[i..][j - i..] == s[j..]
  {
  }

  /** The bytes in front of the payload. */
  function Front(commandId: bv8, declaredLength: bv16): (r: Bytes)
    ensures |r| == OFFSET_PAYLOAD
  {
    [HEADER1, HEADER2] + BigEndian(declaredLength) + [commandId]
  }

  lemma BodyAssembled(w: Bytes, m: Message)
    requires Sendable(m)
    requires w == Front(m.commandId, WordOf(COMMAND_SIZE + |m.payload|)) + m.payload
    ensures w == [HEADER1, HEADER2] + Body(m)
    ensures w[OFFSET_LENGTH..] == Body(m)
  {
    hide BigEndian;
  }

  lemma FrameAssembled(w: Bytes, m: Message)
    requires Sendable(m) && |w| >= MIN_PACKET_SIZE + |m.payload|
    requires var end := OFFSET_PAYLOAD + |m.payload|;
      && w[..end] == Front(m.commandId, WordOf(COMMAND_SIZE + |m.payload|)) + m.payload
      && w[end..end + 2] == BigEndian(Crc16.Value(Body(m)))
    ensures w == Frame(m) + w[MIN_PACKET_SIZE + |m.payload|..]
  {
    hide BigEndian, Body, Crc16.Value, Front;
    var end := OFFSET_PAYLOAD + |m.payload|;
    BodyAssembled(w[..end], m);
    Split(w, end, end + 2);
  }

  lemma ReadWritten(v: bv16)
    ensures ReadUint16BE(HighByte(v), LowByte(v)) == v
  {
  }

  lemma WrittenRead(hi: bv8, lo: bv8)
    ensures HighByte(ReadUint16BE(hi, lo)) == hi && LowByte(ReadUint16BE(hi, lo)) == lo
  {
  }

  lemma NextNumber(v: bv16)
    requires NumberOf(v) <= 255
    ensures NumberOf(v + 1) == NumberOf(v) + 1
  {
  }

  lemma WordOfNumber(v: bv16, n: nat)
    requires NumberOf(v) == n
    ensures n < 0x1_0000 && WordOf(n) == v
  {
  }

  lemma NumberZero()
    ensures NumberOf(0) == 0 && WordOf(0) == 0
  {
  }

  /** Lengths up to 256 survive the conversion to 16 bits. */
  lemma {:induction false} LengthFits(n: nat)
    requires n <= 256
    ensures NumberOf(WordOf(n)) == n
  {
    hide WordOf, NumberOf;
    if n == 0 {
      NumberZero();
    } else {
      LengthFits(n - 1);
      NextNumber(WordOf(n - 1));
      WordOfNumber(WordOf(n - 1) + 1, n);
    }
  }

  function ByteNumber(b: bv8): nat {
    b as nat
  }

  /** Two bytes read as a number, the more significant one first. */
  function Unsigned(hi: bv8, lo: bv8): nat {
    256 * ByteNumber(hi) + ByteNumber(lo)
  }

  lemma WidenedNumber(b: bv8)
    ensures Widened(b) <= 0xFF && NumberOf(Widened(b)) == ByteNumber(b)
  {
  }

  lemma ShiftedNumber(v: bv16)
    requires v <= 0xFF
    ensures NumberOf(v << 8) == 256 * NumberOf(v)
  {
  }

  lemma JoinedNumber(hi: bv16, lo: bv16)
    requires hi <= 0xFF && lo <= 0xFF
    ensures NumberOf(Joined(hi, lo)) == NumberOf(hi << 8) + NumberOf(lo)
  {
  }

  /** The assembled word is the number that its two bytes show. */
  lemma ReadUnsigned(hi: bv8, lo: bv8)
    ensures NumberOf(ReadUint16BE(hi, lo)) == Unsigned(hi, lo)
  {
    hide NumberOf, ByteNumber, Widened, Joined;
    WidenedNumber(hi);
    WidenedNumber(lo);
    ShiftedNumber(Widened(hi));
    JoinedNumber(Widened(hi), Widened(lo));
  }

  lemma WrittenUnsigned(v: bv16)
    ensures Unsigned(HighByte(v), LowByte(v)) == NumberOf(v)
  {
    hide NumberOf, Unsigned, HighByte, LowByte, ReadUint16BE;
    ReadWritten(v);
    ReadUnsigned(HighByte(v), LowByte(v));
  }

  /** A frame byte by byte: the two header bytes, the length of command and payload, the command, the payload
      and the checksum of what lies between header and checksum, both numbers big-endian. */
  lemma FrameLayout(m: Message)
    requires Sendable(m)
    ensures var f, n := Frame(m), |m.payload|;
      && |f| == 7 + n && f[0] == 0xAA && f[1] == 0x55
      && Unsigned(f[2], f[3]) == 1 + n
      && f[4] == m.commandId && f[5..5 + n] == m.payload
      && Unsigned(f[5 + n], f[6 + n]) == NumberOf(Crc16.Value(f[2..5 + n]))
  {
    hide NumberOf, WordOf, Unsigned, HighByte, LowByte, Crc16.Value;
    var f, n := Frame(m), |m.payload|;
    var l, c := WordOf(COMMAND_SIZE + n), Crc16.Value(Body(m));
    assert f[2] == HighByte(l) && f[3] == LowByte(l);
    assert f[5 + n] == HighByte(c) && f[6 + n] == LowByte(c);
    assert f[2..5 + n] == Body(m);
    LengthFits(COMMAND_SIZE + n);
    WrittenUnsigned(l);
    WrittenUnsigned(c);
  }
}

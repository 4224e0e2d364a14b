/** Validation and decoding of one frame. */
module PacketParser {
  import opened ByteStrings
  import Crc16
  import opened Options
  import opened Protocol

  datatype Status = Success | ErrorNullPointer | ErrorInvalidLength | ErrorInvalidHeader | ErrorCrcMismatch

  datatype Decoded = Accepted(message: Message) | Rejected(status: Status)

  function ReadLength(hi: bv8, lo: bv8): nat {
    NumberOf(ReadUint16BE(hi, lo))
  }

  /** The Length field of a buffer. */
  function DeclaredLength(raw: Bytes): nat
    requires |raw| >= OFFSET_COMMAND
  {
    ReadLength(raw[OFFSET_LENGTH], raw[OFFSET_LENGTH + 1])
  }

  /** The size of the frame that a buffer's Length field announces. */
  function PacketSize(raw: Bytes): nat
    requires |raw| >= OFFSET_COMMAND
  {
    HEADER_SIZE + LENGTH_SIZE + DeclaredLength(raw) + CRC_SIZE
  }

  /** Everything the parser checks before the checksum, in its order. */
  function Envelope(raw: Bytes): (s: Status)
    ensures s == Success ==>
      |raw| >= MIN_PACKET_SIZE && MIN_PACKET_SIZE <= PacketSize(raw) <= MIN_PACKET_SIZE + MAX_PAYLOAD_SIZE
      && PacketSize(raw) <= |raw|
  {
    if |raw| < MIN_PACKET_SIZE then ErrorInvalidLength
    else if raw[0] != HEADER1 || raw[1] != HEADER2 then ErrorInvalidHeader
    else if DeclaredLength(raw) < COMMAND_SIZE || DeclaredLength(raw) > COMMAND_SIZE + MAX_PAYLOAD_SIZE then
      ErrorInvalidLength
    else if |raw| < PacketSize(raw) then ErrorInvalidLength
    else Success
  }

  /** The announced size in bytes of the buffer. */
  lemma PacketSizeLaw(raw: Bytes)
    requires |raw| >= 4
    ensures PacketSize(raw) == 6 + Unsigned(raw[2], raw[3])
  {
    hide ReadUint16BE, NumberOf, Unsigned;
    ReadUnsigned(raw[2], raw[3]);
  }

  /** The checks before the checksum, on the bytes of the buffer. */
  lemma EnvelopeLaw(raw: Bytes)
    ensures Envelope(raw) ==
      if |raw| < 7 then ErrorInvalidLength
      else if raw[0] != 0xAA || raw[1] != 0x55 then ErrorInvalidHeader
      else if !(1 <= Unsigned(raw[2], raw[3]) <= 256) || |raw| < 6 + Unsigned(raw[2], raw[3]) then ErrorInvalidLength
      else Success
  {
    hide ReadUint16BE, NumberOf, Unsigned;
    if |raw| >= 4 {
      ReadUnsigned(raw[2], raw[3]);
    }
  }

  function Decode(raw: Bytes): Decoded {
    if Envelope(raw) != Success then Rejected(Envelope(raw))
    else
      var end := PacketSize(raw) - CRC_SIZE;
      if Crc16.Value(raw[OFFSET_LENGTH..end]) != ReadUint16BE(raw[end], raw[end + 1]) then Rejected(ErrorCrcMismatch)
      else Accepted(Message(raw[OFFSET_COMMAND], raw[OFFSET_PAYLOAD..end]))
  }

  lemma DecodeCompares(raw: Bytes, end: nat, computed: bv16, received: bv16)
    requires Envelope(raw) == Success && end == PacketSize(raw) - CRC_SIZE
    requires computed == Crc16.Value(raw[OFFSET_LENGTH..end]) && received == ReadUint16BE(raw[end], raw[end + 1])
    ensures Decode(raw) ==
      if computed == received then Accepted(Message(raw[OFFSET_COMMAND], raw[OFFSET_PAYLOAD..end]))
      else Rejected(ErrorCrcMismatch)
  {
    hide Envelope, ReadUint16BE, Crc16.Value, PacketSize;
  }

  lemma EnvelopeBounds(raw: Bytes)
    requires Envelope(raw) == Success
    ensures MIN_PACKET_SIZE <= PacketSize(raw) <= |raw| && PacketSize(raw) <= MIN_PACKET_SIZE + MAX_PAYLOAD_SIZE
  {
  }

  lemma DecodeRejects(raw: Bytes)
    requires Envelope(raw) != Success
    ensures Decode(raw) == Rejected(Envelope(raw))
  {
  }

  lemma AcceptedOrMismatch(raw: Bytes)
    requires Envelope(raw) == Success
    ensures Decode(raw).Accepted? || Decode(raw) == Rejected(ErrorCrcMismatch)
  {
    hide Envelope, Crc16.Value, ReadUint16BE;
  }

  class ParsedPacket {
    var commandId: bv8
    var payloadLength: nat
    /** Index into the raw buffer, None for the null pointer. */
    var payload: Option<nat>

    constructor ()
    {
      commandId, payloadLength, payload := 0, 0, None;
    }
  }

  /** The checks in front of the checksum. */
  method CheckEnvelope(rawData: array<bv8>, start: nat, rawLength: nat) returns (status: Status, declaredLength: nat)
    requires start + rawLength <= rawData.Length
    ensures status == Envelope(rawData[start..start + rawLength])
    ensures status ==
      if rawLength < 7 then ErrorInvalidLength
      else if rawData[start] != 0xAA || rawData[start + 1] != 0x55 then ErrorInvalidHeader
      else
        var length := Unsigned(rawData[start + 2], rawData[start + 3]);
        if !(1 <= length <= 256) || rawLength < 6 + length then ErrorInvalidLength else Success
    ensures status == Success ==>
      PacketSize(rawData[start..start + rawLength]) == HEADER_SIZE + LENGTH_SIZE + declaredLength + CRC_SIZE
  {
    EnvelopeLaw(rawData[start..start + rawLength]);
    hide ReadUint16BE, ReadLength, Unsigned;
    declaredLength := 0;
    if rawLength < MIN_PACKET_SIZE {
      return ErrorInvalidLength, 0;
    }
    if rawData[start] != HEADER1 || rawData[start + 1] != HEADER2 {
      return ErrorInvalidHeader, 0;
    }
    declaredLength := ReadLength(rawData[start + OFFSET_LENGTH], rawData[start + OFFSET_LENGTH + 1]);
    if declaredLength < COMMAND_SIZE || declaredLength > COMMAND_SIZE + MAX_PAYLOAD_SIZE {
      return ErrorInvalidLength, 0;
    }
    var totalPacketSize := HEADER_SIZE + LENGTH_SIZE + declaredLength + CRC_SIZE;
    if rawLength < totalPacketSize {
      return ErrorInvalidLength, 0;
    }
    return Success, declaredLength;
  }

  /** The checksum comparison of a frame whose envelope is in order. */
  method CompareChecksum(rawData: array<bv8>, start: nat, rawLength: nat, declaredLength: nat)
    returns (status: Status)
    requires start + rawLength <= rawData.Length
    requires Envelope(rawData[start..start + rawLength]) == Success
    requires PacketSize(rawData[start..start + rawLength]) == HEADER_SIZE + LENGTH_SIZE + declaredLength + CRC_SIZE
    ensures var raw := rawData[start..start + rawLength];
      Decode(raw) ==
        if status == Success then
          Accepted(Message(raw[OFFSET_COMMAND], raw[OFFSET_PAYLOAD..PacketSize(raw) - CRC_SIZE]))
        else Rejected(status)
  {
    hide ReadUint16BE, Crc16.Value, Decode, PacketSize, Envelope;
    ghost var raw := rawData[start..start + rawLength];
    EnvelopeBounds(raw);
    var crcRegionSize := LENGTH_SIZE + declaredLength;
    var crcStatus, computedCrc := Crc16.Compute(rawData, start + OFFSET_LENGTH, crcRegionSize);
    if crcStatus != Crc16.Success {
      // unreachable: here PACKET_PARSER_ERROR_CRC_MISMATCH would be returned
      assert false;
    }
    var crcOffset := OFFSET_LENGTH + crcRegionSize;
    var receivedCrc := ReadUint16BE(rawData[start + crcOffset], rawData[start + crcOffset + 1]);
    SubSlice(rawData[..], start, rawLength, OFFSET_LENGTH, crcOffset);
    DecodeCompares(raw, crcOffset, computedCrc, receivedCrc);
    status := if computedCrc != receivedCrc then ErrorCrcMismatch else Success;
  }

  /** Fills in the decoded fields. */
  method Store(parsedPacket: ParsedPacket, commandId: bv8, declaredLength: nat, at: nat, ghost m: Message)
    requires m.commandId == commandId && Sendable(m) && declaredLength == COMMAND_SIZE + |m.payload|
    modifies parsedPacket
    ensures parsedPacket.commandId == m.commandId && parsedPacket.payloadLength == |m.payload|
    ensures parsedPacket.payload == if m.payload == [] then None else Some(at)
  {
    var payloadLength := declaredLength - COMMAND_SIZE;
    parsedPacket.commandId := commandId;
    parsedPacket.payloadLength := payloadLength;
    parsedPacket.payload := if payloadLength > 0 then Some(at) else None;
  }

  method Parse(rawData: array<bv8>, start: nat, rawLength: nat, parsedPacket: ParsedPacket) returns (status: Status)
    requires start + rawLength <= rawData.Length
    modifies parsedPacket
    ensures status == match Decode(old(rawData[start..start + rawLength]))
                      case Accepted(_) => Success
                      case Rejected(s) => s
    ensures var raw := old(rawData[start..start + rawLength]);
      status ==
        if |raw| < 7 then ErrorInvalidLength
        else if raw[0] != 0xAA || raw[1] != 0x55 then ErrorInvalidHeader
        else
          var length := Unsigned(raw[2], raw[3]);
          if !(1 <= length <= 256) || |raw| < 6 + length then ErrorInvalidLength
          else if Decode(raw).Accepted? then Success
          else ErrorCrcMismatch
    ensures status != Success ==> unchanged(parsedPacket)
    ensures status == Success ==>
      var m, at := Decode(old(rawData[start..start + rawLength])).message, start + 5;
      && parsedPacket.commandId == m.commandId && parsedPacket.payloadLength == |m.payload|
      && parsedPacket.payload == (if m.payload == [] then None else Some(at))
      && at + |m.payload| <= rawData.Length && old(rawData[..])[at..at + |m.payload|] == m.payload
  {
    hide ReadUint16BE, Crc16.Value, Decode, PacketSize, Envelope, Unsigned;
    ghost var raw := rawData[start..start + rawLength];
    EnvelopeLaw(raw);
    var declaredLength;
    status, declaredLength := CheckEnvelope(rawData, start, rawLength);
    if status != Success {
      DecodeRejects(raw);
      return;
    }
    AcceptedOrMismatch(raw);
    status := CompareChecksum(rawData, start, rawLength, declaredLength);
    if status != Success {
      return;
    }
    EnvelopeBounds(raw);
    SubSlice(rawData[..], start, rawLength, OFFSET_PAYLOAD, OFFSET_COMMAND + declaredLength);
    Store(parsedPacket, rawData[start + OFFSET_COMMAND], declaredLength, start + OFFSET_PAYLOAD, Decode(raw).message);
  }

  method GetPacketSize(rawData: array<bv8>, start: nat) returns (size: nat)
    requires start + HEADER_SIZE + LENGTH_SIZE <= rawData.Length
    ensures size == PacketSize(rawData[start..])
    ensures size == 6 + Unsigned(rawData[start + 2], rawData[start + 3])
  {
    hide ReadUint16BE, NumberOf, Unsigned;
    ReadUnsigned(rawData[start + 2], rawData[start + 3]);
    var declaredLength := ReadLength(rawData[start + OFFSET_LENGTH], rawData[start + OFFSET_LENGTH + 1]);
    return HEADER_SIZE + LENGTH_SIZE + declaredLength + CRC_SIZE;
  }
}

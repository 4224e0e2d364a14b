/** In-place construction of one frame. */
module PacketBuilder {
  import opened ByteStrings
  import Crc16
  import opened Crc16Register
  import Memory
  import opened Options
  import opened Protocol

  datatype Status = Success | ErrorNullPointer | ErrorInvalidLength | ErrorBufferTooSmall | ErrorCrcFailure

  method WriteUint16BE(bytes: array<bv8>, at: nat, value: bv16)
    requires at + 2 <= bytes.Length
    modifies bytes
    ensures bytes[..at] == old(bytes[..at])
    ensures bytes[at..at + 2] == BigEndian(value)
    ensures bytes[at + 2..] == old(bytes[at + 2..])
  {
    bytes[at] := HighByte(value);
    bytes[at + 1] := LowByte(value);
  }

  /** Header, length and command. */
  method WriteFront(packetBuffer: array<bv8>, commandId: bv8, declaredLength: bv16)
    requires packetBuffer.Length >= OFFSET_PAYLOAD
    modifies packetBuffer
    ensures packetBuffer[..OFFSET_PAYLOAD] == Front(commandId, declaredLength)
    ensures packetBuffer[OFFSET_PAYLOAD..] == old(packetBuffer[OFFSET_PAYLOAD..])
  {
    hide BigEndian;
    packetBuffer[0] := HEADER1;
    packetBuffer[1] := HEADER2;
    assert packetBuffer[..OFFSET_LENGTH] == [HEADER1, HEADER2];
    WriteUint16BE(packetBuffer, OFFSET_LENGTH, declaredLength);
    ghost var w := packetBuffer[..OFFSET_COMMAND];
    Split(w, OFFSET_LENGTH, OFFSET_COMMAND);
    assert w[..OFFSET_LENGTH] == packetBuffer[..OFFSET_LENGTH];
    assert w[OFFSET_LENGTH..] == packetBuffer[OFFSET_LENGTH..OFFSET_COMMAND];
    assert packetBuffer[OFFSET_PAYLOAD..] == packetBuffer[OFFSET_COMMAND..][1..];
    packetBuffer[OFFSET_COMMAND] := commandId;
    assert packetBuffer[..OFFSET_PAYLOAD] == w + [commandId];
  }

  function Contents(payload: array?<bv8>, payloadLength: nat): Bytes
    requires payload != null ==> payloadLength <= payload.Length
    reads payload
  {
    if payload == null then [] else payload[..payloadLength]
  }

  /** Copies the payload, if there is one. */
  method WritePayload(packetBuffer: array<bv8>, at: nat, payload: array?<bv8>, payloadLength: nat)
    requires payload == null ==> payloadLength == 0
    requires payload != null ==> payload != packetBuffer && payloadLength <= payload.Length
    requires at + payloadLength <= packetBuffer.Length
    modifies packetBuffer
    ensures packetBuffer[..at + payloadLength] == old(packetBuffer[..at]) + Contents(payload, payloadLength)
    ensures packetBuffer[at + payloadLength..] == old(packetBuffer[at + payloadLength..])
  {
    if payloadLength > 0 {
      Memory.Copy(packetBuffer, at, payload, 0, payloadLength);
      Split(packetBuffer[..], at, at + payloadLength);
      assert packetBuffer[..][at..at + payloadLength] == packetBuffer[at..at + payloadLength];
    } else {
      assert Contents(payload, payloadLength) == [];
    }
  }

  /** Appends the checksum of the bytes between the header and end. */
  method WriteChecksum(packetBuffer: array<bv8>, end: nat) returns (status: Status)
    requires OFFSET_LENGTH <= end && end + 2 <= packetBuffer.Length
    modifies packetBuffer
    ensures status == Success
    ensures packetBuffer[..end] == old(packetBuffer[..end])
    ensures packetBuffer[end..end + 2] == BigEndian(Crc16.Value(old(packetBuffer[..end])[OFFSET_LENGTH..]))
    ensures packetBuffer[end + 2..] == old(packetBuffer[end + 2..])
  {
    hide BigEndian, Crc16.Value;
    assert packetBuffer[OFFSET_LENGTH..end] == packetBuffer[..end][OFFSET_LENGTH..];
    var crcStatus, crc := Crc16.Compute(packetBuffer, OFFSET_LENGTH, end - OFFSET_LENGTH);
    if crcStatus != Crc16.Success {
      // unreachable: here PACKET_BUILDER_ERROR_CRC_FAILURE would be returned
      assert false;
    }
    assert OFFSET_LENGTH + (end - OFFSET_LENGTH) == end;
    WriteUint16BE(packetBuffer, end, crc);
    return Success;
  }

  /** Everything in front of the checksum. */
  method WriteBody(packetBuffer: array<bv8>, commandId: bv8, payload: array?<bv8>, payloadLength: nat)
    requires payload == null ==> payloadLength == 0
    requires payload != null ==> payload != packetBuffer && payloadLength <= payload.Length
    requires payloadLength <= MAX_PAYLOAD_SIZE && OFFSET_PAYLOAD + payloadLength <= packetBuffer.Length
    modifies packetBuffer
    ensures packetBuffer[..OFFSET_PAYLOAD + payloadLength]
         == Front(commandId, WordOf(COMMAND_SIZE + payloadLength)) + Contents(payload, payloadLength)
    ensures packetBuffer[OFFSET_PAYLOAD + payloadLength..] == old(packetBuffer[OFFSET_PAYLOAD + payloadLength..])
  {
    hide Front, Contents;
    LengthFits(COMMAND_SIZE + payloadLength);
    var declaredLength := WordOf(COMMAND_SIZE + payloadLength);
    Split(packetBuffer[..], OFFSET_PAYLOAD, OFFSET_PAYLOAD + payloadLength);
    WriteFront(packetBuffer, commandId, declaredLength);
    Split(packetBuffer[..], OFFSET_PAYLOAD, OFFSET_PAYLOAD + payloadLength);
    WritePayload(packetBuffer, OFFSET_PAYLOAD, payload, payloadLength);
  }

  /** Writes the frame of a message whose length has been checked. */
  method WriteFrame(packetBuffer: array<bv8>, commandId: bv8, payload: array?<bv8>, payloadLength: nat)
    returns (status: Status)
    requires payload == null ==> payloadLength == 0
    requires payload != null ==> payload != packetBuffer && payloadLength <= payload.Length
    requires payloadLength <= MAX_PAYLOAD_SIZE && MIN_PACKET_SIZE + payloadLength <= packetBuffer.Length
    modifies packetBuffer
    ensures status == Success
    ensures packetBuffer[..]
         == Frame(Message(commandId, Contents(payload, payloadLength)))
          + old(packetBuffer[MIN_PACKET_SIZE + payloadLength..])
  {
    hide BigEndian, Crc16.Value, Body, Frame, Front;
    ghost var m := Message(commandId, Contents(payload, payloadLength));
    var crcOffset := OFFSET_PAYLOAD + payloadLength;
    Split(packetBuffer[..], crcOffset, crcOffset + CRC_SIZE);
    WriteBody(packetBuffer, commandId, payload, payloadLength);
    Split(packetBuffer[..], crcOffset, crcOffset + CRC_SIZE);
    BodyAssembled(packetBuffer[..crcOffset], m);
    status := WriteChecksum(packetBuffer, crcOffset);
    FrameAssembled(packetBuffer[..], m);
  }

  /** packetLength is None when *packetLength stays unwritten. */
  method BuildPacket(commandId: bv8, payload: array?<bv8>, payloadLength: nat,
                     packetBuffer: array<bv8>, packetBufferSize: nat)
    returns (status: Status, packetLength: Option<nat>)
    requires payload != null && payloadLength <= MAX_PAYLOAD_SIZE ==>
      payload != packetBuffer && payloadLength <= payload.Length
    requires packetBufferSize <= packetBuffer.Length && payloadLength < 0x1_0000
    modifies packetBuffer
    ensures status ==
      if payload == null && payloadLength > 0 then ErrorNullPointer
      else if payloadLength > 255 then ErrorInvalidLength
      else if packetBufferSize < 7 + payloadLength then ErrorBufferTooSmall
      else Success
    ensures status != Success ==> packetLength == None && packetBuffer[..] == old(packetBuffer[..])
    ensures status == Success ==>
      var m := Message(commandId, if payload == null then [] else payload[..payloadLength]);
      && Sendable(m)
      && packetLength == Some(7 + payloadLength)
      && packetBuffer[..] == Frame(m) + old(packetBuffer[7 + payloadLength..])
  {
    if payload == null && payloadLength > 0 {
      return ErrorNullPointer, None;
    }
    if payloadLength > MAX_PAYLOAD_SIZE {
      return ErrorInvalidLength, None;
    }
    var totalPacketSize := MIN_PACKET_SIZE + payloadLength;
    if packetBufferSize < totalPacketSize {
      return ErrorBufferTooSmall, None;
    }
    hide Frame;
    status := WriteFrame(packetBuffer, commandId, payload, payloadLength);
    packetLength := Some(totalPacketSize);
  }
}

/** The parser accepts exactly what the builder builds. */
module PacketCodec {
  import opened ByteStrings
  import Crc16
  import opened Crc16Register
  import opened Options
  import opened Protocol
  import opened PacketParser

  lemma FrameEnvelope(m: Message, tail: Bytes)
    requires Sendable(m)
    ensures Envelope(Frame(m) + tail) == Success && PacketSize(Frame(m) + tail) == |Frame(m)|
  {
    hide HighByte, LowByte, ReadUint16BE, Crc16.Value;
    var raw, v := Frame(m) + tail, WordOf(COMMAND_SIZE + |m.payload|);
    LengthFits(COMMAND_SIZE + |m.payload|);
    ReadWritten(v);
    assert raw[OFFSET_LENGTH] == HighByte(v) && raw[OFFSET_LENGTH + 1] == LowByte(v);
    assert raw[0] == HEADER1 && raw[1] == HEADER2;
  }

  lemma FrameSlices(m: Message, tail: Bytes)
    requires Sendable(m)
    ensures var raw, end := Frame(m) + tail, OFFSET_PAYLOAD + |m.payload|;
      && raw[OFFSET_LENGTH..end] == Body(m) && raw[OFFSET_PAYLOAD..end] == m.payload
      && raw[OFFSET_COMMAND] == m.commandId
      && raw[end] == HighByte(Crc16.Value(Body(m))) && raw[end + 1] == LowByte(Crc16.Value(Body(m)))
  {
    hide HighByte, LowByte, Crc16.Value;
    var raw, end := Frame(m) + tail, OFFSET_PAYLOAD + |m.payload|;
    assert raw == [HEADER1, HEADER2] + Body(m) + (BigEndian(Crc16.Value(Body(m))) + tail);
  }

  /** A built frame, whatever follows it, parses back to its message. */
  lemma FrameDecodes(m: Message, tail: Bytes)
    requires Sendable(m)
    ensures Decode(Frame(m) + tail) == Accepted(m)
  {
    hide Envelope, PacketSize, HighByte, LowByte, Crc16.Value, Body, Frame, ReadUint16BE;
    FrameEnvelope(m, tail);
    FrameSlices(m, tail);
    var c := Crc16.Value(Body(m));
    ReadWritten(c);
    DecodeCompares(Frame(m) + tail, OFFSET_PAYLOAD + |m.payload|, c, c);
  }

  lemma BigEndianRead(raw: Bytes, at: nat)
    requires at + 2 <= |raw|
    ensures raw[at..at + 2] == BigEndian(ReadUint16BE(raw[at], raw[at + 1]))
  {
    hide HighByte, LowByte, ReadUint16BE;
    WrittenRead(raw[at], raw[at + 1]);
  }

  lemma AcceptedFront(raw: Bytes)
    requires Envelope(raw) == Success
    ensures var end := PacketSize(raw) - CRC_SIZE;
      && end <= |raw|
      && raw[..end] == Front(raw[OFFSET_COMMAND], WordOf(end - OFFSET_COMMAND)) + raw[OFFSET_PAYLOAD..end]
  {
    hide HighByte, LowByte, ReadUint16BE, BigEndian;
    var end := PacketSize(raw) - CRC_SIZE;
    var v := ReadUint16BE(raw[OFFSET_LENGTH], raw[OFFSET_LENGTH + 1]);
    BigEndianRead(raw, OFFSET_LENGTH);
    WordOfNumber(v, end - OFFSET_COMMAND);
    Cut(raw, end);
  }

  lemma Cut<T>(s: seq<T>, end: nat)
    requires 5 <= end <= |s|
    ensures s[..end] == [s[0], s[1]] + s[2..4] + [s[4]] + s[5..end]
  {
  }

  /** Rebuilding from the parsed fields reproduces the bytes that were parsed. */
  lemma AcceptedIsFrame(raw: Bytes)
    requires Decode(raw).Accepted?
    ensures var m := Decode(raw).message;
      Sendable(m) && PacketSize(raw) == |Frame(m)| <= |raw| && raw[..PacketSize(raw)] == Frame(m)
  {
    hide ReadUint16BE, HighByte, LowByte, Crc16.Value, Body, BigEndian, Front;
    var m, end := Decode(raw).message, PacketSize(raw) - CRC_SIZE;
    AcceptedFront(raw);
    var w := raw[..end + 2];
    assert w[..end] == raw[..end];
    BodyAssembled(raw[..end], m);
    assert raw[..end][OFFSET_LENGTH..] == raw[OFFSET_LENGTH..end];
    BigEndianRead(raw, end);
    assert w[end..end + 2] == raw[end..end + 2];
    FrameAssembled(w, m);
  }

  /** The parser accepts m exactly when the buffer starts with the frame of m. */
  lemma AcceptsExactlyFrames(raw: Bytes, m: Message)
    ensures Decode(raw) == Accepted(m) <==> Sendable(m) && Frame(m) <= raw
  {
    hide Decode, Frame, PacketSize;
    if Decode(raw) == Accepted(m) {
      AcceptedIsFrame(raw);
    }
    if Sendable(m) && Frame(m) <= raw {
      assert raw == Frame(m) + raw[|Frame(m)|..];
      FrameDecodes(m, raw[|Frame(m)|..]);
    }
  }

  /** Why a buffer is rejected, on its bytes alone. The first failing check decides: too short, wrong header
      bytes, a length out of range or beyond the buffer, and last a checksum that makes it start with no frame. */
  lemma RejectionLaw(raw: Bytes)
    ensures
      if |raw| < 7 then Decode(raw) == Rejected(ErrorInvalidLength)
      else if raw[0] != 0xAA || raw[1] != 0x55 then Decode(raw) == Rejected(ErrorInvalidHeader)
      else
        var length := Unsigned(raw[2], raw[3]);
        if !(1 <= length <= 256) || |raw| < 6 + length then Decode(raw) == Rejected(ErrorInvalidLength)
        else
          if exists m :: Sendable(m) && Frame(m) <= raw then Decode(raw).Accepted?
          else Decode(raw) == Rejected(ErrorCrcMismatch)
  {
    EnvelopeLaw(raw);
    if Envelope(raw) != Success {
      DecodeRejects(raw);
    } else {
      hide Envelope, Decode, Frame, Unsigned;
      AcceptedOrMismatch(raw);
      if exists m :: Sendable(m) && Frame(m) <= raw {
        var m :| Sendable(m) && Frame(m) <= raw;
        AcceptsExactlyFrames(raw, m);
      }
      if Decode(raw).Accepted? {
        AcceptsExactlyFrames(raw, Decode(raw).message);
      }
    }
  }

  /** No frame is a proper prefix of another. */
  lemma FramesPrefixFree(m: Message, n: Message)
    requires Sendable(m) && Sendable(n) && Frame(m) <= Frame(n)
    ensures m == n
  {
    hide Decode, Frame;
    AcceptsExactlyFrames(Frame(n), m);
    AcceptsExactlyFrames(Frame(n), n);
  }

  // Framing a byte stream by peeking at the size and parsing that many bytes.

  function Stream(ms: seq<Message>): Bytes
    requires forall m | m in ms :: Sendable(m)
  {
    if ms == [] then [] else Frame(ms[0]) + Stream(ms[1..])
  }

  /** None when the bytes end inside a frame or a frame is rejected. */
  function Unframe(raw: Bytes): Option<seq<Message>>
    decreases |raw|
  {
    if raw == [] then Some([])
    else if |raw| < OFFSET_COMMAND || |raw| < PacketSize(raw) then None
    else
      match Decode(raw[..PacketSize(raw)])
      case Rejected(_) => None
      case Accepted(m) =>
        match Unframe(raw[PacketSize(raw)..])
        case None => None
        case Some(ms) => Some([m] + ms)
  }

  lemma UnframeStep(m: Message, rest: Bytes)
    requires Sendable(m)
    ensures Unframe(Frame(m) + rest) == match Unframe(rest)
                                        case None => None
                                        case Some(ms) => Some([m] + ms)
  {
    hide Decode, Frame, PacketSize, Envelope;
    var raw := Frame(m) + rest;
    FrameEnvelope(m, rest);
    assert raw[..PacketSize(raw)] == Frame(m) + [] && raw[PacketSize(raw)..] == rest;
    FrameDecodes(m, []);
  }

  lemma FirstFrame(raw: Bytes)
    requires |raw| >= OFFSET_COMMAND && |raw| >= PacketSize(raw)
    requires Decode(raw[..PacketSize(raw)]).Accepted?
    ensures var m := Decode(raw[..PacketSize(raw)]).message;
      Sendable(m) && raw == Frame(m) + raw[PacketSize(raw)..]
  {
    hide Decode, Frame, ReadUint16BE;
    var size := PacketSize(raw);
    AcceptedIsFrame(raw[..size]);
    assert PacketSize(raw[..size]) == size;
    assert raw[..size][..size] == raw[..size];
  }

  lemma {:induction false} StreamUnframes(ms: seq<Message>)
    requires forall m | m in ms :: Sendable(m)
    ensures Unframe(Stream(ms)) == Some(ms)
    decreases |ms|
  {
    hide Frame, Decode, PacketSize;
    if ms == [] {
      assert Unframe([]) == Some([]);
    } else {
      hide Unframe, Sendable;
      assert ms[0] in ms && forall m | m in ms[1..] :: m in ms;
      StreamUnframes(ms[1..]);
      UnframeStep(ms[0], Stream(ms[1..]));
      assert ms == [ms[0]] + ms[1..];
    }
  }

  lemma {:induction false} UnframedIsStream(raw: Bytes, ms: seq<Message>)
    requires Unframe(raw) == Some(ms)
    ensures (forall m | m in ms :: Sendable(m)) && raw == Stream(ms)
    decreases |raw|
  {
    hide Decode, Frame, PacketSize;
    if raw != [] {
      var size := PacketSize(raw);
      FirstFrame(raw);
      assert ms == [Decode(raw[..size]).message] + ms[1..];
      UnframedIsStream(raw[size..], ms[1..]);
      assert forall n | n in ms :: n == ms[0] || n in ms[1..];
    }
  }

  /** Splitting a concatenation of frames recovers the messages, and nothing else splits. */
  lemma UnframeStream(raw: Bytes, ms: seq<Message>)
    ensures Unframe(raw) == Some(ms) <==> (forall m | m in ms :: Sendable(m)) && raw == Stream(ms)
  {
    hide Unframe, Stream, Sendable;
    if Unframe(raw) == Some(ms) {
      UnframedIsStream(raw, ms);
    }
    if (forall m | m in ms :: Sendable(m)) && raw == Stream(ms) {
      StreamUnframes(ms);
    }
  }
}

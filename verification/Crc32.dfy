/** CRC-32/ISO-HDLC (the CRC of section 8 of RFC 1952): the reflected, right-shifting bit loop. */
module Crc32 {
  import opened ByteStrings

  const REFLECTED_POLYNOMIAL: bv32 := 0xEDB8_8320
  const INITIAL_VALUE: bv32 := 0xFFFF_FFFF
  const FINAL_XOR: bv32 := 0xFFFF_FFFF

  datatype Status = Success | ErrorNullPointer | ErrorMismatch

  function Step(crc: bv32): bv32 {
    if crc & 1 != 0 then (crc >> 1) ^ REFLECTED_POLYNOMIAL else crc >> 1
  }

  lemma StepCases(crc: bv32)
    ensures crc & 1 != 0 ==> Step(crc) == (crc >> 1) ^ REFLECTED_POLYNOMIAL
    ensures crc & 1 == 0 ==> Step(crc) == crc >> 1
  {
  }

  function Steps(crc: bv32, n: nat): bv32
    decreases n
  {
    if n == 0 then crc else Step(Steps(crc, n - 1))
  }

  function Loaded(crc: bv32, b: bv8): bv32 {
    crc ^ (b as bv32)
  }

  function Accumulated(crc: bv32, data: Bytes): bv32
    decreases |data|
  {
    if data == [] then crc else Steps(Loaded(Accumulated(crc, data[..|data| - 1]), data[|data| - 1]), 8)
  }

  function Finished(crc: bv32): bv32 {
    crc ^ FINAL_XOR
  }

  /** The checksum of a buffer. */
  function Value(data: Bytes): bv32 {
    Finished(Accumulated(INITIAL_VALUE, data))
  }

  /** What the verification of a buffer reports. */
  function Verdict(data: Bytes, receivedCRC: bv32): Status {
    if Value(data) == receivedCRC then Success else ErrorMismatch
  }

  method ProcessByte(currentCRC: bv32, byteIn: bv8) returns (crc: bv32)
    ensures crc == Steps(Loaded(currentCRC, byteIn), 8)
  {
    hide Step, Loaded;
    crc := Loaded(currentCRC, byteIn);
    var bitIndex := 0;
    while bitIndex < 8
      invariant 0 <= bitIndex <= 8
      invariant crc == Steps(Loaded(currentCRC, byteIn), bitIndex)
    {
      StepCases(crc);
      if crc & 1 != 0 {
        crc := (crc >> 1) ^ REFLECTED_POLYNOMIAL;
      } else {
        crc := crc >> 1;
      }
      bitIndex := bitIndex + 1;
    }
  }

  class Context {
    var currentCRC: bv32

    /** The register at construction or at the last Init, and the bytes fed since. */
    ghost var seed: bv32
    ghost var fed: Bytes

    ghost predicate Valid()
      reads this
    {
      currentCRC == Accumulated(seed, fed)
    }

    /** A context whose memory holds an arbitrary value. */
    constructor (garbage: bv32)
      ensures Valid() && seed == garbage && fed == []
    {
      currentCRC, seed, fed := garbage, garbage, [];
    }

    method Init() returns (status: Status)
      modifies this
      ensures status == Success && Valid() && seed == INITIAL_VALUE && fed == []
    {
      currentCRC, seed, fed := INITIAL_VALUE, INITIAL_VALUE, [];
      return Success;
    }

    method Update(data: array?<bv8>, start: nat, len: nat) returns (status: Status)
      requires Valid()
      requires data != null ==> start + len <= data.Length
      modifies this
      ensures Valid() && seed == old(seed)
      ensures status == if data == null && len > 0 then ErrorNullPointer else Success
      ensures fed == old(fed) + (if data == null then [] else data[start..start + len])
    {
      hide Steps, Loaded;
      if data == null && len > 0 {
        return ErrorNullPointer;
      }
      var i := 0;
      while i < len
        invariant 0 <= i <= len
        invariant Valid() && seed == old(seed)
        invariant fed == old(fed) + (if data == null then [] else data[start..start + i])
      {
        currentCRC := ProcessByte(currentCRC, data[start + i]);
        assert (fed + [data[start + i]])[..|fed|] == fed;
        fed := fed + [data[start + i]];
        i := i + 1;
      }
      return Success;
    }

    /** The final exclusive or is applied to a copy: reading does not disturb later updates. */
    method GetResult() returns (status: Status, crc: bv32)
      requires Valid()
      ensures status == Success && crc == Finished(Accumulated(seed, fed))
    {
      hide Finished;
      return Success, Finished(currentCRC);
    }
  }

  method Compute(data: array?<bv8>, start: nat, len: nat) returns (status: Status, crc: bv32)
    requires data != null ==> start + len <= data.Length
    ensures status == if data == null && len > 0 then ErrorNullPointer else Success
    ensures status == Success ==> crc == Value(if data == null then [] else data[start..start + len])
  {
    ghost var sent: Bytes := if data == null then [] else data[start..start + len];
    crc := 0;
    var ctx := new Context(0);
    status := ctx.Init();
    status := ctx.Update(data, start, len);
    if status != Success {
      return;
    }
    assert [] + sent == sent;
    status, crc := ctx.GetResult();
  }

  method Verify(data: array?<bv8>, start: nat, len: nat, receivedCRC: bv32) returns (status: Status)
    requires data != null ==> start + len <= data.Length
    ensures status ==
      if data == null && len > 0 then ErrorNullPointer
      else Verdict(if data == null then [] else data[start..start + len], receivedCRC)
  {
    hide Value;
    var calculatedCRC;
    status, calculatedCRC := Compute(data, start, len);
    if status != Success {
      return;
    }
    if calculatedCRC != receivedCRC {
      return ErrorMismatch;
    }
    return Success;
  }
}

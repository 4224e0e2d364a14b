/** CRC-16-CCITT-FALSE: the left-shifting bit loop, its incremental context and the one-shot API. */
module Crc16 {
  import opened ByteStrings

  const POLYNOMIAL: bv16 := 0x1021
  const INITIAL_VALUE: bv16 := 0xFFFF
  const TOP_BIT: bv16 := 0x8000

  datatype Status = Success | ErrorNullPointer | ErrorMismatch

  function Step(crc: bv16): bv16 {
    if crc & TOP_BIT != 0 then (crc << 1) ^ POLYNOMIAL else crc << 1
  }

  lemma StepCases(crc: bv16)
    ensures crc & TOP_BIT != 0 ==> Step(crc) == (crc << 1) ^ POLYNOMIAL
    ensures crc & TOP_BIT == 0 ==> Step(crc) == crc << 1
  {
  }

  function Steps(crc: bv16, n: nat): bv16
    decreases n
  {
    if n == 0 then crc else Step(Steps(crc, n - 1))
  }

  function Loaded(crc: bv16, b: bv8): bv16 {
    crc ^ ((b as bv16) << 8)
  }

  function Accumulated(crc: bv16, data: Bytes): bv16
    decreases |data|
  {
    if data == [] then crc else Steps(Loaded(Accumulated(crc, data[..|data| - 1]), data[|data| - 1]), 8)
  }

  /** The checksum of a buffer. */
  function Value(data: Bytes): bv16 {
    Accumulated(INITIAL_VALUE, data)
  }

  method ProcessByte(currentCRC: bv16, byteIn: bv8) returns (crc: bv16)
    ensures crc == Steps(Loaded(currentCRC, byteIn), 8)
  {
    hide Step, Loaded;
    crc := Loaded(currentCRC, byteIn);
    var bitIndex := 0;
    while bitIndex < 8
      invariant 0 <= bitIndex <= 8
      invariant crc == Steps(Loaded(currentCRC, byteIn), bitIndex)
    {
      StepCases(crc);
      if crc & TOP_BIT != 0 {
        crc := crc << 1;
        crc := crc ^ POLYNOMIAL;
      } else {
        crc := crc << 1;
      }
      bitIndex := bitIndex + 1;
    }
  }

  class Context {
    var currentCRC: bv16

    /** The register at construction or at the last Init, and the bytes fed since. */
    ghost var seed: bv16
    ghost var fed: Bytes

    ghost predicate Valid()
      reads this
    {
      currentCRC == Accumulated(seed, fed)
    }

    /** A context whose memory holds an arbitrary value. */
    constructor (garbage: bv16)
      ensures Valid() && seed == garbage && fed == []
    {
      currentCRC, seed, fed := garbage, garbage, [];
    }

    method Init() returns (status: Status)
      modifies this
      ensures status == Success && Valid() && seed == INITIAL_VALUE && fed == []
    {
      currentCRC, seed, fed := INITIAL_VALUE, INITIAL_VALUE, [];
      return Success;
    }

    method Update(data: array?<bv8>, start: nat, len: nat) returns (status: Status)
      requires Valid()
      requires data != null ==> start + len <= data.Length
      modifies this
      ensures Valid() && seed == old(seed)
      ensures status == if data == null && len > 0 then ErrorNullPointer else Success
      ensures fed == old(fed) + (if data == null then [] else data[start..start + len])
    {
      hide Steps, Loaded;
      if data == null && len > 0 {
        return ErrorNullPointer;
      }
      var i := 0;
      while i < len
        invariant 0 <= i <= len
        invariant Valid() && seed == old(seed)
        invariant fed == old(fed) + (if data == null then [] else data[start..start + i])
      {
        currentCRC := ProcessByte(currentCRC, data[start + i]);
        assert (fed + [data[start + i]])[..|fed|] == fed;
        fed := fed + [data[start + i]];
        i := i + 1;
      }
      return Success;
    }

    method GetResult() returns (status: Status, crc: bv16)
      requires Valid()
      ensures status == Success && crc == Accumulated(seed, fed)
    {
      return Success, currentCRC;
    }
  }

  method Compute(data: array?<bv8>, start: nat, len: nat) returns (status: Status, crc: bv16)
    requires data != null ==> start + len <= data.Length
    ensures status == if data == null && len > 0 then ErrorNullPointer else Success
    ensures status == Success ==> crc == Value(if data == null then [] else data[start..start + len])
  {
    ghost var sent: Bytes := if data == null then [] else data[start..start + len];
    crc := 0;
    var ctx := new Context(0);
    status := ctx.Init();
    status := ctx.Update(data, start, len);
    if status != Success {
      return;
    }
    assert [] + sent == sent;
    status, crc := ctx.GetResult();
  }

  method Verify(data: array?<bv8>, start: nat, len: nat, receivedCRC: bv16) returns (status: Status)
    requires data != null ==> start + len <= data.Length
    ensures status ==
      if data == null && len > 0 then ErrorNullPointer
      else if Value(if data == null then [] else data[start..start + len]) != receivedCRC then ErrorMismatch
      else Success
  {
    hide Value;
    var calculatedCRC;
    status, calculatedCRC := Compute(data, start, len);
    if status != Success {
      return;
    }
    if calculatedCRC != receivedCRC {
      return ErrorMismatch;
    }
    return Success;
  }
}

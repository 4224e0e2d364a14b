/** The ring buffer object. Its abstract value is a FIFO queue of elements of elementSize bytes. */
module RingBuffer {
  import opened ByteStrings
  import Memory
  import opened RingLayout

  datatype Status = Success | ErrorNullPointer | ErrorInvalidCapacity | ErrorInvalidElementSize | ErrorFull | ErrorEmpty

  class RingBuffer {
    /** Null until a successful Init. */
    var buffer: array?<bv8>
    var head: nat
    var tail: nat
    var capacity: nat
    var elementSize: nat

    /** Since Init or the last Clear: the elements accepted by Push and those handed out by Pop. */
    ghost var accepted: seq<Bytes>
    ghost var popped: seq<Bytes>

    ghost predicate Valid()
      reads this, buffer
    {
      buffer != null ==>
        && Indices(head, tail, capacity)
        && 1 <= elementSize
        && Fits(buffer[..], capacity, elementSize)
        && accepted == popped + Contents(buffer[..], head, tail, capacity, elementSize)
    }

    ghost function Stored(): seq<Bytes>
      requires Valid() && buffer != null
      reads this, buffer
    {
      Contents(buffer[..], head, tail, capacity, elementSize)
    }

    constructor ()
      ensures Valid() && buffer == null
    {
      buffer, head, tail, capacity, elementSize := null, 0, 0, 0, 0;
      accepted, popped := [], [];
    }

    /** storage is null for the null pointer; an accepted storage must hold capacity elements. The
        object may hold anything before: nothing of it is read. */
    method Init(storage: array?<bv8>, capacity: nat, elementSize: nat) returns (status: Status)
      requires storage != null && 2 <= capacity && 1 <= elementSize ==> Fits(storage[..], capacity, elementSize)
      modifies this
      ensures status == Success || old(Valid()) ==> Valid()
      ensures status ==
        if storage == null then ErrorNullPointer
        else if capacity < 2 then ErrorInvalidCapacity
        else if elementSize < 1 then ErrorInvalidElementSize
        else Success
      ensures status != Success ==> unchanged(this)
      ensures status == Success ==>
        && buffer == storage && this.capacity == capacity && this.elementSize == elementSize
        && Stored() == [] && accepted == [] && popped == []
    {
      if storage == null {
        return ErrorNullPointer;
      }
      if capacity < 2 {
        return ErrorInvalidCapacity;
      }
      if elementSize < 1 {
        return ErrorInvalidElementSize;
      }
      buffer := storage;
      this.capacity := capacity;
      this.elementSize := elementSize;
      head := 0;
      tail := 0;
      accepted, popped := [], [];
      return Success;
    }

    /** Copies an element into the head slot. */
    method WriteHead(data: array<bv8>)
      requires Valid() && buffer != null && data != buffer && elementSize <= data.Length
      modifies buffer
      ensures Overwrites(old(buffer[..]), buffer[..], head, elementSize, data[..elementSize])
    {
      SlotInside(head, capacity, elementSize);
      hide Fits;
      Memory.Copy(buffer, head * elementSize, data, 0, elementSize);
    }

    /** Advances head past the element just written. */
    method TakeIn(ghost before: Bytes, ghost x: Bytes)
      requires buffer != null && Indices(head, tail, capacity) && 1 <= elementSize
      requires Fits(before, capacity, elementSize) && NextIndex(head, capacity) != tail
      requires Overwrites(before, buffer[..], head, elementSize, x)
      requires accepted == popped + Contents(before, head, tail, capacity, elementSize)
      modifies this`head, this`accepted
      ensures Valid() && Stored() == Contents(before, old(head), tail, capacity, elementSize) + [x]
      ensures accepted == old(accepted) + [x]
    {
      hide Contents, NextIndex;
      PushAppends(before, buffer[..], head, tail, capacity, elementSize, x);
      NextInRange(head, capacity);
      head := NextIndex(head, capacity);
      accepted := accepted + [x];
    }

    method Push(data: array?<bv8>) returns (status: Status)
      requires Valid()
      requires buffer != null && data != null ==> data != buffer && elementSize <= data.Length
      modifies this, buffer
      ensures Valid() && buffer == old(buffer) && capacity == old(capacity) && elementSize == old(elementSize)
      ensures buffer == null || data == null ==> status == ErrorNullPointer
      ensures buffer != null && data != null ==>
        && status == (if |old(Stored())| == capacity - 1 then ErrorFull else Success)
        && (status == Success ==>
              && Stored() == old(Stored()) + [old(data[..elementSize])]
              && accepted == old(accepted) + [old(data[..elementSize])] && popped == old(popped))
      ensures status != Success ==> unchanged(this) && (buffer != null ==> unchanged(buffer))
    {
      if buffer == null || data == null {
        return ErrorNullPointer;
      }
      FullAndEmpty(head, tail, capacity);
      var full := IsFull();
      if full {
        return ErrorFull;
      }
      hide Contents, NextIndex, Slot, Fits, Count, Overwrites;
      ghost var before := buffer[..];
      WriteHead(data);
      TakeIn(before, data[..elementSize]);
      return Success;
    }

    /** Copies the oldest element out. */
    method CopyOldest(data: array<bv8>)
      requires Valid() && buffer != null && data != buffer && elementSize <= data.Length
      requires head != tail
      modifies data
      ensures Valid() && |Stored()| > 0
      ensures data[..elementSize] == Stored()[0]
      ensures data[elementSize..] == old(data[elementSize..])
    {
      SlotInside(tail, capacity, elementSize);
      PopRemoves(buffer[..], head, tail, capacity, elementSize);
      Memory.Copy(data, 0, buffer, tail * elementSize, elementSize);
    }

    /** Advances tail past the oldest element. */
    method DropOldest()
      requires Valid() && buffer != null && head != tail
      modifies this`tail, this`popped
      ensures Valid() && old(|Stored()|) > 0
      ensures Stored() == old(Stored())[1..] && popped == old(popped) + [old(Stored())[0]]
    {
      hide Contents, NextIndex;
      PopRemoves(buffer[..], head, tail, capacity, elementSize);
      NextInRange(tail, capacity);
      popped := popped + [Stored()[0]];
      tail := NextIndex(tail, capacity);
    }

    method Pop(data: array?<bv8>) returns (status: Status)
      requires Valid()
      requires buffer != null && data != null ==> data != buffer && elementSize <= data.Length
      modifies this, data
      ensures Valid() && buffer == old(buffer) && capacity == old(capacity) && elementSize == old(elementSize)
      ensures buffer == null || data == null ==> status == ErrorNullPointer
      ensures buffer != null && data != null ==>
        && status == (if old(Stored()) == [] then ErrorEmpty else Success)
        && (status == Success ==>
              && data[..elementSize] == old(Stored())[0] && data[elementSize..] == old(data[elementSize..])
              && Stored() == old(Stored())[1..]
              && popped == old(popped) + [old(Stored())[0]] && accepted == old(accepted))
      ensures status != Success ==> unchanged(this) && (data != null ==> unchanged(data))
    {
      if buffer == null || data == null {
        return ErrorNullPointer;
      }
      FullAndEmpty(head, tail, capacity);
      var empty := IsEmpty();
      if empty {
        return ErrorEmpty;
      }
      hide Contents, NextIndex, Slot, Fits, Count;
      CopyOldest(data);
      DropOldest();
      return Success;
    }

    /** Hands out the element that the next Pop would, and changes nothing. */
    method Peek(data: array?<bv8>) returns (status: Status)
      requires Valid()
      requires buffer != null && data != null ==> data != buffer && elementSize <= data.Length
      modifies data
      ensures buffer == null || data == null ==> status == ErrorNullPointer
      ensures Valid()
      ensures buffer != null && data != null ==>
        && status == (if Stored() == [] then ErrorEmpty else Success)
        && (status == Success ==> data[..elementSize] == Stored()[0] && data[elementSize..] == old(data[elementSize..]))
      ensures status != Success && data != null ==> unchanged(data)
    {
      if buffer == null || data == null {
        return ErrorNullPointer;
      }
      FullAndEmpty(head, tail, capacity);
      var empty := IsEmpty();
      if empty {
        return ErrorEmpty;
      }
      CopyOldest(data);
      return Success;
    }

    method Clear() returns (status: Status)
      requires Valid()
      modifies this
      ensures Valid() && buffer == old(buffer) && capacity == old(capacity) && elementSize == old(elementSize)
      ensures status == if buffer == null then ErrorNullPointer else Success
      ensures status == Success ==> Stored() == [] && accepted == [] && popped == []
      ensures status != Success ==> unchanged(this)
    {
      if buffer == null {
        return ErrorNullPointer;
      }
      head := 0;
      tail := 0;
      accepted, popped := [], [];
      return Success;
    }

    method GetSize() returns (status: Status, size: nat)
      requires Valid()
      ensures status == if buffer == null then ErrorNullPointer else Success
      ensures status == Success ==> size == |Stored()|
    {
      if buffer == null {
        return ErrorNullPointer, 0;
      }
      if head >= tail {
        size := head - tail;
      } else {
        size := capacity - (tail - head);
      }
      status := Success;
    }

    method GetCapacity() returns (status: Status, usable: nat)
      requires Valid()
      ensures status == if buffer == null then ErrorNullPointer else Success
      ensures status == Success ==> usable == capacity - 1 && |Stored()| <= usable
    {
      if buffer == null {
        return ErrorNullPointer, 0;
      }
      FullAndEmpty(head, tail, capacity);
      return Success, capacity - 1;
    }

    method IsFull() returns (full: bool)
      requires Valid()
      ensures full <==> buffer != null && |Stored()| == capacity - 1
    {
      if buffer == null {
        return false;
      }
      FullAndEmpty(head, tail, capacity);
      var nextHead := NextIndex(head, capacity);
      return nextHead == tail;
    }

    method IsEmpty() returns (empty: bool)
      requires Valid()
      ensures empty <==> buffer == null || Stored() == []
    {
      if buffer == null {
        return true;
      }
      FullAndEmpty(head, tail, capacity);
      return head == tail;
    }

    /** modulus is the size of the size_t range. The buffer is not tested for null; a capacity of 0,
        which only an object never initialized can have, would be a division by zero. */
    method GetAvailableSpace(modulus: nat) returns (space: nat)
      requires Valid() && 0 < capacity < modulus
      ensures space < capacity
      ensures buffer != null && 2 * capacity <= modulus ==> space + |Stored()| == capacity - 1
      ensures buffer != null ==>
        (space + |Stored()| == capacity - 1 <==> tail <= head || tail - head - 1 + capacity < modulus)
    {
      if buffer != null {
        AvailableSpaceExact(head, tail, capacity, modulus);
      }
      return AvailableSpace(head, tail, capacity, modulus);
    }
  }
}

/** The circular byte layout of the ring buffer as a pure view: which bytes are stored, in which order. */
module RingLayout {

  import opened ByteStrings

  /** The index after the given one, around the end. */
  function NextIndex(index: nat, capacity: nat): nat
    requires capacity > 0
  {
    (index + 1) % capacity
  }

  /** One element slot of the storage. */
  predicate Fits(data: Bytes, capacity: nat, elementSize: nat) {
    capacity * elementSize <= |data|
  }

  predicate Indices(head: nat, tail: nat, capacity: nat) {
    head < capacity && tail < capacity && 2 <= capacity
  }

  function Count(head: nat, tail: nat, capacity: nat): nat
    requires Indices(head, tail, capacity)
  {
    if head >= tail then head - tail else capacity - (tail - head)
  }

  lemma SlotInside(slot: nat, capacity: nat, elementSize: nat)
    requires slot < capacity
    ensures slot * elementSize + elementSize <= capacity * elementSize
  {
    assert (slot + 1) * elementSize <= capacity * elementSize;
  }

  function Slot(data: Bytes, slot: nat, capacity: nat, elementSize: nat): (r: Bytes)
    requires Fits(data, capacity, elementSize) && slot < capacity
    ensures |r| == elementSize
  {
    SlotInside(slot, capacity, elementSize);
    data[slot * elementSize..slot * elementSize + elementSize]
  }

  /** The slot of the k-th oldest element. */
  function Place(tail: nat, k: nat, capacity: nat): (r: nat)
    requires capacity > 0
    ensures r < capacity
  {
    (tail + k) % capacity
  }

  /** The stored elements, oldest first. */
  function Contents(data: Bytes, head: nat, tail: nat, capacity: nat, elementSize: nat): (r: seq<Bytes>)
    requires Indices(head, tail, capacity) && Fits(data, capacity, elementSize)
    ensures |r| == Count(head, tail, capacity)
  {
    seq(Count(head, tail, capacity), k requires 0 <= k => Slot(data, Place(tail, k, capacity), capacity, elementSize))
  }

  lemma Wrapped(i: nat, capacity: nat)
    requires 0 < capacity && i < 2 * capacity
    ensures i % capacity == if i < capacity then i else i - capacity
  {
  }

  /** The reserved slot makes full and empty distinguishable. */
  lemma FullAndEmpty(head: nat, tail: nat, capacity: nat)
    requires Indices(head, tail, capacity)
    ensures NextIndex(head, capacity) == tail <==> Count(head, tail, capacity) == capacity - 1
    ensures head == tail <==> Count(head, tail, capacity) == 0
    ensures Count(head, tail, capacity) <= capacity - 1
  {
    Wrapped(head + 1, capacity);
  }

  /** data' is data with one slot overwritten. */
  predicate Overwrites(data: Bytes, data': Bytes, slot: nat, elementSize: nat, x: Bytes) {
    && |data'| == |data| && |x| == elementSize && slot * elementSize + elementSize <= |data|
    && data'[..slot * elementSize] == data[..slot * elementSize]
    && data'[slot * elementSize..slot * elementSize + elementSize] == x
    && data'[slot * elementSize + elementSize..] == data[slot * elementSize + elementSize..]
  }

  lemma OtherSlotKept(data: Bytes, data': Bytes, slot: nat, x: Bytes, other: nat, capacity: nat,
                      elementSize: nat)
    requires Fits(data, capacity, elementSize) && slot < capacity && other < capacity && other != slot
    requires Overwrites(data, data', slot, elementSize, x)
    ensures Slot(data', other, capacity, elementSize) == Slot(data, other, capacity, elementSize)
  {
    SlotInside(other, capacity, elementSize);
    if other < slot {
      SlotInside(other, slot, elementSize);
    } else {
      SlotInside(slot, other, elementSize);
    }
    OutsideKept(data, data', slot * elementSize, slot * elementSize + elementSize,
                other * elementSize, other * elementSize + elementSize);
  }

  lemma OutsideKept<T>(d: seq<T>, d': seq<T>, a: nat, z: nat, b: nat, y: nat)
    requires |d| == |d'| && a <= z <= |d| && b <= y <= |d| && (y <= a || z <= b)
    requires d'[..a] == d[..a] && d'[z..] == d[z..]
    ensures d'[b..y] == d[b..y]
  {
    forall i | b <= i < y ensures d'[i] == d[i] {
      if i < a {
        assert d'[..a][i] == d[..a][i];
      } else {
        assert d'[z..][i - z] == d[z..][i - z];
      }
    }
  }

  /** Writing the head slot and advancing head appends one element, whatever wraps. */
  lemma PushAppends(data: Bytes, data': Bytes, head: nat, tail: nat, capacity: nat, elementSize: nat, x: Bytes)
    requires Indices(head, tail, capacity) && Fits(data, capacity, elementSize)
    requires NextIndex(head, capacity) != tail
    requires Overwrites(data, data', head, elementSize, x)
    ensures Contents(data', NextIndex(head, capacity), tail, capacity, elementSize)
         == Contents(data, head, tail, capacity, elementSize) + [x]
  {
    var n, h := Count(head, tail, capacity), NextIndex(head, capacity);
    FullAndEmpty(head, tail, capacity);
    Wrapped(head + 1, capacity);
    var l := Contents(data', h, tail, capacity, elementSize);
    var r := Contents(data, head, tail, capacity, elementSize) + [x];
    assert |l| == n + 1;
    forall k | 0 <= k <= n ensures l[k] == r[k] {
      Wrapped(tail + k, capacity);
      if k < n {
        OtherSlotKept(data, data', head, x, Place(tail, k, capacity), capacity, elementSize);
      }
    }
  }

  lemma PlaceNext(tail: nat, k: nat, capacity: nat)
    requires tail < capacity && k + 1 < capacity
    ensures Place(NextIndex(tail, capacity), k, capacity) == Place(tail, k + 1, capacity)
  {
    Wrapped(tail + 1, capacity);
    Wrapped(NextIndex(tail, capacity) + k, capacity);
    Wrapped(tail + (k + 1), capacity);
  }

  lemma PlaceZero(tail: nat, capacity: nat)
    requires tail < capacity
    ensures Place(tail, 0, capacity) == tail
  {
    Wrapped(tail, capacity);
  }

  lemma NextInRange(i: nat, capacity: nat)
    requires i < capacity
    ensures NextIndex(i, capacity) == if i + 1 == capacity then 0 else i + 1
  {
    Wrapped(i + 1, capacity);
  }

  /** Advancing tail removes the oldest element. */
  lemma PopRemoves(data: Bytes, head: nat, tail: nat, capacity: nat, elementSize: nat)
    requires Indices(head, tail, capacity) && Fits(data, capacity, elementSize) && head != tail
    ensures var all := Contents(data, head, tail, capacity, elementSize);
      && |all| > 0 && all[0] == Slot(data, tail, capacity, elementSize)
      && Contents(data, head, NextIndex(tail, capacity), capacity, elementSize) == all[1..]
  {
    hide Slot;
    var n, t := Count(head, tail, capacity), NextIndex(tail, capacity);
    FullAndEmpty(head, tail, capacity);
    NextInRange(tail, capacity);
    hide NextIndex, Place;
    PlaceZero(tail, capacity);
    var l, all := Contents(data, head, t, capacity, elementSize), Contents(data, head, tail, capacity, elementSize);
    assert |l| == |all| - 1;
    forall k: nat | k < |l| ensures l[k] == all[k + 1] {
      PlaceNext(tail, k, capacity);
    }
  }

  // The free-space query, in arithmetic modulo the size_t range.

  /** ((tail - head - 1) + capacity) % capacity, with every intermediate result reduced modulo 2^W. */
  function AvailableSpace(head: nat, tail: nat, capacity: nat, modulus: nat): nat
    requires capacity > 0 && modulus > 0
  {
    (((tail - head - 1) % modulus + capacity) % modulus) % capacity
  }

  /** The difference wraps when tail is not ahead of head, and the sum wraps back. */
  lemma SpaceBehind(head: nat, tail: nat, capacity: nat, modulus: nat)
    requires Indices(head, tail, capacity) && capacity < modulus && tail <= head
    ensures AvailableSpace(head, tail, capacity, modulus) == tail - head - 1 + capacity
  {
    var d := tail - head - 1;
    Plain(d, modulus);
    ReduceOnce(d + modulus + capacity, modulus);
    Residue(d + capacity, capacity);
  }

  lemma SpaceAhead(head: nat, tail: nat, capacity: nat, modulus: nat)
    requires Indices(head, tail, capacity) && capacity < modulus && tail > head
    ensures var d := tail - head - 1;
      AvailableSpace(head, tail, capacity, modulus) == if d + capacity < modulus then d else d + capacity - modulus
  {
    var d := tail - head - 1;
    Residue(d, modulus);
    if d + capacity < modulus {
      Residue(d + capacity, modulus);
      ReduceOnce(d + capacity, capacity);
    } else {
      ReduceOnce(d + capacity, modulus);
      Residue(d + capacity - modulus, capacity);
    }
  }

  /** The query is right exactly when its sum does not overflow size_t on a non-wrapped difference. */
  lemma AvailableSpaceExact(head: nat, tail: nat, capacity: nat, modulus: nat)
    requires Indices(head, tail, capacity) && capacity < modulus
    ensures AvailableSpace(head, tail, capacity, modulus) == capacity - 1 - Count(head, tail, capacity)
       <==> tail <= head || tail - head - 1 + capacity < modulus
  {
    hide AvailableSpace;
    if tail <= head {
      SpaceBehind(head, tail, capacity, modulus);
    } else {
      SpaceAhead(head, tail, capacity, modulus);
    }
  }

  lemma Residue(a: int, m: nat)
    requires 0 <= a < m
    ensures a % m == a
  {
  }

  lemma Plain(a: int, m: nat)
    requires 0 <= a + m && a < 0
    ensures a % m == a + m
  {
  }

  lemma ReduceOnce(a: int, m: nat)
    requires 0 < m <= a < 2 * m
    ensures a % m == a - m
  {
  }

  /** Up to half the size_t range the query is always right. */
  lemma AvailableSpaceCorrect(head: nat, tail: nat, capacity: nat, modulus: nat)
    requires Indices(head, tail, capacity) && 2 * capacity <= modulus
    ensures AvailableSpace(head, tail, capacity, modulus) + Count(head, tail, capacity) == capacity - 1
  {
    AvailableSpaceExact(head, tail, capacity, modulus);
  }

  // Every pair of indices is reached.

  datatype Move = PushMove | PopMove

  /** head and tail after pushes and pops on an empty buffer; rejected calls move nothing. */
  function Moved(capacity: nat, moves: seq<Move>): (r: (nat, nat))
    requires capacity >= 2
    ensures Indices(r.0, r.1, capacity)
  {
    if moves == [] then (0, 0)
    else
      var (head, tail) := Moved(capacity, moves[..|moves| - 1]);
      match moves[|moves| - 1]
      case PushMove => if NextIndex(head, capacity) == tail then (head, tail) else (NextIndex(head, capacity), tail)
      case PopMove => if head == tail then (head, tail) else (head, NextIndex(tail, capacity))
  }

  lemma MovedSnoc(capacity: nat, moves: seq<Move>, m: Move)
    requires capacity >= 2
    ensures var (head, tail) := Moved(capacity, moves);
      Moved(capacity, moves + [m]) ==
        match m
        case PushMove => if NextIndex(head, capacity) == tail then (head, tail) else (NextIndex(head, capacity), tail)
        case PopMove => if head == tail then (head, tail) else (head, NextIndex(tail, capacity))
  {
    assert (moves + [m])[..|moves|] == moves;
  }

  /** One push and one pop advance the indices of an empty buffer together. */
  lemma {:induction false} EmptyReached(capacity: nat, i: nat) returns (moves: seq<Move>)
    requires capacity >= 2 && i < capacity
    ensures Moved(capacity, moves) == (i, i)
  {
    if i == 0 {
      moves := [];
    } else {
      moves := EmptyReached(capacity, i - 1);
      NextInRange(i - 1, capacity);
      hide NextIndex;
      MovedSnoc(capacity, moves, PushMove);
      MovedSnoc(capacity, moves + [PushMove], PopMove);
      moves := moves + [PushMove] + [PopMove];
    }
  }

  /** Stepping on from the slot of one element leads to the slot of the next, not back to the oldest. */
  lemma NextPlace(tail: nat, k: nat, capacity: nat)
    requires tail < capacity && k + 1 < capacity
    ensures NextIndex(Place(tail, k, capacity), capacity) == Place(tail, k + 1, capacity) != tail
  {
    Wrapped(tail + k, capacity);
    Wrapped(tail + (k + 1), capacity);
    NextInRange(Place(tail, k, capacity), capacity);
  }

  lemma {:induction false} PushesReach(capacity: nat, tail: nat, n: nat) returns (moves: seq<Move>)
    requires capacity >= 2 && tail < capacity && n < capacity
    ensures Moved(capacity, moves) == (Place(tail, n, capacity), tail)
    decreases n
  {
    if n == 0 {
      moves := EmptyReached(capacity, tail);
      PlaceZero(tail, capacity);
    } else {
      hide Place, NextIndex, Moved;
      moves := PushesReach(capacity, tail, n - 1);
      NextPlace(tail, n - 1, capacity);
      MovedSnoc(capacity, moves, PushMove);
      moves := moves + [PushMove];
    }
  }

  /** Every pair of indices in range is reached from Init by some pushes and pops. */
  lemma IndicesReached(head: nat, tail: nat, capacity: nat) returns (moves: seq<Move>)
    requires Indices(head, tail, capacity)
    ensures Moved(capacity, moves) == (head, tail)
  {
    hide Moved;
    var n := Count(head, tail, capacity);
    FullAndEmpty(head, tail, capacity);
    moves := PushesReach(capacity, tail, n);
    Wrapped(tail + n, capacity);
  }

  /** With a 32-bit size_t and the largest capacity, the query misreports a reachable state. */
  lemma AvailableSpaceOverflows() returns (moves: seq<Move>)
    ensures Moved(0xFFFF_FFFF, moves) == (0, 3)
    ensures AvailableSpace(0, 3, 0xFFFF_FFFF, 0x1_0000_0000) == 1
    ensures 0xFFFF_FFFF - 1 - Count(0, 3, 0xFFFF_FFFF) == 2
  {
    hide Moved;
    moves := IndicesReached(0, 3, 0xFFFF_FFFF);
  }
}

/** The memory pool as a value: which blocks are taken, and the stack of free block indices. */
module PoolModel {
  import opened Options
  import opened Arithmetic

  /** free lists the stacked free indices, the top last. */
  datatype Pool = Pool(base: nat, blockSize: nat, taken: seq<bool>, free: seq<nat>)

  /** The largest values of size_t and uintptr_t. */
  datatype Platform = Platform(sizeMax: nat, uintptrMax: nat)

  predicate Distinct(s: seq<nat>) {
    forall i, j | 0 <= i < j < |s| :: s[i] != s[j]
  }

  /** The free stack holds every free index exactly once. */
  ghost predicate Consistent(p: Pool) {
    && p.blockSize > 0
    && Distinct(p.free)
    && (forall i | 0 <= i < |p.free| :: p.free[i] < |p.taken|)
    && (forall i: nat | i < |p.taken| :: i in p.free <==> !p.taken[i])
  }

  function Address(p: Pool, index: nat): nat {
    p.base + index * p.blockSize
  }

  ghost function UsedIndices(p: Pool): set<nat> {
    set i | 0 <= i < |p.taken| && p.taken[i]
  }

  /** The addresses handed out and not given back. */
  ghost predicate Outstanding(p: Pool, pointer: nat) {
    exists i: nat :: i in UsedIndices(p) && pointer == Address(p, i)
  }

  function Initial(base: nat, blockSize: nat, blockCount: nat): Pool {
    Pool(base, blockSize, seq(blockCount, _ => false), seq(blockCount, i => i))
  }

  function Acquire(p: Pool): (r: (Pool, Option<nat>))
    requires forall i | 0 <= i < |p.free| :: p.free[i] < |p.taken|
  {
    if p.free == [] then (p, None)
    else
      var top := |p.free| - 1;
      var index := p.free[top];
      (p.(free := p.free[..top], taken := p.taken[index := true]), Some(Address(p, index)))
  }

  /** The block index that Release computes from an address, None where it reports an invalid block. */
  function IndexOf(p: Pool, pointer: nat, m: Platform): Option<nat>
    requires p.blockSize > 0
  {
    var total := p.blockSize * |p.taken|;
    if pointer == 0 then None
    else if p.base > m.uintptrMax - total then None
    else if pointer < p.base || pointer >= p.base + total then None
    else if (pointer - p.base) % p.blockSize != 0 then None
    else Some((pointer - p.base) / p.blockSize)
  }

  function Release(p: Pool, pointer: nat, m: Platform): (r: (Pool, bool))
    requires p.blockSize > 0
  {
    match IndexOf(p, pointer, m)
    case None => (p, false)
    case Some(index) =>
      if index >= |p.taken| then (p, false)
      else if !p.taken[index] then (p, false)
      else (p.(taken := p.taken[index := false], free := p.free + [index]), true)
  }

  // Address arithmetic.

  lemma MultipleDivides(k: nat, b: nat)
    requires b > 0
    ensures (k * b) / b == k && (k * b) % b == 0
  {
    DivMod(k * b, b, k, 0);
  }

  lemma QuotientBound(a: nat, b: nat, n: nat)
    requires b > 0 && a < b * n
    ensures a / b < n
  {
    var q := a / b;
    assert q * b <= a;
    assert (q - n) * b < 0;
    Multiple(q - n, b);
  }

  lemma ProductBelow(i: nat, n: nat, b: nat)
    requires i < n
    ensures i * b + b <= b * n
  {
    assert (i + 1) * b <= n * b;
  }

  /** A computed index is always in range: the check for it can never fail. */
  lemma IndexBelowCount(p: Pool, pointer: nat, m: Platform)
    requires p.blockSize > 0 && IndexOf(p, pointer, m).Some?
    ensures IndexOf(p, pointer, m).value < |p.taken|
    ensures pointer == Address(p, IndexOf(p, pointer, m).value)
  {
    QuotientBound(pointer - p.base, p.blockSize, |p.taken|);
  }

  /** The address of a block gives back its index whenever the storage end is representable. */
  lemma IndexOfAddress(p: Pool, i: nat, m: Platform)
    requires p.blockSize > 0 && i < |p.taken|
    requires Address(p, i) != 0 && p.base + p.blockSize * |p.taken| <= m.uintptrMax
    ensures IndexOf(p, Address(p, i), m) == Some(i)
  {
    MultipleDivides(i, p.blockSize);
    ProductBelow(i, |p.taken|, p.blockSize);
  }

  /** Release accepts exactly the outstanding addresses, and nothing at all when the end of the
      storage is not representable. */
  lemma ReleaseAcceptsExactly(p: Pool, pointer: nat, m: Platform)
    requires Consistent(p)
    ensures Release(p, pointer, m).1
       <==> pointer != 0 && p.base + p.blockSize * |p.taken| <= m.uintptrMax && Outstanding(p, pointer)
  {
    if Release(p, pointer, m).1 {
      IndexBelowCount(p, pointer, m);
      assert IndexOf(p, pointer, m).value in UsedIndices(p);
    }
    if pointer != 0 && p.base + p.blockSize * |p.taken| <= m.uintptrMax && Outstanding(p, pointer) {
      var i: nat :| i in UsedIndices(p) && pointer == Address(p, i);
      IndexOfAddress(p, i, m);
    }
  }

  /** The same for a pool that does not start at address 0. */
  lemma ReleaseAcceptsOutstanding(p: Pool, pointer: nat, m: Platform)
    requires Consistent(p) && p.base != 0
    ensures Release(p, pointer, m).1 <==> Outstanding(p, pointer) && p.base + p.blockSize * |p.taken| <= m.uintptrMax
  {
    ReleaseAcceptsExactly(p, pointer, m);
  }

  lemma ReleaseCases(p: Pool, pointer: nat, m: Platform)
    requires p.blockSize > 0
    ensures match IndexOf(p, pointer, m)
      case None => Release(p, pointer, m) == (p, false)
      case Some(i) =>
        if i < |p.taken| && p.taken[i] then
          Release(p, pointer, m) == (p.(taken := p.taken[i := false], free := p.free + [i]), true)
        else Release(p, pointer, m) == (p, false)
  {
    hide IndexOf;
  }

  /** The division guard of Init lets through exactly the sizes whose product is representable. */
  lemma SizeGuard(blockSize: nat, blockCount: nat, sizeMax: nat)
    requires blockCount > 0
    ensures blockSize > sizeMax / blockCount <==> blockSize * blockCount > sizeMax
  {
    var q := sizeMax / blockCount;
    assert q * blockCount <= sizeMax < q * blockCount + blockCount;
    if blockSize > q {
      assert blockSize * blockCount >= (q + 1) * blockCount;
    } else {
      assert blockSize * blockCount <= q * blockCount;
    }
  }

  // Every operation keeps the free stack consistent.

  lemma AcquireCases(p: Pool)
    requires Consistent(p)
    ensures p.free == [] ==> Acquire(p) == (p, None)
    ensures p.free != [] ==>
      var top := |p.free| - 1;
      && p.free[top] < |p.taken|
      && Acquire(p).0 == p.(free := p.free[..top], taken := p.taken[p.free[top] := true])
      && Acquire(p).1 == Some(Address(p, p.free[top]))
  {
  }

  lemma AcquireKeeps(p: Pool)
    requires Consistent(p)
    ensures Consistent(Acquire(p).0)
  {
    if p.free != [] {
      var top := |p.free| - 1;
      var q := Acquire(p).0;
      forall i: nat | i < |q.taken| ensures i in q.free <==> !q.taken[i] {
        if i in p.free && i != p.free[top] {
          var k :| 0 <= k < |p.free| && p.free[k] == i;
          assert q.free[k] == i;
        }
      }
    }
  }

  lemma ReleaseKeeps(p: Pool, pointer: nat, m: Platform)
    requires Consistent(p)
    ensures Consistent(Release(p, pointer, m).0)
    ensures !Release(p, pointer, m).1 ==> Release(p, pointer, m).0 == p
    ensures var q := Release(p, pointer, m).0;
      q.base == p.base && q.blockSize == p.blockSize && |q.taken| == |p.taken|
  {
    var (q, ok) := Release(p, pointer, m);
    if ok {
      var index := IndexOf(p, pointer, m).value;
      assert index !in p.free;
      forall i: nat | i < |q.taken| ensures i in q.free <==> !q.taken[i] {
        if i in q.free && i != index {
          assert i in p.free;
        }
      }
    }
  }

  lemma InitialConsistent(base: nat, blockSize: nat, blockCount: nat)
    requires blockSize > 0
    ensures Consistent(Initial(base, blockSize, blockCount))
    ensures UsedIndices(Initial(base, blockSize, blockCount)) == {}
  {
    var p := Initial(base, blockSize, blockCount);
    forall i: nat | i < blockCount ensures i in p.free {
      assert p.free[i] == i;
    }
  }

  // Counting: free and used blocks make up the pool.

  ghost function Below(n: nat): set<nat> {
    if n == 0 then {} else Below(n - 1) + {n - 1}
  }

  lemma {:induction false} BelowMember(n: nat, i: nat)
    ensures i in Below(n) <==> i < n
  {
    if n > 0 {
      BelowMember(n - 1, i);
    }
  }

  lemma {:induction false} BelowSize(n: nat)
    ensures |Below(n)| == n
  {
    if n > 0 {
      BelowSize(n - 1);
      BelowMember(n - 1, n - 1);
    }
  }

  ghost function Elements(s: seq<nat>): set<nat> {
    set x | x in s
  }

  lemma {:induction false} DistinctSize(s: seq<nat>)
    requires Distinct(s)
    ensures |Elements(s)| == |s|
  {
    if s != [] {
      var k := |s| - 1;
      DistinctSize(s[..k]);
      assert s == s[..k] + [s[k]];
      assert Elements(s) == Elements(s[..k]) + {s[k]};
      assert s[k] !in s[..k];
    }
  }

  lemma FreeOrUsed(p: Pool)
    requires Consistent(p)
    ensures Elements(p.free) !! UsedIndices(p)
    ensures Elements(p.free) + UsedIndices(p) == Below(|p.taken|)
  {
    hide Distinct, Below;
    forall i: nat ensures i in Below(|p.taken|) <==> i < |p.taken| {
      BelowMember(|p.taken|, i);
    }
  }

  /** The free stack never holds more entries than there are unused blocks: pushing the index of a
      used block stays in bounds. */
  lemma FreeAndUsed(p: Pool)
    requires Consistent(p)
    ensures |p.free| + |UsedIndices(p)| == |p.taken|
  {
    FreeOrUsed(p);
    hide Below, Elements, UsedIndices;
    DistinctSize(p.free);
    BelowSize(|p.taken|);
  }

  lemma AcquireUses(p: Pool)
    requires Consistent(p) && p.free != []
    ensures var index := p.free[|p.free| - 1];
      index !in UsedIndices(p) && UsedIndices(Acquire(p).0) == UsedIndices(p) + {index}
  {
  }

  lemma AcquireOutstanding(p: Pool, a: nat)
    requires Consistent(p) && p.free != []
    ensures Outstanding(Acquire(p).0, a) <==> Outstanding(p, a) || Acquire(p).1 == Some(a)
  {
    AcquireUses(p);
    AcquireCases(p);
    hide Consistent, UsedIndices, Acquire;
    var q, index := Acquire(p).0, p.free[|p.free| - 1];
    if Outstanding(q, a) {
      var i: nat :| i in UsedIndices(q) && a == Address(q, i);
      assert a == Address(p, i);
    }
    if Outstanding(p, a) {
      var i: nat :| i in UsedIndices(p) && a == Address(p, i);
      assert i in UsedIndices(q) && a == Address(q, i);
    }
    if a == Address(p, index) {
      assert index in UsedIndices(q) && a == Address(q, index);
    }
  }

  lemma AcquireCounts(p: Pool)
    requires Consistent(p)
    ensures Acquire(p).1 == None <==> |UsedIndices(p)| == |p.taken|
    ensures Acquire(p).1.Some? ==>
      && |UsedIndices(Acquire(p).0)| == |UsedIndices(p)| + 1
      && !Outstanding(p, Acquire(p).1.value)
      && (forall a: nat :: Outstanding(Acquire(p).0, a) <==> Outstanding(p, a) || a == Acquire(p).1.value)
  {
    FreeAndUsed(p);
    AcquireCases(p);
    if p.free != [] {
      AcquireUses(p);
      hide UsedIndices, Acquire;
      var index := p.free[|p.free| - 1];
      forall i: nat | i in UsedIndices(p) && Address(p, i) == Address(p, index) ensures false {
        AddressInjective(p, i, index);
      }
      forall a: nat ensures Outstanding(Acquire(p).0, a) <==> Outstanding(p, a) || Acquire(p).1 == Some(a) {
        AcquireOutstanding(p, a);
      }
    }
  }

  lemma AddressInjective(p: Pool, i: nat, j: nat)
    requires p.blockSize > 0 && Address(p, i) == Address(p, j)
    ensures i == j
  {
    assert (i - j) * p.blockSize == 0;
    Multiple(i - j, p.blockSize);
  }

  lemma ReleaseCounts(p: Pool, pointer: nat, m: Platform)
    requires Consistent(p) && Release(p, pointer, m).1
    ensures |UsedIndices(Release(p, pointer, m).0)| == |UsedIndices(p)| - 1
    ensures |p.free| < |p.taken|
    ensures forall a: nat :: Outstanding(Release(p, pointer, m).0, a) <==> Outstanding(p, a) && a != pointer
  {
    FreeAndUsed(p);
    var q := Release(p, pointer, m).0;
    IndexBelowCount(p, pointer, m);
    var index := IndexOf(p, pointer, m).value;
    assert index in UsedIndices(p);
    assert UsedIndices(q) == UsedIndices(p) - {index};
    forall a: nat | Outstanding(q, a) ensures Outstanding(p, a) && a != pointer {
      var i: nat :| i in UsedIndices(q) && a == Address(q, i);
      assert i in UsedIndices(p) && a == Address(p, i);
      if a == pointer {
        AddressInjective(p, i, index);
      }
    }
    forall a: nat | Outstanding(p, a) && a != pointer ensures Outstanding(q, a) {
      var i: nat :| i in UsedIndices(p) && a == Address(p, i);
      assert i in UsedIndices(q) && a == Address(q, i);
    }
  }

  lemma AddressBounds(p: Pool, i: nat, j: nat)
    requires i < j
    ensures p.base <= Address(p, i) && Address(p, i) + p.blockSize <= Address(p, j) == p.base + p.blockSize * j
  {
    ProductBelow(i, j, p.blockSize);
  }

  /** Outstanding blocks lie inside the storage and do not overlap. */
  lemma BlocksDisjoint(p: Pool, a: nat, b: nat)
    requires p.blockSize > 0 && Outstanding(p, a) && Outstanding(p, b)
    ensures p.base <= a && a + p.blockSize <= p.base + p.blockSize * |p.taken|
    ensures a == b || a + p.blockSize <= b || b + p.blockSize <= a
  {
    var i: nat :| i in UsedIndices(p) && a == Address(p, i);
    var j: nat :| j in UsedIndices(p) && b == Address(p, j);
    hide *;
    AddressBounds(p, i, |p.taken|);
    AddressBounds(p, j, |p.taken|);
    if i < j {
      AddressBounds(p, i, j);
    } else if j < i {
      AddressBounds(p, j, i);
    }
  }

  // Runs.

  datatype Op = AcquireOp | ReleaseOp(pointer: nat)

  datatype Outcome = Outcome(pool: Pool, acquires: nat, releases: nat)

  /** The pool after a sequence of calls, and how many of them succeeded. */
  ghost function Run(p: Pool, ops: seq<Op>, m: Platform): (r: Outcome)
    requires Consistent(p)
    ensures Consistent(r.pool)
  {
    if ops == [] then Outcome(p, 0, 0)
    else
      var k := |ops| - 1;
      var before := Run(p, ops[..k], m);
      match ops[k]
      case AcquireOp =>
        var (q, a) := Acquire(before.pool);
        AcquireKeeps(before.pool);
        Outcome(q, before.acquires + (if a.Some? then 1 else 0), before.releases)
      case ReleaseOp(pointer) =>
        var (q, ok) := Release(before.pool, pointer, m);
        ReleaseKeeps(before.pool, pointer, m);
        Outcome(q, before.acquires, before.releases + (if ok then 1 else 0))
  }

  /** In every run the blocks in use are the successful acquires minus the successful releases,
      and together with the stacked ones they make up the pool. */
  lemma {:induction false} RunCounts(base: nat, blockSize: nat, blockCount: nat, ops: seq<Op>, m: Platform)
    requires blockSize > 0
    ensures Consistent(Initial(base, blockSize, blockCount))
    ensures var r := Run(Initial(base, blockSize, blockCount), ops, m);
      && |UsedIndices(r.pool)| == r.acquires - r.releases
      && |r.pool.free| + r.acquires - r.releases == blockCount
      && |r.pool.taken| == blockCount && r.pool.base == base && r.pool.blockSize == blockSize
    decreases |ops|
  {
    InitialConsistent(base, blockSize, blockCount);
    var p := Initial(base, blockSize, blockCount);
    if ops != [] {
      var k := |ops| - 1;
      RunCounts(base, blockSize, blockCount, ops[..k], m);
      var before := Run(p, ops[..k], m).pool;
      match ops[k] {
        case AcquireOp => AcquireCounts(before);
        case ReleaseOp(pointer) =>
          if Release(before, pointer, m).1 {
            ReleaseCounts(before, pointer, m);
          }
      }
    }
    FreeAndUsed(Run(p, ops, m).pool);
  }

  // Last in, first out.

  ghost function ReleaseAll(p: Pool, pointers: seq<nat>, m: Platform): (r: Pool)
    requires Consistent(p)
    ensures Consistent(r)
    decreases |pointers|
  {
    if pointers == [] then p
    else
      ReleaseKeeps(p, pointers[0], m);
      ReleaseAll(Release(p, pointers[0], m).0, pointers[1..], m)
  }

  ghost function AcquireAll(p: Pool, k: nat): (r: (Pool, seq<Option<nat>>))
    requires Consistent(p)
    ensures Consistent(r.0)
  {
    if k == 0 then (p, [])
    else
      var (q, pointers) := AcquireAll(p, k - 1);
      AcquireKeeps(q);
      (Acquire(q).0, pointers + [Acquire(q).1])
  }

  /** A fresh pool hands its blocks out from the last one down. */
  lemma {:induction false} FreshAcquires(base: nat, blockSize: nat, n: nat, k: nat)
    requires blockSize > 0 && k <= n
    ensures Consistent(Initial(base, blockSize, n))
    ensures var (p, pointers) := AcquireAll(Initial(base, blockSize, n), k);
      && p.base == base && p.blockSize == blockSize && p.free == seq(n - k, i => i)
      && |pointers| == k && forall i | 0 <= i < k :: pointers[i] == Some(base + (n - 1 - i) * blockSize)
    decreases k
  {
    InitialConsistent(base, blockSize, n);
    if k > 0 {
      FreshAcquires(base, blockSize, n, k - 1);
      var (p, pointers) := AcquireAll(Initial(base, blockSize, n), k - 1);
      AcquireCases(p);
      assert p.free[n - k] == n - k && p.free[..n - k] == seq(n - k, i => i);
      hide Consistent, Acquire;
    }
  }

  ghost function Reversed(s: seq<nat>): seq<Option<nat>> {
    if s == [] then [] else Reversed(s[1..]) + [Some(s[0])]
  }

  /** Acquiring right after a release hands the released block out again. */
  lemma AcquireUndoesRelease(p: Pool, pointer: nat, m: Platform)
    requires Consistent(p) && Release(p, pointer, m).1
    ensures Acquire(Release(p, pointer, m).0) == (p, Some(pointer))
  {
    IndexBelowCount(p, pointer, m);
    var index := IndexOf(p, pointer, m).value;
    var q := Release(p, pointer, m).0;
    assert q.free[..|q.free| - 1] == p.free;
    assert q.taken[index := true] == p.taken;
  }

  /** Releasing any distinct outstanding blocks and acquiring as many returns them in reverse order
      and restores the pool. */
  lemma {:induction false} LastInFirstOut(p: Pool, pointers: seq<nat>, m: Platform)
    requires Consistent(p) && Distinct(pointers)
    requires p.base + p.blockSize * |p.taken| <= m.uintptrMax
    requires forall a | a in pointers :: a != 0 && Outstanding(p, a)
    ensures AcquireAll(ReleaseAll(p, pointers, m), |pointers|) == (p, Reversed(pointers))
    decreases |pointers|
  {
    assert p.blockSize > 0;
    hide Consistent, Outstanding, Acquire, Release, UsedIndices;
    if pointers != [] {
      var a, rest := pointers[0], pointers[1..];
      assert a in pointers;
      ReleaseAcceptsExactly(p, a, m);
      ReleaseCounts(p, a, m);
      ReleaseKeeps(p, a, m);
      AcquireUndoesRelease(p, a, m);
      var q := Release(p, a, m).0;
      forall b | b in rest ensures b != 0 && Outstanding(q, b) {
        assert b in pointers && b != a;
      }
      LastInFirstOut(q, rest, m);
    }
  }
}

/** The memory pool object over its caller-owned state array and free stack. */
module MemoryPool {
  import opened Options
  import opened PoolModel

  datatype Status = Success | ErrorNullPointer | ErrorNotInitialized | ErrorAlreadyInitialized
                  | ErrorInvalidBlockSize | ErrorInvalidBlockCount | ErrorSizeOverflow | ErrorPoolFull
                  | ErrorInvalidBlock

  const FREE: nat := 0
  const ALLOCATED: nat := 1

  class MemoryPool {
    /** Address of the block storage. */
    var storage: nat
    var state: array<nat>
    var freeStack: array<nat>
    var blockSize: nat
    var blockCount: nat
    var freeCount: nat
    var initialized: bool

    const platform: Platform

    /** Successful calls so far. */
    ghost var acquires: nat
    ghost var releases: nat

    ghost predicate Sized()
      reads this
    {
      && state != freeStack
      && blockCount <= state.Length && blockCount <= freeStack.Length
      && freeCount <= blockCount
    }

    ghost function Abstract(): Pool
      requires Sized()
      reads this, state, freeStack
    {
      Pool(storage, blockSize, seq(blockCount, i requires 0 <= i < blockCount reads this, state
                                                requires blockCount <= state.Length => state[i] == ALLOCATED),
           freeStack[..freeCount])
    }

    ghost predicate Valid()
      reads this, state, freeStack
    {
      && platform.sizeMax <= platform.uintptrMax
      && (initialized ==>
        && Sized()
        && storage != 0 && 0 < blockSize && 0 < blockCount && blockSize * blockCount <= platform.sizeMax
        && Consistent(Abstract())
        && |UsedIndices(Abstract())| == acquires - releases)
    }

    /** An object that has never been initialized; its arrays are placeholders. */
    constructor (platform: Platform)
      requires platform.sizeMax <= platform.uintptrMax
      ensures Valid() && !initialized && this.platform == platform
      ensures fresh(state) && fresh(freeStack)
    {
      this.platform := platform;
      state, freeStack := new nat[0], new nat[0];
      storage, blockSize, blockCount, freeCount, initialized := 0, 0, 0, 0, false;
      acquires, releases := 0, 0;
    }

    /** storage is the address of the blocks, 0 for the null pointer. Before the first Init the object may
        hold anything; what it holds in initialized decides. */
    method Init(storage: nat, state: array<nat>, freeStack: array<nat>, blockSize: nat, blockCount: nat)
      returns (status: Status)
      requires platform.sizeMax <= platform.uintptrMax
      requires state != freeStack
      requires blockSize * blockCount <= platform.sizeMax && !initialized && storage != 0 && blockSize > 0 ==>
        blockCount <= state.Length && blockCount <= freeStack.Length
      modifies this, state, freeStack
      ensures status ==
        if storage == 0 then ErrorNullPointer
        else if old(initialized) then ErrorAlreadyInitialized
        else if blockSize == 0 then ErrorInvalidBlockSize
        else if blockCount == 0 then ErrorInvalidBlockCount
        else if blockSize * blockCount > platform.sizeMax then ErrorSizeOverflow
        else Success
      ensures status != Success ==> unchanged(this) && unchanged(state) && unchanged(freeStack)
      ensures status == Success ==>
        && Valid() && initialized && this.state == state && this.freeStack == freeStack
        && Abstract() == Initial(storage, blockSize, blockCount)
        && acquires == 0 && releases == 0
    {
      if storage == 0 {
        return ErrorNullPointer;
      }
      if initialized {
        return ErrorAlreadyInitialized;
      }
      if blockSize == 0 {
        return ErrorInvalidBlockSize;
      }
      if blockCount == 0 {
        return ErrorInvalidBlockCount;
      }
      SizeGuard(blockSize, blockCount, platform.sizeMax);
      if blockSize > platform.sizeMax / blockCount {
        return ErrorSizeOverflow;
      }
      FillFree(state, freeStack, blockCount);
      this.storage := storage;
      this.state := state;
      this.freeStack := freeStack;
      this.blockSize := blockSize;
      this.blockCount := blockCount;
      freeCount := blockCount;
      initialized := true;
      acquires, releases := 0, 0;
      InitialConsistent(storage, blockSize, blockCount);
      assert Abstract().free == Initial(storage, blockSize, blockCount).free;
      assert Abstract().taken == Initial(storage, blockSize, blockCount).taken;
      return Success;
    }

    /** Pops the top free index and marks its block allocated. */
    method TakeTop() returns (index: nat)
      requires Sized() && freeCount > 0 && freeStack[freeCount - 1] < blockCount
      modifies this`freeCount, state
      ensures Sized() && freeCount == old(freeCount) - 1
      ensures index == old(freeStack[freeCount - 1])
      ensures Abstract() == old(Abstract()).(free := old(freeStack[..freeCount - 1]),
                                             taken := old(Abstract()).taken[index := true])
    {
      freeCount := freeCount - 1;
      index := freeStack[freeCount];
      state[index] := ALLOCATED;
    }

    /** Marks a block free and pushes its index. */
    method PutBack(index: nat)
      requires Sized() && index < blockCount && freeCount < blockCount
      modifies this`freeCount, state, freeStack
      ensures Sized() && freeCount == old(freeCount) + 1
      ensures Abstract() == old(Abstract()).(free := old(freeStack[..freeCount]) + [index],
                                             taken := old(Abstract()).taken[index := false])
    {
      state[index] := FREE;
      freeStack[freeCount] := index;
      freeCount := freeCount + 1;
    }

    /** Hands out the top free block. */
    method TakeBlock() returns (address: nat)
      requires Valid() && initialized && freeCount > 0
      modifies this`freeCount, this`acquires, state
      ensures Valid() && acquires == old(acquires) + 1
      ensures (Abstract(), Some(address)) == old(PoolModel.Acquire(Abstract()))
    {
      hide Consistent, UsedIndices, Outstanding, PoolModel.Acquire;
      ghost var before := Abstract();
      AcquireCases(before);
      AcquireKeeps(before);
      AcquireCounts(before);
      assert freeStack[freeCount - 1] == before.free[freeCount - 1];
      var index := TakeTop();
      acquires := acquires + 1;
      ProductFits(index, blockCount, blockSize, platform.sizeMax);
      address := storage + (index * blockSize) % (platform.sizeMax + 1);
      assert Abstract() == PoolModel.Acquire(before).0;
    }

    /** block is None when *block stays unchanged. */
    method Acquire() returns (status: Status, block: Option<nat>)
      requires Valid()
      modifies this, state
      ensures Valid() && initialized == old(initialized) && state == old(state) && freeStack == old(freeStack)
      ensures status ==
        if !initialized then ErrorNotInitialized
        else if old(PoolModel.Acquire(Abstract()).1) == None then ErrorPoolFull
        else Success
      ensures status != Success ==> block == None && unchanged(this) && unchanged(state)
      ensures status == Success ==>
        && (Abstract(), block) == old(PoolModel.Acquire(Abstract()))
        && acquires == old(acquires) + 1 && releases == old(releases)
    {
      if !initialized {
        return ErrorNotInitialized, None;
      }
      AcquireCases(Abstract());
      if freeCount == 0 {
        return ErrorPoolFull, None;
      }
      hide Consistent, UsedIndices, PoolModel.Acquire;
      var address := TakeBlock();
      return Success, Some(address);
    }

    /** The address checks of Release: the index of the block, None for an invalid address. */
    method FindIndex(block: nat) returns (index: Option<nat>)
      requires Valid() && initialized
      ensures index == IndexOf(Abstract(), block, platform)
    {
      if block == 0 {
        return None;
      }
      var storageStart := storage;
      NoWrap(blockSize * blockCount, platform.sizeMax);
      var totalSize := (blockSize * blockCount) % (platform.sizeMax + 1);
      if storageStart > platform.uintptrMax - totalSize {
        return None;
      }
      var storageEnd := storageStart + totalSize;
      if block < storageStart || block >= storageEnd {
        return None;
      }
      if (block - storageStart) % blockSize != 0 {
        return None;
      }
      return Some((block - storageStart) / blockSize);
    }

    /** Takes back the allocated block with the given index and address. */
    method GiveBack(ghost block: nat, index: nat)
      requires Valid() && initialized && IndexOf(Abstract(), block, platform) == Some(index)
      requires index < blockCount && state[index] == ALLOCATED
      modifies this`freeCount, this`releases, state, freeStack
      ensures Valid() && releases == old(releases) + 1
      ensures (Abstract(), true) == old(PoolModel.Release(Abstract(), block, platform))
    {
      hide IndexOf, Consistent, UsedIndices, Outstanding, PoolModel.Release;
      ghost var before := Abstract();
      ReleaseCases(before, block, platform);
      ReleaseKeeps(before, block, platform);
      ReleaseCounts(before, block, platform);
      PutBack(index);
      releases := releases + 1;
      assert Abstract() == PoolModel.Release(before, block, platform).0;
    }

    method Release(block: nat) returns (status: Status)
      requires Valid()
      modifies this, state, freeStack
      ensures Valid() && initialized == old(initialized) && state == old(state) && freeStack == old(freeStack)
      ensures status ==
        if !initialized then ErrorNotInitialized
        else if old(PoolModel.Release(Abstract(), block, platform).1) then Success
        else ErrorInvalidBlock
      ensures status != Success ==> unchanged(this) && unchanged(state) && unchanged(freeStack)
      ensures initialized ==>
        (status == Success
         <==> old(Outstanding(Abstract(), block)) && storage + blockSize * blockCount <= platform.uintptrMax)
      ensures status == Success ==>
        && Abstract() == old(PoolModel.Release(Abstract(), block, platform).0)
        && acquires == old(acquires) && releases == old(releases) + 1
    {
      if !initialized {
        return ErrorNotInitialized;
      }
      ReleaseAcceptsOutstanding(Abstract(), block, platform);
      ReleaseCases(Abstract(), block, platform);
      hide IndexOf, Consistent, UsedIndices, Outstanding, PoolModel.Release;
      var found := FindIndex(block);
      if found == None {
        return ErrorInvalidBlock;
      }
      var index := found.value;
      if index >= blockCount {
        return ErrorInvalidBlock;
      }
      if state[index] != ALLOCATED {
        return ErrorInvalidBlock;
      }
      GiveBack(block, index);
      return Success;
    }

    method GetFreeCount() returns (status: Status, count: nat)
      requires Valid()
      ensures status == if initialized then Success else ErrorNotInitialized
      ensures initialized ==> count == blockCount - (acquires - releases)
    {
      if !initialized {
        return ErrorNotInitialized, 0;
      }
      FreeAndUsed(Abstract());
      return Success, freeCount;
    }

    method GetUsedCount() returns (status: Status, count: nat)
      requires Valid()
      ensures status == if initialized then Success else ErrorNotInitialized
      ensures initialized ==> count == acquires - releases == |UsedIndices(Abstract())|
    {
      if !initialized {
        return ErrorNotInitialized, 0;
      }
      FreeAndUsed(Abstract());
      return Success, blockCount - freeCount;
    }
  }

  /** Marks every block free and stacks the indices in ascending order. */
  method FillFree(state: array<nat>, freeStack: array<nat>, blockCount: nat)
    requires state != freeStack && blockCount <= state.Length && blockCount <= freeStack.Length
    modifies state, freeStack
    ensures forall k | 0 <= k < blockCount :: state[k] == FREE
    ensures freeStack[..blockCount] == seq(blockCount, i => i)
  {
    var i := 0;
    while i < blockCount
      invariant 0 <= i <= blockCount
      invariant forall k | 0 <= k < i :: state[k] == FREE && freeStack[k] == k
    {
      state[i] := FREE;
      freeStack[i] := i;
      i := i + 1;
    }
  }

  /** The byte offset of a block does not wrap in size_t. */
  lemma ProductFits(index: nat, blockCount: nat, blockSize: nat, sizeMax: nat)
    requires index < blockCount && blockSize * blockCount <= sizeMax
    ensures (index * blockSize) % (sizeMax + 1) == index * blockSize
  {
    ProductBelow(index, blockCount, blockSize);
    NoWrap(index * blockSize, sizeMax);
  }

  lemma NoWrap(a: nat, max: nat)
    requires a <= max
    ensures a % (max + 1) == a
  {
  }
}

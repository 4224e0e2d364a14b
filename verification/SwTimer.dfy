/** The timer pool object: every operation updates the caller-owned slot array in place. */
module SwTimer {
  import opened Options
  import opened TimerModel
  import opened TimerCalls

  class TimerPool {
    /** Null until a successful Init. */
    var storage: array?<Slot>
    var capacity: nat

    ghost predicate Valid()
      reads this, storage
    {
      storage != null ==> 0 < capacity <= storage.Length && PoolOk(storage[..capacity])
    }

    ghost function Slots(): Slots
      requires Valid()
      reads this, storage
    {
      if storage == null then [] else storage[..capacity]
    }

    constructor ()
      ensures Valid() && storage == null
    {
      storage, capacity := null, 0;
    }

    /** The object may hold anything before: nothing of it is read. */
    method Init(storage: array?<Slot>, capacity: nat) returns (status: Status)
      requires storage != null ==> capacity <= storage.Length
      modifies this, storage
      ensures status ==
        if storage == null then ErrorNullPointer else if capacity == 0 then ErrorInvalidCapacity else Success
      ensures status != Success ==> unchanged(this) && (storage != null ==> unchanged(storage))
      ensures status == Success ==>
        && Valid() && this.storage == storage && this.capacity == capacity
        && Slots() == seq(capacity, _ => Slot(Unused, OneShot, 0, 0, Null, 0, 0))
        && storage[capacity..] == old(storage[capacity..])
    {
      if storage == null {
        return ErrorNullPointer;
      }
      if capacity == 0 {
        return ErrorInvalidCapacity;
      }
      var i := 0;
      while i < capacity
        invariant 0 <= i <= capacity
        invariant forall k | 0 <= k < i :: storage[k] == BLANK
        invariant storage[capacity..] == old(storage[capacity..])
        invariant unchanged(this)
      {
        storage[i] := BLANK;
        i := i + 1;
      }
      this.storage := storage;
      this.capacity := capacity;
      return Success;
    }

    /** index is meaningful on success only. */
    method ValidateHandle(handle: Handle) returns (status: Status, index: nat)
      requires Valid()
      ensures status ==
        if storage == null then ErrorNullPointer
        else if Accepts(Slots(), handle) then Success
        else ErrorInvalidHandle
      ensures status == Success ==> index == handle.index < capacity
    {
      if storage == null {
        return ErrorNullPointer, 0;
      }
      if handle.index >= capacity {
        return ErrorInvalidHandle, 0;
      }
      var slot := storage[handle.index];
      if slot.state == Unused || slot.generation != handle.generation {
        return ErrorInvalidHandle, 0;
      }
      return Success, handle.index;
    }

    /** The pool after the call is what the model says, and nothing else in the array changes. */
    twostate predicate Did(a: Action, status: Status)
      reads this, storage
    {
      && storage == old(storage) && capacity == old(capacity)
      && Valid() && old(Valid())
      && if storage == null then status == ErrorNullPointer
         else
           && Slots() == Apply(old(Slots()), a).slots
           && status == Apply(old(Slots()), a).status
           && storage[capacity..] == old(storage[capacity..])
    }

    /** handle is None when *outHandle stays unwritten. */
    method Create(mode: Mode, callback: Callback, context: nat) returns (status: Status, handle: Option<Handle>)
      requires Valid()
      modifies storage
      ensures Did(Action.Create(mode, callback, context), status)
      ensures storage != null ==> handle == Apply(old(Slots()), Action.Create(mode, callback, context)).handle
      ensures storage == null ==> handle == None
      ensures status ==
        if storage == null || callback == Null then ErrorNullPointer
        else if mode != OneShot && mode != Periodic then ErrorInvalidMode
        else if !old(SomeUnused(Slots())) then ErrorPoolFull
        else Success
      ensures status != Success ==> handle == None && Slots() == old(Slots())
      ensures status == Success ==>
        exists i: nat :: i < capacity && old(Slots())[i].state == Unused
          && (forall k | 0 <= k < i :: old(Slots())[k].state != Unused)
          && Registers(old(Slots()), Slots(), handle, i, mode, callback, context)
    {
      CreateLaw(Slots(), mode, callback, context);
      if storage == null || callback == Null {
        return ErrorNullPointer, None;
      }
      if mode != OneShot && mode != Periodic {
        return ErrorInvalidMode, None;
      }
      var i := 0;
      while i < capacity
        invariant 0 <= i <= capacity
        invariant storage[..] == old(storage[..])
        invariant FirstUnused(Slots(), 0) == FirstUnused(Slots(), i)
      {
        if storage[i].state == Unused {
          ghost var before := Slots();
          storage[i] := Slot(Stopped, mode, 0, 0, callback, context, storage[i].generation);
          ApplyKeeps(before, Action.Create(mode, callback, context));
          assert storage[..capacity] == Apply(before, Action.Create(mode, callback, context)).slots;
          return Success, Some(Handle(Byte(i), storage[i].generation));
        }
        i := i + 1;
      }
      return ErrorPoolFull, None;
    }

    method Start(handle: Handle, timeoutTicks: nat) returns (status: Status)
      requires Valid()
      modifies storage
      ensures Did(Action.Start(handle, timeoutTicks), status)
      ensures status ==
        if storage == null then ErrorNullPointer
        else if !old(Accepts(Slots(), handle)) then ErrorInvalidHandle
        else if timeoutTicks == 0 then ErrorInvalidTimeout
        else Success
      ensures status != Success ==> Slots() == old(Slots())
      ensures status == Success ==>
        && OnlySlot(old(Slots()), Slots(), handle.index)
        && var slot, before := Slots()[handle.index], old(Slots())[handle.index];
           && SameTimer(slot, before) && slot.state == Running
           && slot.timeout == timeoutTicks && slot.remaining == timeoutTicks
    {
      StartLaw(Slots(), handle, timeoutTicks);
      var index;
      status, index := ValidateHandle(handle);
      if status != Success {
        return;
      }
      if timeoutTicks == 0 {
        return ErrorInvalidTimeout;
      }
      ApplyKeeps(Slots(), Action.Start(handle, timeoutTicks));
      storage[index] := storage[index].(timeout := timeoutTicks, remaining := timeoutTicks, state := Running);
      assert storage[..capacity] == Apply(old(Slots()), Action.Start(handle, timeoutTicks)).slots;
    }

    method Stop(handle: Handle) returns (status: Status)
      requires Valid()
      modifies storage
      ensures Did(Action.Stop(handle), status)
      ensures status ==
        if storage == null then ErrorNullPointer
        else if old(Accepts(Slots(), handle)) then Success
        else ErrorInvalidHandle
      ensures status != Success ==> Slots() == old(Slots())
      ensures status == Success ==>
        && OnlySlot(old(Slots()), Slots(), handle.index)
        && var slot, before := Slots()[handle.index], old(Slots())[handle.index];
           && SameTimer(slot, before) && slot.state == Stopped
           && slot.timeout == before.timeout && slot.remaining == 0
    {
      StopLaw(Slots(), handle);
      var index;
      status, index := ValidateHandle(handle);
      if status != Success {
        return;
      }
      ApplyKeeps(Slots(), Action.Stop(handle));
      storage[index] := storage[index].(state := Stopped, remaining := 0);
      assert storage[..capacity] == Apply(old(Slots()), Action.Stop(handle)).slots;
    }

    method Delete(handle: Handle) returns (status: Status)
      requires Valid()
      modifies storage
      ensures Did(Action.Delete(handle), status)
      ensures status ==
        if storage == null then ErrorNullPointer
        else if old(Accepts(Slots(), handle)) then Success
        else ErrorInvalidHandle
      ensures status != Success ==> Slots() == old(Slots())
      ensures status == Success ==>
        && OnlySlot(old(Slots()), Slots(), handle.index)
        && var slot := Slots()[handle.index];
           && slot.state == Unused && slot.callback == Null && slot.context == 0
           && slot.timeout == 0 && slot.remaining == 0 && slot.mode == old(Slots())[handle.index].mode
           && slot.generation == (if handle.generation == 255 then 0 else handle.generation + 1)
    {
      DeleteLaw(Slots(), handle);
      var index;
      status, index := ValidateHandle(handle);
      if status != Success {
        return;
      }
      ApplyKeeps(Slots(), Action.Delete(handle));
      var slot := storage[index];
      storage[index] := Slot(Unused, slot.mode, 0, 0, Null, 0, Byte(slot.generation + 1));
      assert storage[..capacity] == Apply(old(Slots()), Action.Delete(handle)).slots;
    }

    /** One callback invocation: the client makes its calls. */
    method Invoke(script: seq<Action>)
      requires Valid() && storage != null
      modifies storage
      ensures storage == old(storage) && capacity == old(capacity) && Valid()
      ensures Slots() == Perform(old(Slots()), script)
      ensures storage[capacity..] == old(storage[capacity..])
    {
      hide Apply, SlotOk;
      var k := 0;
      while k < |script|
        invariant 0 <= k <= |script|
        invariant Valid()
        invariant Slots() == Perform(old(Slots()), script[..k])
        invariant storage[capacity..] == old(storage[capacity..])
      {
        assert script[..k + 1][..k] == script[..k];
        match script[k] {
          case Create(mode, callback, context) =>
            var status, handle := Create(mode, callback, context);
          case Start(handle, ticks) =>
            var status := Start(handle, ticks);
          case Stop(handle) =>
            var status := Stop(handle);
          case Delete(handle) =>
            var status := Delete(handle);
        }
        k := k + 1;
      }
      assert script[..|script|] == script;
    }

    /** Counts a running slot down; on expiry reloads a periodic timer and stops a one-shot. */
    method CountDown(i: nat) returns (expired: bool)
      requires Valid() && storage != null && i < capacity && storage[i].state == Running
      modifies storage
      ensures Valid() && expired == old(Expires(storage[i]))
      ensures Slots() == old(Slots())[i := Elapse(old(storage[i]))]
      ensures storage[capacity..] == old(storage[capacity..])
    {
      ghost var before := Slots();
      VisitKeeps(before, i);
      assert SlotOk(before[i]);
      hide SlotOk;
      if storage[i].remaining > 0 {
        storage[i] := storage[i].(remaining := storage[i].remaining - 1);
      }
      expired := storage[i].remaining == 0;
      if expired {
        if storage[i].mode == Periodic {
          storage[i] := storage[i].(remaining := storage[i].timeout);
        } else {
          storage[i] := storage[i].(state := Stopped);
        }
      }
      assert storage[i] == Elapse(before[i]);
      assert storage[..capacity] == before[i := Elapse(before[i])];
    }

    /** client says what the callback of each slot does if this tick invokes it. */
    method Tick(client: Client) returns (status: Status, ghost fired: seq<Firing>)
      requires Valid()
      modifies storage
      ensures storage == old(storage) && capacity == old(capacity) && Valid()
      ensures status == if storage == null then ErrorNullPointer else Success
      ensures storage != null ==>
        && Ticked(Slots(), fired) == TimerModel.Tick(old(Slots()), client)
        && storage[capacity..] == old(storage[capacity..])
    {
      hide Perform, Apply, EntryOk, FirstUnused, SlotOk, Elapse, Expires;
      fired := [];
      if storage == null {
        return ErrorNullPointer, [];
      }
      var i := 0;
      while i < capacity
        invariant 0 <= i <= capacity
        invariant Valid()
        invariant Ticked(Slots(), fired) == TickUpTo(old(Slots()), i, client)
        invariant storage[capacity..] == old(storage[capacity..])
      {
        ghost var t := Ticked(Slots(), fired);
        IdleSlot(t.slots, i);
        if storage[i].state == Running {
          var callback, context := storage[i].callback, storage[i].context;
          var firedHandle := Handle(Byte(i), storage[i].generation);
          var expired := CountDown(i);
          if expired && callback != Null {
            fired := fired + [Firing(i, callback, firedHandle, context, Slots())];
            Invoke(ScriptOf(client, i));
          }
        }
        assert Ticked(Slots(), fired) == TickSlot(t, i, client);
        i := i + 1;
      }
      return Success, fired;
    }
  }

  lemma IdleSlot(s: Slots, i: nat)
    requires i < |s|
    ensures s[i].state != Running ==> !Expires(s[i]) && s[i := Elapse(s[i])] == s
  {
  }
}

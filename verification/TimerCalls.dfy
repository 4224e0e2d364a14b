/** What each call and each visit of a tick does to a pool, field by field. */
module TimerCalls {
  import opened Options
  import opened TimerModel

  /** s' is s outside slot i. */
  predicate OnlySlot(s: Slots, s': Slots, i: nat) {
    |s'| == |s| && forall k | 0 <= k < |s| && k != i :: s'[k] == s[k]
  }

  /** The two slots hold the same timer: what Create and Delete set is equal. */
  predicate SameTimer(a: Slot, b: Slot) {
    a.mode == b.mode && a.callback == b.callback && a.context == b.context && a.generation == b.generation
  }

  predicate SomeUnused(s: Slots) {
    exists i :: 0 <= i < |s| && s[i].state == Unused
  }

  /** s' is s with a stopped timer of the given arguments in slot i, which handle names. */
  predicate Registers(s: Slots, s': Slots, handle: Option<Handle>, i: nat, mode: Mode, callback: Callback,
                      context: nat)
  {
    && i < |s| && OnlySlot(s, s', i)
    && var slot := s'[i];
       && slot.state == Stopped && slot.mode == mode && slot.callback == callback && slot.context == context
       && slot.timeout == 0 && slot.remaining == 0 && slot.generation == s[i].generation
       && handle == Some(Handle(Byte(i), s[i].generation))
  }

  lemma CreatesLowest(s: Slots, mode: Mode, callback: Callback, context: nat)
    requires callback != Null && mode != Invalid && FirstUnused(s, 0) < |s|
    ensures var r := Apply(s, Create(mode, callback, context));
      Registers(s, r.slots, r.handle, FirstUnused(s, 0), mode, callback, context)
  {
    hide FirstUnused;
  }

  /** Create takes the lowest unused slot, registers exactly what it was given and keeps the slot's
      generation, which the returned handle carries. */
  lemma CreateLaw(s: Slots, mode: Mode, callback: Callback, context: nat)
    ensures var r := Apply(s, Create(mode, callback, context));
      && r.status == (if callback == Null then ErrorNullPointer
                      else if mode != OneShot && mode != Periodic then ErrorInvalidMode
                      else if !SomeUnused(s) then ErrorPoolFull
                      else Success)
      && (r.status != Success ==> r.slots == s && r.handle == None)
      && (r.status == Success ==>
            exists i: nat :: i < |s| && s[i].state == Unused && (forall k | 0 <= k < i :: s[k].state != Unused)
              && Registers(s, r.slots, r.handle, i, mode, callback, context))
  {
    var i := FirstUnused(s, 0);
    if i < |s| && callback != Null && mode != Invalid {
      CreatesLowest(s, mode, callback, context);
    }
    hide Registers;
    assert i < |s| ==> s[i].state == Unused;
  }

  /** Start arms the accepted timer and keeps everything else of it. */
  lemma StartLaw(s: Slots, h: Handle, ticks: nat)
    ensures var r := Apply(s, Start(h, ticks));
      && r.handle == None
      && r.status == (if !Accepts(s, h) then ErrorInvalidHandle
                      else if ticks == 0 then ErrorInvalidTimeout
                      else Success)
      && (r.status != Success ==> r.slots == s)
      && (r.status == Success ==>
            && OnlySlot(s, r.slots, h.index) && SameTimer(r.slots[h.index], s[h.index])
            && r.slots[h.index].state == Running
            && r.slots[h.index].timeout == ticks && r.slots[h.index].remaining == ticks)
  {
  }

  /** Stop halts the accepted timer and keeps everything else of it. */
  lemma StopLaw(s: Slots, h: Handle)
    ensures var r := Apply(s, Stop(h));
      && r.handle == None
      && r.status == (if Accepts(s, h) then Success else ErrorInvalidHandle)
      && (r.status != Success ==> r.slots == s)
      && (r.status == Success ==>
            && OnlySlot(s, r.slots, h.index) && SameTimer(r.slots[h.index], s[h.index])
            && r.slots[h.index].state == Stopped
            && r.slots[h.index].timeout == s[h.index].timeout && r.slots[h.index].remaining == 0)
  {
  }

  /** Delete frees the slot of the accepted timer, clears it and advances its generation. */
  lemma DeleteLaw(s: Slots, h: Handle)
    ensures var r := Apply(s, Delete(h));
      && r.handle == None
      && r.status == (if Accepts(s, h) then Success else ErrorInvalidHandle)
      && (r.status != Success ==> r.slots == s)
      && (r.status == Success ==>
            && OnlySlot(s, r.slots, h.index)
            && var slot := r.slots[h.index];
               && slot.state == Unused && slot.callback == Null && slot.context == 0
               && slot.timeout == 0 && slot.remaining == 0 && slot.mode == s[h.index].mode
               && slot.generation == (if h.generation == 255 then 0 else h.generation + 1))
  {
  }

  /** A tick's own visit changes at most the state and the remaining ticks of a slot: it counts a running
      timer down and, in its last tick, reloads a periodic one and stops a one-shot. */
  lemma VisitLaw(slot: Slot)
    requires SlotOk(slot)
    ensures var next := Elapse(slot);
      && SameTimer(next, slot) && next.timeout == slot.timeout
      && (slot.state != Running ==> next == slot)
      && (slot.state == Running && slot.remaining > 1 ==>
            next.state == Running && next.remaining == slot.remaining - 1)
      && (slot.state == Running && slot.remaining == 1 && slot.mode == Periodic ==>
            next.state == Running && next.remaining == slot.timeout)
      && (slot.state == Running && slot.remaining == 1 && slot.mode == OneShot ==>
            next.state == Stopped && next.remaining == 0)
  {
  }
}

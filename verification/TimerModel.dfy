/** The timer pool as a value: slots, the calls of the API, and one tick with client callbacks. */
module TimerModel {
  import opened Options

  datatype State = Unused | Stopped | Running

  /** Invalid stands for any enumerator value that is neither of the two modes. */
  datatype Mode = OneShot | Periodic | Invalid

  datatype Callback = Null | Function(id: nat)

  /** Both handle fields and the generation of a slot are one byte wide. */
  type Octet = n: nat | n < 256

  datatype Slot = Slot(state: State, mode: Mode, timeout: nat, remaining: nat, callback: Callback, context: nat,
                       generation: Octet)

  datatype Handle = Handle(index: Octet, generation: Octet)

  datatype Status = Success | ErrorNullPointer | ErrorInvalidHandle | ErrorInvalidTimeout | ErrorInvalidMode
                  | ErrorInvalidCapacity | ErrorPoolFull

  type Slots = seq<Slot>

  const BLANK: Slot := Slot(Unused, OneShot, 0, 0, Null, 0, 0)

  /** The calls a client or a callback may make. */
  datatype Action =
    | Create(mode: Mode, callback: Callback, context: nat)
    | Start(handle: Handle, ticks: nat)
    | Stop(handle: Handle)
    | Delete(handle: Handle)

  datatype Outcome = Outcome(slots: Slots, status: Status, handle: Option<Handle>)

  /** The truncation to one byte. */
  function Byte(n: nat): Octet {
    n % 256
  }

  predicate Accepts(s: Slots, h: Handle) {
    h.index < |s| && s[h.index].state != Unused && s[h.index].generation == h.generation
  }

  /** The first unused slot at or after i, |s| if there is none. */
  function FirstUnused(s: Slots, i: nat): (r: nat)
    requires i <= |s|
    ensures i <= r <= |s|
    ensures r < |s| ==> s[r].state == Unused
    ensures forall k | i <= k < r :: s[k].state != Unused
    decreases |s| - i
  {
    if i == |s| || s[i].state == Unused then i else FirstUnused(s, i + 1)
  }

  function Apply(s: Slots, a: Action): (r: Outcome)
    ensures |r.slots| == |s|
  {
    match a
    case Create(mode, callback, context) =>
      if callback == Null then Outcome(s, ErrorNullPointer, None)
      else if mode == Invalid then Outcome(s, ErrorInvalidMode, None)
      else
        var i := FirstUnused(s, 0);
        if i == |s| then Outcome(s, ErrorPoolFull, None)
        else Outcome(s[i := Slot(Stopped, mode, 0, 0, callback, context, s[i].generation)], Success,
                     Some(Handle(Byte(i), s[i].generation)))
    case Start(h, ticks) =>
      if !Accepts(s, h) then Outcome(s, ErrorInvalidHandle, None)
      else if ticks == 0 then Outcome(s, ErrorInvalidTimeout, None)
      else Outcome(s[h.index := s[h.index].(timeout := ticks, remaining := ticks, state := Running)], Success, None)
    case Stop(h) =>
      if !Accepts(s, h) then Outcome(s, ErrorInvalidHandle, None)
      else Outcome(s[h.index := s[h.index].(state := Stopped, remaining := 0)], Success, None)
    case Delete(h) =>
      if !Accepts(s, h) then Outcome(s, ErrorInvalidHandle, None)
      else
        var slot := s[h.index];
        Outcome(s[h.index := Slot(Unused, slot.mode, 0, 0, Null, 0, Byte(slot.generation + 1))], Success, None)
  }

  /** A callback is a finite script of calls. */
  function Perform(s: Slots, script: seq<Action>): (r: Slots)
    ensures |r| == |s|
    decreases |script|
  {
    if script == [] then s
    else
      var k := |script| - 1;
      Apply(Perform(s, script[..k]), script[k]).slots
  }

  // One tick.

  predicate Expires(slot: Slot) {
    slot.state == Running && slot.remaining <= 1
  }

  /** What a tick itself does to a slot: count down, then reload or stop on expiry. */
  function Elapse(slot: Slot): Slot {
    if slot.state != Running then slot
    else if slot.remaining > 1 then slot.(remaining := slot.remaining - 1)
    else if slot.mode == Periodic then slot.(remaining := slot.timeout)
    else slot.(remaining := 0, state := Stopped)
  }

  /** One callback invocation: the expired slot, the function called, the handle and context passed to
      it, and the pool as the callback finds it. */
  datatype Firing = Firing(index: nat, callback: Callback, handle: Handle, context: nat, entry: Slots)

  datatype Ticked = Ticked(slots: Slots, fired: seq<Firing>)

  /** What the callback of each slot does if it is invoked in this tick: any client whatsoever. */
  type Client = seq<seq<Action>>

  function ScriptOf(client: Client, i: nat): seq<Action> {
    if i < |client| then client[i] else []
  }

  function TickSlot(t: Ticked, i: nat, client: Client): (r: Ticked)
    requires i < |t.slots|
    ensures |r.slots| == |t.slots|
  {
    var slot := t.slots[i];
    var entry := t.slots[i := Elapse(slot)];
    if Expires(slot) && slot.callback != Null then
      Ticked(Perform(entry, ScriptOf(client, i)),
             t.fired + [Firing(i, slot.callback, Handle(Byte(i), slot.generation), slot.context, entry)])
    else Ticked(entry, t.fired)
  }

  /** The pool and the firings once the first n slots have been visited. */
  function TickUpTo(s: Slots, n: nat, client: Client): (r: Ticked)
    requires n <= |s|
    ensures |r.slots| == |s|
  {
    if n == 0 then Ticked(s, []) else TickSlot(TickUpTo(s, n - 1, client), n - 1, client)
  }

  function Tick(s: Slots, client: Client): Ticked {
    TickUpTo(s, |s|, client)
  }

  // The invariant of every reachable pool.

  predicate SlotOk(slot: Slot) {
    && (slot.state == Running ==> 1 <= slot.remaining <= slot.timeout)
    && (slot.state != Running ==> slot.remaining == 0)
    && (slot.state != Unused ==> slot.callback != Null && slot.mode != Invalid)
  }

  predicate PoolOk(s: Slots) {
    forall i | 0 <= i < |s| :: SlotOk(s[i])
  }

  lemma ApplyKeeps(s: Slots, a: Action)
    requires PoolOk(s)
    ensures PoolOk(Apply(s, a).slots)
  {
  }

  lemma {:induction false} PerformKeeps(s: Slots, script: seq<Action>)
    requires PoolOk(s)
    ensures PoolOk(Perform(s, script))
    decreases |script|
  {
    if script != [] {
      var k := |script| - 1;
      PerformKeeps(s, script[..k]);
      ApplyKeeps(Perform(s, script[..k]), script[k]);
    }
  }

  lemma VisitKeeps(s: Slots, i: nat)
    requires PoolOk(s) && i < |s|
    ensures PoolOk(s[i := Elapse(s[i])])
  {
  }

  /** What holds whenever a callback is entered. */
  predicate EntryOk(f: Firing) {
    && f.index < |f.entry| && PoolOk(f.entry)
    && var slot := f.entry[f.index];
       && slot.state != Unused && f.callback == slot.callback != Null && f.context == slot.context
       && f.handle == Handle(Byte(f.index), slot.generation)
       && (slot.mode == Periodic ==> slot.state == Running && slot.remaining == slot.timeout)
       && (slot.mode == OneShot ==> slot.state == Stopped && slot.remaining == 0)
  }

  lemma EntryIsOk(slots: Slots, i: nat)
    requires PoolOk(slots) && i < |slots| && Expires(slots[i])
    ensures var slot, entry := slots[i], slots[i := Elapse(slots[i])];
      EntryOk(Firing(i, slot.callback, Handle(Byte(i), slot.generation), slot.context, entry))
  {
    VisitKeeps(slots, i);
    assert SlotOk(slots[i]);
  }

  lemma TickSlotKeeps(t: Ticked, i: nat, client: Client)
    requires PoolOk(t.slots) && i < |t.slots|
    ensures var u := TickSlot(t, i, client);
      && PoolOk(u.slots)
      && (u.fired == t.fired || exists f :: EntryOk(f) && f.index == i && u.fired == t.fired + [f])
  {
    hide EntryOk, PoolOk, Expires, Elapse;
    var slot := t.slots[i];
    var entry := t.slots[i := Elapse(slot)];
    VisitKeeps(t.slots, i);
    PerformKeeps(entry, ScriptOf(client, i));
    if Expires(slot) && slot.callback != Null {
      EntryIsOk(t.slots, i);
      var f := Firing(i, slot.callback, Handle(Byte(i), slot.generation), slot.context, entry);
      assert EntryOk(f) && f.index == i && TickSlot(t, i, client).fired == t.fired + [f];
    }
  }

  /** For every client: the invariant holds at every callback entry and at return, and the fired
      indices ascend. */
  lemma {:induction false} TickKeeps(s: Slots, n: nat, client: Client)
    requires PoolOk(s) && n <= |s|
    ensures var t := TickUpTo(s, n, client);
      && PoolOk(t.slots)
      && (forall k | 0 <= k < |t.fired| :: EntryOk(t.fired[k]) && t.fired[k].index < n)
      && (forall k, l | 0 <= k < l < |t.fired| :: t.fired[k].index < t.fired[l].index)
    decreases n
  {
    hide EntryOk, PoolOk, TickSlot;
    if n > 0 {
      TickKeeps(s, n - 1, client);
      TickSlotKeeps(TickUpTo(s, n - 1, client), n - 1, client);
    } else {
      assert TickUpTo(s, 0, client) == Ticked(s, []);
    }
  }

  /** The callback invoked by f leaves slot j as it found it. */
  predicate CallbackKeeps(f: Firing, client: Client, j: nat) {
    j < |f.entry| && Perform(f.entry, ScriptOf(client, f.index))[j] == f.entry[j]
  }

  lemma VisitWritesOnce(t: Ticked, i: nat, client: Client, j: nat)
    requires i < |t.slots| && j < |t.slots| && i != j
    ensures forall f | f in t.fired :: f in TickSlot(t, i, client).fired
    ensures TickSlot(t, i, client).slots[j] == t.slots[j]
         || exists f :: f in TickSlot(t, i, client).fired && f.index == i && !CallbackKeeps(f, client, j)
  {
    hide Perform, Elapse, Expires;
    var u := TickSlot(t, i, client);
    if u.slots[j] != t.slots[j] {
      assert u.fired[|t.fired|] in u.fired && !CallbackKeeps(u.fired[|t.fired|], client, j);
    }
  }

  /** A tick writes a slot only before its callback: afterwards, and before its turn, only callbacks change it. */
  lemma {:induction false} TickWritesOnce(s: Slots, n: nat, client: Client, i: nat, j: nat)
    requires i <= n <= |s| && j < |s| && (j < i || n <= j)
    requires forall f | f in TickUpTo(s, n, client).fired && f.index >= i :: CallbackKeeps(f, client, j)
    ensures TickUpTo(s, n, client).slots[j] == TickUpTo(s, i, client).slots[j]
    decreases n
  {
    hide TickSlot, CallbackKeeps;
    if i < n {
      VisitWritesOnce(TickUpTo(s, n - 1, client), n - 1, client, j);
      TickWritesOnce(s, n - 1, client, i, j);
    }
  }

  /** A timer that its own callback stops or deletes stays so for the rest of the tick, unless a later
      callback touches its slot. */
  lemma SelfStopIsFinal(s: Slots, j: nat, client: Client)
    requires j < |s| && TickUpTo(s, j + 1, client).slots[j].state != Running
    requires forall f | f in Tick(s, client).fired && f.index > j :: CallbackKeeps(f, client, j)
    ensures Tick(s, client).slots[j] == TickUpTo(s, j + 1, client).slots[j]
    ensures Tick(s, client).slots[j].state != Running
  {
    TickWritesOnce(s, |s|, client, j + 1, j);
  }
}

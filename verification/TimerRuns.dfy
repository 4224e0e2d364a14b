/** Every run of calls and ticks is a run of the handle history, so what holds over histories holds for the
    calls that a run makes. */
module TimerRuns {
  import opened TimerModel
  import opened TimerFiring
  import opened TimerHandles

  ghost function EventSteps(s: Slots, e: Event): seq<Step> {
    match e
    case Call(a) => [Do(a)]
    case TickEvent(client) => TickSteps(s, |s|, client)
  }

  ghost function RunSteps(s: Slots, events: seq<Event>): seq<Step>
    decreases |events|
  {
    if events == [] then []
    else
      var k := |events| - 1;
      RunSteps(s, events[..k]) + EventSteps(After(s, events[..k]), events[k])
  }

  lemma DoIsApply(h: History, a: Action)
    requires |h.deletes| == |h.slots|
    ensures Replay(h, [Do(a)]).slots == Apply(h.slots, a).slots
  {
    assert [Do(a)][..0] == [];
  }

  lemma {:induction false} RunIsReplay(h: History, events: seq<Event>)
    requires |h.deletes| == |h.slots|
    ensures Replay(h, RunSteps(h.slots, events)).slots == After(h.slots, events)
    decreases |events|
  {
    hide Replay, Apply, TickSteps, TickUpTo;
    if events == [] {
      ReplayNothing(h);
    } else {
      var k := |events| - 1;
      RunIsReplay(h, events[..k]);
      var before := RunSteps(h.slots, events[..k]);
      var h' := Replay(h, before);
      ReplayAppend(h, before, EventSteps(h'.slots, events[k]));
      match events[k] {
        case Call(a) => DoIsApply(h', a);
        case TickEvent(client) => TickIsRun(h', |h'.slots|, client);
      }
    }
  }

  /** The pool that a callback finds is the one its slot's visit left. */
  lemma {:induction false} FiredEntry(s: Slots, n: nat, client: Client, f: Firing)
    requires n <= |s| && f in TickUpTo(s, n, client).fired
    ensures f.index < n
    ensures var t := TickUpTo(s, f.index, client).slots;
      f.entry == t[f.index := Elapse(t[f.index])]
    decreases n
  {
    hide Perform, Elapse, Expires;
    if n > 0 && f in TickUpTo(s, n - 1, client).fired {
      FiredEntry(s, n - 1, client, f);
    }
  }

  /** The steps of a run from Init and of its next tick, up to the callback of slot i. */
  ghost function StepsToCallback(capacity: nat, events: seq<Event>, client: Client, i: nat): seq<Step>
    requires i < capacity
  {
    var s := After(Fresh(capacity).slots, events);
    RunSteps(Fresh(capacity).slots, events) + TickSteps(s, i, client) + [Visit(i)]
  }

  lemma CallbackReached(capacity: nat, events: seq<Event>, client: Client, i: nat)
    requires i < capacity
    ensures var t := TickUpTo(After(Fresh(capacity).slots, events), i, client).slots;
      Run(capacity, StepsToCallback(capacity, events, client, i)).slots == t[i := Elapse(t[i])]
  {
    var h := Fresh(capacity);
    var s, before := After(h.slots, events), RunSteps(h.slots, events);
    hide Replay, TickSteps, TickUpTo, Elapse, After, RunSteps;
    RunIsReplay(h, events);
    TickIsRun(Replay(h, before), i, client);
    ReplayAppend(h, before, TickSteps(s, i, client));
    ReplayVisit(h, before + TickSteps(s, i, client), i);
  }

  lemma FreshOk(capacity: nat)
    ensures PoolOk(Fresh(capacity).slots)
  {
  }

  /** In every run from Init, each callback invocation is the one of a timer not deleted since its Create:
      it calls the function, passes the context and passes the handle of that Create. */
  lemma FiringIssued(capacity: nat, events: seq<Event>, client: Client, f: Firing) returns (x: Issue)
    requires f in Tick(After(Fresh(capacity).slots, events), client).fired
    ensures f.index < capacity
    ensures var h := Run(capacity, StepsToCallback(capacity, events, client, f.index));
      && h.slots == f.entry && x in h.issued && IssuedFor(h, x, f.index)
      && f.callback == x.callback && f.context == x.context && f.handle == x.handle
  {
    var s, i := After(Fresh(capacity).slots, events), f.index;
    FreshOk(capacity);
    RunKeepsPool(Fresh(capacity).slots, events);
    TickKeeps(s, |s|, client);
    var fired := Tick(s, client).fired;
    var k :| 0 <= k < |fired| && fired[k] == f;
    assert EntryOk(fired[k]);
    FiredEntry(s, |s|, client, f);
    CallbackReached(capacity, events, client, i);
    CallbackSlot(f);
    var steps := StepsToCallback(capacity, events, client, i);
    hide *;
    x := LiveSlotIssued(capacity, steps, i);
    LiveTimerHolds(capacity, steps, x);
    HoldsArguments(Run(capacity, steps).slots[i], x);
  }

  lemma CallbackSlot(f: Firing)
    requires EntryOk(f)
    ensures var slot := f.entry[f.index];
      && f.callback == slot.callback && f.context == slot.context && f.handle == Handle(Byte(f.index), slot.generation)
      && slot.state != Unused
  {
    assert SlotOk(f.entry[f.index]);
  }

  lemma HoldsArguments(slot: Slot, x: Issue)
    requires Holds(slot, x)
    ensures slot.mode == x.mode && slot.callback == x.callback && slot.context == x.context
  {
  }
}

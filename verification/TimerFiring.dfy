/** When a started timer fires, and what it calls. */
module TimerFiring {
  import opened Arithmetic
  import opened TimerModel

  /** The call neither starts, stops nor deletes the timer behind h; a start with timeout 0 is rejected. */
  predicate Spares(a: Action, h: Handle) {
    match a
    case Create(_, _, _) => true
    case Start(g, ticks) => g != h || ticks == 0
    case Stop(g) => g != h
    case Delete(g) => g != h
  }

  predicate AllSpare(script: seq<Action>, h: Handle) {
    forall k | 0 <= k < |script| :: Spares(script[k], h)
  }

  predicate ClientSpares(client: Client, h: Handle) {
    forall i | 0 <= i < |client| :: AllSpare(client[i], h)
  }

  lemma SparedSlot(s: Slots, a: Action, h: Handle)
    requires Accepts(s, h) && Spares(a, h)
    ensures Apply(s, a).slots[h.index] == s[h.index]
  {
  }

  lemma {:induction false} SparedByScript(s: Slots, script: seq<Action>, h: Handle)
    requires Accepts(s, h) && AllSpare(script, h)
    ensures Perform(s, script)[h.index] == s[h.index]
    decreases |script|
  {
    if script != [] {
      var k := |script| - 1;
      SparedByScript(s, script[..k], h);
      SparedSlot(Perform(s, script[..k]), script[k], h);
    }
  }

  /** A timer as it was created and started. */
  datatype Timer = Timer(mode: Mode, timeout: nat, callback: Callback, context: nat)

  predicate Startable(t: Timer) {
    t.timeout > 0 && t.callback != Null
  }

  /** The slot of a timer, c ticks after its start. */
  predicate Phase(slot: Slot, t: Timer, c: nat)
    requires Startable(t)
  {
    && slot.mode == t.mode && slot.timeout == t.timeout && slot.callback == t.callback && slot.context == t.context
    && if t.mode == Periodic then slot.state == Running && slot.remaining == t.timeout - c % t.timeout
       else if c < t.timeout then slot.state == Running && slot.remaining == t.timeout - c
       else slot.state == Stopped && slot.remaining == 0
  }

  /** How often it has fired by then. */
  function Fires(t: Timer, c: nat): nat
    requires Startable(t)
  {
    if t.mode == Periodic then c / t.timeout else if c < t.timeout then 0 else 1
  }

  lemma NextQuotient(c: nat, n: nat)
    requires n > 0
    ensures c % n == n - 1 ==> (c + 1) % n == 0 && (c + 1) / n == c / n + 1
    ensures c % n < n - 1 ==> (c + 1) % n == c % n + 1 && (c + 1) / n == c / n
  {
    var q, r := c / n, c % n;
    var m := q * n;
    assert c == m + r;
    assert (q + 1) * n == m + n;
    if r == n - 1 {
      DivMod(c + 1, n, q + 1, 0);
    } else {
      DivMod(c + 1, n, q, r + 1);
    }
  }

  lemma ElapseAdvances(slot: Slot, t: Timer, c: nat)
    requires Startable(t) && Phase(slot, t, c)
    ensures Phase(Elapse(slot), t, c + 1)
    ensures Fires(t, c + 1) == Fires(t, c) + (if Expires(slot) then 1 else 0)
    ensures Elapse(slot).generation == slot.generation && Elapse(slot).state != Unused
  {
    NextQuotient(c, t.timeout);
  }

  /** What a callback invocation hands to the client. */
  datatype Invocation = Invocation(callback: Callback, handle: Handle, context: nat)

  /** The call that a timer makes whenever it fires. */
  function CallOf(t: Timer, h: Handle): Invocation {
    Invocation(t.callback, h, t.context)
  }

  /** n equal calls, none if n is negative. */
  function Repeated(x: Invocation, n: int): seq<Invocation> {
    seq(if n < 0 then 0 else n, _ => x)
  }

  lemma RepeatedAppend(x: Invocation, m: nat, n: nat)
    ensures Repeated(x, m) + Repeated(x, n) == Repeated(x, m + n)
  {
  }

  lemma MoreCalls(calls: seq<Invocation>, all: seq<Invocation>, more: seq<Invocation>, x: Invocation, m: nat, n: nat)
    requires m <= n && all == calls + Repeated(x, m) && more == Repeated(x, n - m)
    ensures all + more == calls + Repeated(x, n)
  {
    RepeatedAppend(x, m, n - m);
    hide Repeated;
    assert calls + Repeated(x, m) + more == calls + (Repeated(x, m) + more);
  }

  /** The calls made for slot j, in order. */
  function Invocations(fired: seq<Firing>, j: nat): seq<Invocation> {
    if fired == [] then []
    else
      var f := fired[|fired| - 1];
      Invocations(fired[..|fired| - 1], j)
      + (if f.index == j then [Invocation(f.callback, f.handle, f.context)] else [])
  }

  lemma InvocationsSnoc(fired: seq<Firing>, f: Firing, j: nat)
    ensures Invocations(fired + [f], j)
         == Invocations(fired, j) + (if f.index == j then [Invocation(f.callback, f.handle, f.context)] else [])
  {
    assert (fired + [f])[..|fired|] == fired;
  }

  /** h refers to the timer t, started c ticks ago. */
  ghost predicate At(s: Slots, h: Handle, t: Timer, c: nat)
    requires Startable(t)
  {
    Accepts(s, h) && Phase(s[h.index], t, c)
  }

  /** Visiting the slots i..k-1 advances the timer by one tick, and makes its call if it is due, exactly
      when its slot is among them. */
  lemma {:induction false} TickAdvances(s: Slots, i: nat, k: nat, client: Client, h: Handle, t: Timer, c: nat)
    requires Startable(t) && i <= k <= |s|
    requires At(TickUpTo(s, i, client).slots, h, t, c)
    requires forall l | i <= l < k :: AllSpare(ScriptOf(client, l), h)
    ensures var c' := c + (if i <= h.index < k then 1 else 0);
      && At(TickUpTo(s, k, client).slots, h, t, c') && Fires(t, c') >= Fires(t, c)
      && Invocations(TickUpTo(s, k, client).fired, h.index)
           == Invocations(TickUpTo(s, i, client).fired, h.index)
            + Repeated(CallOf(t, h), Fires(t, c') - Fires(t, c))
    decreases k
  {
    hide At, Fires, TickSlot, Invocations, CallOf, Spares;
    if i < k {
      var j := k - 1;
      TickAdvances(s, i, j, client, h, t, c);
      VisitAdvances(TickUpTo(s, j, client), j, client, h, t, c + (if i <= h.index < j then 1 else 0));
    }
  }

  lemma VisitAdvances(u: Ticked, j: nat, client: Client, h: Handle, t: Timer, c: nat)
    requires Startable(t) && j < |u.slots| && At(u.slots, h, t, c) && AllSpare(ScriptOf(client, j), h)
    ensures var c' := c + (if h.index == j then 1 else 0);
      && At(TickSlot(u, j, client).slots, h, t, c') && Fires(t, c') >= Fires(t, c)
      && Invocations(TickSlot(u, j, client).fired, h.index)
           == Invocations(u.fired, h.index) + Repeated(CallOf(t, h), Fires(t, c') - Fires(t, c))
  {
    hide Phase, Fires, Perform, Spares;
    var slot := u.slots[j];
    var entry := u.slots[j := Elapse(slot)];
    if h.index == j {
      ElapseAdvances(slot, t, c);
    }
    PhaseHolds(u.slots[h.index], t, c);
    assert Accepts(entry, h);
    SparedByScript(entry, ScriptOf(client, j), h);
    InvocationsSnoc(u.fired, Firing(j, slot.callback, Handle(Byte(j), slot.generation), slot.context, entry), h.index);
  }

  lemma PhaseHolds(slot: Slot, t: Timer, c: nat)
    requires Startable(t) && Phase(slot, t, c)
    ensures slot.callback == t.callback != Null && slot.context == t.context
  {
  }

  // Runs of calls and ticks.

  datatype Event = Call(action: Action) | TickEvent(client: Client)

  function After(s: Slots, events: seq<Event>): (r: Slots)
    ensures |r| == |s|
    decreases |events|
  {
    if events == [] then s
    else
      var before := After(s, events[..|events| - 1]);
      match events[|events| - 1]
      case Call(a) => Apply(before, a).slots
      case TickEvent(client) => Tick(before, client).slots
  }

  lemma {:induction false} RunKeepsPool(s: Slots, events: seq<Event>)
    requires PoolOk(s)
    ensures PoolOk(After(s, events))
    decreases |events|
  {
    hide PoolOk, Apply, EntryOk;
    if events != [] {
      var k := |events| - 1;
      RunKeepsPool(s, events[..k]);
      var before := After(s, events[..k]);
      match events[k] {
        case Call(a) => ApplyKeeps(before, a);
        case TickEvent(client) => TickKeeps(before, |before|, client);
      }
    }
  }

  function TickCount(events: seq<Event>): nat {
    if events == [] then 0
    else TickCount(events[..|events| - 1]) + (if events[|events| - 1].TickEvent? then 1 else 0)
  }

  /** The calls that the run makes for slot j, in order. */
  function Invoked(s: Slots, events: seq<Event>, j: nat): seq<Invocation>
    decreases |events|
  {
    if events == [] then []
    else
      Invoked(s, events[..|events| - 1], j)
      + match events[|events| - 1]
        case Call(_) => []
        case TickEvent(client) => Invocations(Tick(After(s, events[..|events| - 1]), client).fired, j)
  }

  predicate EventSpares(e: Event, h: Handle) {
    match e
    case Call(a) => Spares(a, h)
    case TickEvent(client) => ClientSpares(client, h)
  }

  /** Nothing in the run starts, stops or deletes the timer behind h. */
  predicate RunSpares(events: seq<Event>, h: Handle) {
    forall k | 0 <= k < |events| :: EventSpares(events[k], h)
  }

  lemma CallKeepsPhase(s: Slots, a: Action, h: Handle, t: Timer, c: nat)
    requires Startable(t) && At(s, h, t, c) && Spares(a, h)
    ensures At(Apply(s, a).slots, h, t, c)
  {
    hide Apply, Phase;
    SparedSlot(s, a, h);
  }

  lemma NothingFired(s: Slots, client: Client, j: nat)
    ensures TickUpTo(s, 0, client) == Ticked(s, []) && Invocations([], j) == []
  {
  }

  lemma OneTick(s: Slots, client: Client, h: Handle, t: Timer, c: nat)
    requires Startable(t) && At(s, h, t, c) && ClientSpares(client, h)
    ensures At(Tick(s, client).slots, h, t, c + 1) && Fires(t, c + 1) >= Fires(t, c)
    ensures Invocations(Tick(s, client).fired, h.index) == Repeated(CallOf(t, h), Fires(t, c + 1) - Fires(t, c))
  {
    NothingFired(s, client, h.index);
    hide Phase, Fires, Spares, TickUpTo, Invocations, Repeated;
    TickAdvances(s, 0, |s|, client, h, t, c);
  }

  lemma {:induction false} RunAdvances(s: Slots, events: seq<Event>, h: Handle, t: Timer, c: nat)
    requires Startable(t) && At(s, h, t, c)
    requires RunSpares(events, h)
    ensures At(After(s, events), h, t, c + TickCount(events)) && Fires(t, c + TickCount(events)) >= Fires(t, c)
    ensures Invoked(s, events, h.index)
         == Repeated(CallOf(t, h), Fires(t, c + TickCount(events)) - Fires(t, c))
    decreases |events|
  {
    hide At, Fires, Apply, Spares, Invocations, CallOf, Tick, Repeated;
    if events == [] {
      NoCalls(CallOf(t, h));
    } else {
      var k := |events| - 1;
      RunAdvances(s, events[..k], h, t, c);
      var before, d := After(s, events[..k]), c + TickCount(events[..k]);
      match events[k] {
        case Call(a) => CallKeepsPhase(before, a, h, t, d);
        case TickEvent(client) =>
          OneTick(before, client, h, t, d);
          RepeatedAppend(CallOf(t, h), Fires(t, d) - Fires(t, c), Fires(t, d + 1) - Fires(t, d));
      }
    }
  }

  lemma NoCalls(x: Invocation)
    ensures Repeated(x, 0) == []
  {
  }

  /** A one-shot makes its call on exactly the n-th tick after its start and never again; a periodic timer
      has made it floor(k/n) times after k ticks and shows n - k mod n ticks. The call is always the
      registered callback with the timer's handle and context. Nothing done to other timers matters. */
  lemma FiringLaw(s: Slots, h: Handle, n: nat, events: seq<Event>)
    requires PoolOk(s) && Accepts(s, h) && n > 0
    requires RunSpares(events, h)
    ensures var started := Apply(s, Start(h, n)).slots;
      var k, slot := TickCount(events), After(started, events)[h.index];
      var call := Invocation(s[h.index].callback, h, s[h.index].context);
      && Accepts(After(started, events), h)
      && (s[h.index].mode == OneShot ==>
            && Invoked(started, events, h.index) == (if k >= n then [call] else [])
            && slot.state == (if k >= n then Stopped else Running)
            && slot.remaining == (if k >= n then 0 else n - k))
      && (s[h.index].mode == Periodic ==>
            && Invoked(started, events, h.index) == Repeated(call, k / n)
            && slot.state == Running && slot.remaining == n - k % n)
  {
    hide Apply, After, Invoked, TickCount, Spares, EventSpares;
    RunFromStart(s, h, n, events);
  }

  /** The timer that Start(h, n) arms. */
  function Armed(slot: Slot, n: nat): Timer {
    Timer(slot.mode, n, slot.callback, slot.context)
  }

  lemma AcceptedIndex(s: Slots, h: Handle)
    requires Accepts(s, h)
    ensures h.index < |s|
  {
  }

  lemma RunFromStart(s: Slots, h: Handle, n: nat, events: seq<Event>)
    requires PoolOk(s) && Accepts(s, h) && n > 0
    requires RunSpares(events, h)
    ensures var started, t := Apply(s, Start(h, n)).slots, Armed(s[h.index], n);
      && Startable(t) && At(After(started, events), h, t, TickCount(events))
      && Invoked(started, events, h.index) == Repeated(CallOf(t, h), Fires(t, TickCount(events)))
  {
    hide *;
    AcceptedIndex(s, h);
    var started, t := Apply(s, Start(h, n)).slots, Armed(s[h.index], n);
    StartPhase(s, h, n);
    RunAdvances(started, events, h, t, 0);
  }

  lemma StartPhase(s: Slots, h: Handle, n: nat)
    requires PoolOk(s) && Accepts(s, h) && n > 0
    ensures Startable(Armed(s[h.index], n))
    ensures At(Apply(s, Start(h, n)).slots, h, Armed(s[h.index], n), 0)
    ensures Fires(Armed(s[h.index], n), 0) == 0
  {
    assert SlotOk(s[h.index]);
    ZeroQuotient(n);
  }

  lemma ZeroQuotient(n: nat)
    requires n > 0
    ensures 0 / n == 0 && 0 % n == 0
  {
    DivMod(0, n, 0, 0);
  }

  // Starts made by a callback.

  /** The pool when the callback of slot i has made the calls in before. */
  function DuringCallback(s: Slots, i: nat, client: Client, before: seq<Action>): (p: Slots)
    requires i < |s|
    ensures |p| == |s|
  {
    var t := TickUpTo(s, i, client).slots;
    Perform(t[i := Elapse(t[i])], before)
  }

  /** Slot i fires, and its callback makes the calls before, then a, then after; h is live when it makes a. */
  predicate CallsBack(s: Slots, i: nat, client: Client, before: seq<Action>, a: Action, after: seq<Action>, h: Handle) {
    && i < |s| && Expires(TickUpTo(s, i, client).slots[i])
    && ScriptOf(client, i) == before + [a] + after
    && Accepts(DuringCallback(s, i, client, before), h)
  }

  /** The callback of slot i starts h with n ticks; nothing else in the rest of that tick starts, stops or
      deletes h. */
  predicate StartsInCallback(s: Slots, i: nat, client: Client, before: seq<Action>, h: Handle, n: nat,
                             after: seq<Action>)
  {
    && n > 0 && CallsBack(s, i, client, before, Start(h, n), after, h)
    && AllSpare(after, h)
    && forall l | i < l < |s| :: AllSpare(ScriptOf(client, l), h)
  }

  lemma StartIndices(s: Slots, i: nat, client: Client, before: seq<Action>, h: Handle, n: nat, after: seq<Action>)
    requires StartsInCallback(s, i, client, before, h, n, after)
    ensures i < |s| && h.index < |s|
  {
  }

  /** The timer that the callback starts. */
  function StartedTimer(s: Slots, i: nat, client: Client, before: seq<Action>, h: Handle, n: nat): Timer
    requires i < |s| && h.index < |s|
  {
    Armed(DuringCallback(s, i, client, before)[h.index], n)
  }

  lemma CallbackPool(s: Slots, i: nat, client: Client, before: seq<Action>, a: Action, after: seq<Action>, h: Handle)
    requires PoolOk(s) && CallsBack(s, i, client, before, a, after, h)
    ensures var p := DuringCallback(s, i, client, before);
      PoolOk(p) && TickUpTo(s, i + 1, client).slots == Perform(Apply(p, a).slots, after)
  {
    hide Perform, EntryOk;
    var t := TickUpTo(s, i, client).slots;
    var entry := t[i := Elapse(t[i])];
    TickKeeps(s, i, client);
    VisitKeeps(t, i);
    assert SlotOk(t[i]);
    PerformKeeps(entry, before);
    PerformSnoc(entry, before, a);
    PerformAppend(entry, before + [a], after);
  }

  /** A start from the callback of slot i: the running tick already counts for the slots still to be
      visited and does not for slot i itself and the ones before it. */
  lemma StartInCallback(s: Slots, i: nat, client: Client, before: seq<Action>, h: Handle, n: nat, after: seq<Action>)
    requires PoolOk(s) && StartsInCallback(s, i, client, before, h, n, after)
    ensures var u, t, c := Tick(s, client), StartedTimer(s, i, client, before, h, n), if h.index > i then 1 else 0;
      && Startable(t) && At(u.slots, h, t, c)
      && Invocations(u.fired, h.index)
           == Invocations(TickUpTo(s, i + 1, client).fired, h.index) + Repeated(CallOf(t, h), Fires(t, c))
  {
    hide Perform, AllSpare, Phase, Fires, Invocations, PoolOk, DuringCallback, Apply, Repeated;
    var p := DuringCallback(s, i, client, before);
    CallbackPool(s, i, client, before, Start(h, n), after, h);
    StartPhase(p, h, n);
    SparedByScript(Apply(p, Start(h, n)).slots, after, h);
    TickAdvances(s, i + 1, |s|, client, h, Armed(p[h.index], n), 0);
  }

  /** The firing law for such a start: over the rest of the running tick and k further ticks the timer
      makes its call as often as it would in k + 1 ticks if its slot is above i, and in k ticks otherwise. */
  lemma FiringLawFromCallback(s: Slots, i: nat, client: Client, before: seq<Action>, h: Handle, n: nat,
                              after: seq<Action>, events: seq<Event>)
    requires PoolOk(s) && StartsInCallback(s, i, client, before, h, n, after)
    requires RunSpares(events, h)
    ensures var u, t := Tick(s, client), StartedTimer(s, i, client, before, h, n);
      var c := (if h.index > i then 1 else 0) + TickCount(events);
      && Startable(t) && At(After(u.slots, events), h, t, c)
      && Invocations(u.fired, h.index) + Invoked(u.slots, events, h.index)
           == Invocations(TickUpTo(s, i + 1, client).fired, h.index) + Repeated(CallOf(t, h), Fires(t, c))
  {
    hide *;
    StartIndices(s, i, client, before, h, n, after);
    var u, t := Tick(s, client), StartedTimer(s, i, client, before, h, n);
    var c := if h.index > i then 1 else 0;
    StartInCallback(s, i, client, before, h, n, after);
    RunAdvances(u.slots, events, h, t, c);
    MoreCalls(Invocations(TickUpTo(s, i + 1, client).fired, h.index), Invocations(u.fired, h.index),
              Invoked(u.slots, events, h.index), CallOf(t, h), Fires(t, c), Fires(t, c + TickCount(events)));
  }

  lemma PerformSnoc(s: Slots, script: seq<Action>, a: Action)
    ensures Perform(s, script + [a]) == Apply(Perform(s, script), a).slots
  {
    assert (script + [a])[..|script|] == script;
  }

  lemma {:induction false} PerformAppend(s: Slots, a: seq<Action>, b: seq<Action>)
    ensures Perform(s, a + b) == Perform(Perform(s, a), b)
    decreases |b|
  {
    if b == [] {
      assert a + b == a;
    } else {
      var k := |b| - 1;
      PerformAppend(s, a, b[..k]);
      assert (a + b)[..|a + b| - 1] == a + b[..k];
    }
  }
}

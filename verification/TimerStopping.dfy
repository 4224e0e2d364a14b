/** What stopping a timer silences, and the life of a timer from its creation. */
module TimerStopping {
  import opened TimerModel
  import opened TimerCalls
  import opened TimerFiring

  /** The call neither starts nor deletes the timer behind h. It may stop it. */
  predicate NoStart(a: Action, h: Handle) {
    match a
    case Create(_, _, _) => true
    case Start(g, ticks) => g != h || ticks == 0
    case Stop(_) => true
    case Delete(g) => g != h
  }

  predicate ScriptNoStart(script: seq<Action>, h: Handle) {
    forall k | 0 <= k < |script| :: NoStart(script[k], h)
  }

  predicate EventNoStart(e: Event, h: Handle) {
    match e
    case Call(a) => NoStart(a, h)
    case TickEvent(client) => forall i | 0 <= i < |client| :: ScriptNoStart(client[i], h)
  }

  predicate RunNoStart(events: seq<Event>, h: Handle) {
    forall k | 0 <= k < |events| :: EventNoStart(events[k], h)
  }

  /** h refers to the stopped slot x. */
  predicate Idle(s: Slots, h: Handle, x: Slot) {
    Accepts(s, h) && s[h.index] == x && x.state == Stopped && x.remaining == 0
  }

  lemma IdleCall(s: Slots, a: Action, h: Handle, x: Slot)
    requires Idle(s, h, x) && NoStart(a, h)
    ensures Idle(Apply(s, a).slots, h, x)
  {
  }

  lemma {:induction false} IdleScript(s: Slots, script: seq<Action>, h: Handle, x: Slot)
    requires Idle(s, h, x) && ScriptNoStart(script, h)
    ensures Idle(Perform(s, script), h, x)
    decreases |script|
  {
    hide Idle, NoStart, Apply;
    if script != [] {
      var k := |script| - 1;
      IdleScript(s, script[..k], h, x);
      IdleCall(Perform(s, script[..k]), script[k], h, x);
    }
  }

  lemma IdleVisit(u: Ticked, j: nat, client: Client, h: Handle, x: Slot)
    requires j < |u.slots| && Idle(u.slots, h, x) && ScriptNoStart(ScriptOf(client, j), h)
    ensures Idle(TickSlot(u, j, client).slots, h, x)
    ensures Invocations(TickSlot(u, j, client).fired, h.index) == Invocations(u.fired, h.index)
  {
    hide Perform, ScriptNoStart;
    var slot := u.slots[j];
    var entry := u.slots[j := Elapse(slot)];
    assert Idle(entry, h, x);
    IdleScript(entry, ScriptOf(client, j), h, x);
    InvocationsSnoc(u.fired, Firing(j, slot.callback, Handle(Byte(j), slot.generation), slot.context, entry), h.index);
  }

  /** The rest of a tick, from slot i on, makes no call for an idle timer. */
  lemma {:induction false} IdleTick(s: Slots, i: nat, k: nat, client: Client, h: Handle, x: Slot)
    requires i <= k <= |s| && Idle(TickUpTo(s, i, client).slots, h, x)
    requires forall l | i <= l < k :: ScriptNoStart(ScriptOf(client, l), h)
    ensures Idle(TickUpTo(s, k, client).slots, h, x)
    ensures Invocations(TickUpTo(s, k, client).fired, h.index) == Invocations(TickUpTo(s, i, client).fired, h.index)
    decreases k
  {
    hide Idle, TickSlot, Invocations, ScriptNoStart;
    if i < k {
      IdleTick(s, i, k - 1, client, h, x);
      IdleVisit(TickUpTo(s, k - 1, client), k - 1, client, h, x);
    }
  }

  /** A stopped timer that nothing starts or deletes keeps its slot and makes no call. */
  lemma {:induction false} IdleRun(s: Slots, events: seq<Event>, h: Handle, x: Slot)
    requires Idle(s, h, x) && RunNoStart(events, h)
    ensures Idle(After(s, events), h, x) && Invoked(s, events, h.index) == []
    decreases |events|
  {
    hide Idle, Apply, NoStart, Invocations;
    if events != [] {
      var k := |events| - 1;
      IdleRun(s, events[..k], h, x);
      var before := After(s, events[..k]);
      match events[k] {
        case Call(a) => IdleCall(before, a, h, x);
        case TickEvent(client) =>
          NothingFired(before, client, h.index);
          IdleTick(before, 0, |before|, client, h, x);
      }
    }
  }

  lemma StopIdles(s: Slots, h: Handle)
    requires Accepts(s, h)
    ensures var r := Apply(s, Stop(h));
      && r.status == Success && OnlySlot(s, r.slots, h.index)
      && Idle(r.slots, h, s[h.index].(state := Stopped, remaining := 0))
  {
    StopLaw(s, h);
    hide Apply;
  }

  /** A stop succeeds on a live timer, and from then on, until the timer is started or deleted, its callback
      is never called and its slot stays stopped and otherwise as it was. */
  lemma StopSilences(s: Slots, h: Handle, events: seq<Event>)
    requires Accepts(s, h) && RunNoStart(events, h)
    ensures var r, x := Apply(s, Stop(h)), s[h.index].(state := Stopped, remaining := 0);
      && r.status == Success && OnlySlot(s, r.slots, h.index)
      && Accepts(After(r.slots, events), h) && After(r.slots, events)[h.index] == x
      && Invoked(r.slots, events, h.index) == []
  {
    var r, x := Apply(s, Stop(h)), s[h.index].(state := Stopped, remaining := 0);
    StopIdles(s, h);
    hide Apply, RunNoStart, After, Invoked;
    IdleRun(r.slots, events, h, x);
  }

  /** The callback of slot i stops h; nothing in the rest of that tick starts or deletes h. */
  predicate StopsInCallback(s: Slots, i: nat, client: Client, before: seq<Action>, h: Handle, after: seq<Action>) {
    && CallsBack(s, i, client, before, Stop(h), after, h)
    && ScriptNoStart(after, h)
    && forall l | i < l < |s| :: ScriptNoStart(ScriptOf(client, l), h)
  }

  /** A stop from a callback silences the timer at once, also for the rest of the running tick. */
  lemma StopInCallback(s: Slots, i: nat, client: Client, before: seq<Action>, h: Handle, after: seq<Action>,
                       events: seq<Event>)
    requires PoolOk(s) && StopsInCallback(s, i, client, before, h, after) && RunNoStart(events, h)
    ensures var u := Tick(s, client);
      && Accepts(After(u.slots, events), h) && After(u.slots, events)[h.index].state == Stopped
      && Invocations(u.fired, h.index) == Invocations(TickUpTo(s, i + 1, client).fired, h.index)
      && Invoked(u.slots, events, h.index) == []
  {
    var u, p := Tick(s, client), DuringCallback(s, i, client, before);
    CallbackPool(s, i, client, before, Stop(h), after, h);
    StopIdles(p, h);
    var x := p[h.index].(state := Stopped, remaining := 0);
    hide Apply, Perform, RunNoStart, ScriptNoStart, After, Invoked, Invocations, DuringCallback, Expires, SlotOk;
    IdleScript(Apply(p, Stop(h)).slots, after, h, x);
    IdleTick(s, i + 1, |s|, client, h, x);
    IdleRun(u.slots, events, h, x);
  }

  lemma NoCallBeforeTurn(fired: seq<Firing>, i: nat)
    requires forall k | 0 <= k < |fired| :: fired[k].index < i
    ensures Invocations(fired, i) == []
  {
    if fired != [] {
      NoCallBeforeTurn(fired[..|fired| - 1], i);
    }
  }

  lemma VisitCalls(t: Ticked, i: nat, client: Client)
    requires i < |t.slots| && Expires(t.slots[i]) && t.slots[i].callback != Null
    ensures var slot := t.slots[i];
      Invocations(TickSlot(t, i, client).fired, i)
        == Invocations(t.fired, i) + [Invocation(slot.callback, Handle(Byte(i), slot.generation), slot.context)]
  {
    var slot := t.slots[i];
    hide Perform, Invocations, Expires, Elapse;
    InvocationsSnoc(t.fired, Firing(i, slot.callback, Handle(Byte(i), slot.generation), slot.context,
                                    t.slots[i := Elapse(slot)]), i);
  }

  /** A slot that expires makes its one call of the tick in its visit. */
  lemma CalledOnce(s: Slots, i: nat, client: Client)
    requires PoolOk(s) && i < |s| && Expires(TickUpTo(s, i, client).slots[i])
    ensures var slot := TickUpTo(s, i, client).slots[i];
      Invocations(TickUpTo(s, i + 1, client).fired, i)
        == [Invocation(slot.callback, Handle(Byte(i), slot.generation), slot.context)]
  {
    var t := TickUpTo(s, i, client);
    TickKeeps(s, i, client);
    assert SlotOk(t.slots[i]);
    hide TickSlot, PoolOk, EntryOk, Invocations;
    NoCallBeforeTurn(t.fired, i);
    VisitCalls(t, i, client);
  }

  /** A timer whose own callback stops it is called exactly once in that tick and never again, periodic or
      not, whatever else the callback does before and after. */
  lemma SelfStopSilences(s: Slots, client: Client, before: seq<Action>, h: Handle, after: seq<Action>,
                         events: seq<Event>)
    requires PoolOk(s) && StopsInCallback(s, h.index, client, before, h, after) && RunNoStart(events, h)
    ensures var u, slot := Tick(s, client), TickUpTo(s, h.index, client).slots[h.index];
      && After(u.slots, events)[h.index].state == Stopped
      && Invocations(u.fired, h.index)
           == [Invocation(slot.callback, Handle(h.index, slot.generation), slot.context)]
      && Invoked(u.slots, events, h.index) == []
  {
    var i := h.index;
    assert i < |s| && Expires(TickUpTo(s, i, client).slots[i]) && Byte(i) == i;
    hide *;
    StopInCallback(s, i, client, before, h, after, events);
    CalledOnce(s, i, client);
  }

  // From Create on.

  lemma CreatedIdle(s: Slots, mode: Mode, callback: Callback, context: nat)
    requires Apply(s, Create(mode, callback, context)).status == Success && FirstUnused(s, 0) < 256
    ensures var r := Apply(s, Create(mode, callback, context));
      && r.handle.Some? && Accepts(r.slots, r.handle.value)
      && var x := r.slots[r.handle.value.index];
         && Idle(r.slots, r.handle.value, x)
         && x.mode == mode && x.callback == callback && x.context == context
  {
    var i := FirstUnused(s, 0);
    CreatesLowest(s, mode, callback, context);
    hide FirstUnused, Apply;
    assert Byte(i) == i;
  }

  /** The firing law from the arguments of Create. A timer that Create registers in one of the first 256
      slots makes no call while it waits. Started with n ticks, it then calls the registered callback with
      its handle and the registered context: a one-shot on exactly the n-th tick, a periodic timer floor(k/n)
      times in k ticks. */
  lemma CreatedTimerFires(s: Slots, mode: Mode, callback: Callback, context: nat, waiting: seq<Event>, n: nat,
                          events: seq<Event>)
    requires PoolOk(s) && n > 0
    requires Apply(s, Create(mode, callback, context)).status == Success && FirstUnused(s, 0) < 256
    requires var h := Apply(s, Create(mode, callback, context)).handle;
      h.Some? ==> RunNoStart(waiting, h.value) && RunSpares(events, h.value)
    ensures var created := Apply(s, Create(mode, callback, context));
      && created.handle.Some?
      && var h := created.handle.value;
         var start := Apply(After(created.slots, waiting), Start(h, n));
         var k, end, call := TickCount(events), After(start.slots, events), Invocation(callback, h, context);
         && start.status == Success && Accepts(end, h)
         && Invoked(created.slots, waiting, h.index) == []
         && (mode == OneShot ==>
               && Invoked(start.slots, events, h.index) == (if k >= n then [call] else [])
               && end[h.index].state == (if k >= n then Stopped else Running)
               && end[h.index].remaining == (if k >= n then 0 else n - k))
         && (mode == Periodic ==>
               && Invoked(start.slots, events, h.index) == Repeated(call, k / n)
               && end[h.index].state == Running && end[h.index].remaining == n - k % n)
  {
    CreatedIdle(s, mode, callback, context);
    ApplyKeeps(s, Create(mode, callback, context));
    var created := Apply(s, Create(mode, callback, context));
    var h := created.handle.value;
    var x, w := created.slots[h.index], After(created.slots, waiting);
    hide Apply, RunNoStart, RunSpares, After, Invoked, PoolOk, FirstUnused;
    IdleRun(created.slots, waiting, h, x);
    RunKeepsPool(created.slots, waiting);
    StartLaw(w, h, n);
    FiringLaw(w, h, n, events);
  }
}

/** Which handles a pool accepts, over every run. A run is any interleaving of API calls, from outside
    or from callbacks, with the tick's own visits to slots. */
module TimerHandles {
  import opened Options
  import opened TimerModel

  datatype Step = Do(action: Action) | Visit(slot: nat)

  /** A handle returned by Create with the arguments of that call, the slot it was issued for, and that
      slot's deletes until then. */
  datatype Issue = Issue(handle: Handle, mode: Mode, callback: Callback, context: nat, slot: nat, deletes: nat)

  /** A pool with its history: deletes of each slot so far, and every handle ever issued. */
  datatype History = History(slots: Slots, deletes: seq<nat>, issued: seq<Issue>)

  function Fresh(capacity: nat): History {
    History(seq(capacity, _ => BLANK), seq(capacity, _ => 0), [])
  }

  function Advance(h: History, step: Step): History
    requires |h.deletes| == |h.slots|
  {
    match step
    case Visit(i) => if i < |h.slots| then h.(slots := h.slots[i := Elapse(h.slots[i])]) else h
    case Do(a) =>
      var r := Apply(h.slots, a);
      if r.status != Success then h.(slots := r.slots)
      else if a.Delete? then
        h.(slots := r.slots, deletes := h.deletes[a.handle.index := h.deletes[a.handle.index] + 1])
      else if a.Create? then
        var i := FirstUnused(h.slots, 0);
        var x := Issue(r.handle.value, a.mode, a.callback, a.context, i, h.deletes[i]);
        h.(slots := r.slots, issued := h.issued + [x])
      else h.(slots := r.slots)
  }

  function Replay(h: History, steps: seq<Step>): (r: History)
    requires |h.deletes| == |h.slots|
    ensures |r.deletes| == |r.slots| == |h.slots|
    decreases |steps|
  {
    if steps == [] then h else Advance(Replay(h, steps[..|steps| - 1]), steps[|steps| - 1])
  }

  /** A run from Init. */
  function Run(capacity: nat, steps: seq<Step>): (r: History)
    ensures |r.deletes| == |r.slots| == capacity
  {
    Replay(Fresh(capacity), steps)
  }

  ghost predicate IssueOk(h: History, x: Issue) {
    && x.slot < |h.slots| && |h.deletes| == |h.slots|
    && x.handle == Handle(Byte(x.slot), Byte(x.deletes))
    && x.deletes <= h.deletes[x.slot]
    && (x.deletes == h.deletes[x.slot] ==> Holds(h.slots[x.slot], x))
  }

  /** The slot holds the live timer that Create made of the arguments in x. */
  predicate Holds(slot: Slot, x: Issue) {
    slot.state != Unused && slot.mode == x.mode && slot.callback == x.callback && slot.context == x.context
  }

  /** x is the entry of the timer that is now in slot i. */
  predicate IssuedFor(h: History, x: Issue, i: nat) {
    x.slot == i < |h.deletes| && x.deletes == h.deletes[i]
  }

  /** Every live slot has its entry, and no two entries are for the same timer. */
  ghost predicate OneIssueEach(h: History) {
    && (forall i: nat | i < |h.slots| && h.slots[i].state != Unused :: exists x :: x in h.issued && IssuedFor(h, x, i))
    && (forall k, l | 0 <= k < l < |h.issued| ::
          h.issued[k].slot != h.issued[l].slot || h.issued[k].deletes != h.issued[l].deletes)
  }

  ghost predicate HistoryOk(h: History) {
    && |h.deletes| == |h.slots|
    && (forall i | 0 <= i < |h.slots| :: h.slots[i].generation == Byte(h.deletes[i]))
    && (forall k | 0 <= k < |h.issued| :: IssueOk(h, h.issued[k]))
  }

  lemma ByteSuccessor(n: nat)
    ensures Byte(Byte(n) + 1) == Byte(n + 1)
  {
  }

  lemma AdvanceKeeps(h: History, step: Step)
    requires HistoryOk(h)
    ensures HistoryOk(Advance(h, step))
  {
    var h' := Advance(h, step);
    GenerationsKept(h, step);
    hide Byte;
    forall k | 0 <= k < |h'.issued| ensures IssueOk(h', h'.issued[k]) {
      if k < |h.issued| {
        assert IssueOk(h, h.issued[k]);
      }
    }
  }

  lemma GenerationsKept(h: History, step: Step)
    requires HistoryOk(h)
    ensures var h' := Advance(h, step);
      forall i | 0 <= i < |h'.slots| :: h'.slots[i].generation == Byte(h'.deletes[i])
  {
    hide Byte, IssueOk;
    if step.Do? && step.action.Delete? && Accepts(h.slots, step.action.handle) {
      ByteSuccessor(h.deletes[step.action.handle.index]);
    }
  }

  /** A step either issues a handle for an unused slot, or issues none and makes no slot live. */
  lemma AdvanceCases(h: History, step: Step) returns (i: Option<nat>)
    requires |h.deletes| == |h.slots|
    ensures var h' := Advance(h, step);
      match i
      case Some(j) =>
        && j < |h.slots| && h.slots[j].state == Unused && h'.deletes == h.deletes
        && |h'.issued| == |h.issued| + 1 && h'.issued[..|h.issued|] == h.issued
        && IssuedFor(h, h'.issued[|h.issued|], j)
        && forall k: nat | k < |h.slots| && k != j :: h'.slots[k] == h.slots[k]
      case None =>
        && h'.issued == h.issued
        && forall k: nat | k < |h.slots| && h'.slots[k].state != Unused ::
             h.slots[k].state != Unused && h'.deletes[k] == h.deletes[k]
  {
    i := None;
    if step.Do? && step.action.Create? && Apply(h.slots, step.action).status == Success {
      i := Some(FirstUnused(h.slots, 0));
    }
  }

  lemma AdvanceIssues(h: History, step: Step)
    requires HistoryOk(h) && OneIssueEach(h)
    ensures OneIssueEach(Advance(h, step))
  {
    var h' := Advance(h, step);
    var j := AdvanceCases(h, step);
    hide Advance;
    forall i: nat | i < |h'.slots| && h'.slots[i].state != Unused
      ensures exists x :: x in h'.issued && IssuedFor(h', x, i)
    {
      if j == Some(i) {
        var x := h'.issued[|h.issued|];
        assert x in h'.issued && IssuedFor(h', x, i);
      } else {
        var x :| x in h.issued && IssuedFor(h, x, i);
        assert x in h'.issued[..|h.issued|] && IssuedFor(h', x, i);
      }
    }
    forall k, l | 0 <= k < l < |h'.issued|
      ensures h'.issued[k].slot != h'.issued[l].slot || h'.issued[k].deletes != h'.issued[l].deletes
    {
      assert h'.issued[k] == h.issued[k] && IssueOk(h, h.issued[k]);
      assert l < |h.issued| ==> h'.issued[l] == h.issued[l];
    }
  }

  lemma {:induction false} ReplayKeeps(h: History, steps: seq<Step>)
    requires |h.deletes| == |h.slots| && HistoryOk(h) && OneIssueEach(h)
    ensures HistoryOk(Replay(h, steps)) && OneIssueEach(Replay(h, steps))
    decreases |steps|
  {
    hide HistoryOk, OneIssueEach, Advance;
    if steps != [] {
      ReplayKeeps(h, steps[..|steps| - 1]);
      AdvanceKeeps(Replay(h, steps[..|steps| - 1]), steps[|steps| - 1]);
      AdvanceIssues(Replay(h, steps[..|steps| - 1]), steps[|steps| - 1]);
    }
  }

  lemma RunKeeps(capacity: nat, steps: seq<Step>)
    ensures HistoryOk(Run(capacity, steps)) && OneIssueEach(Run(capacity, steps))
  {
    ReplayKeeps(Fresh(capacity), steps);
  }

  /** Two counts have the same low byte exactly when they differ by a multiple of 256. */
  lemma SameByte(m: nat, n: nat)
    requires m <= n
    ensures Byte(m) == Byte(n) <==> (n - m) % 256 == 0
  {
  }

  /** In a pool of any size, a handle is accepted exactly when the slot its truncated index names is
      live and that slot's deletes agree modulo 256 with the deletes its own slot had at the issue. */
  lemma HandleLaw(capacity: nat, steps: seq<Step>, x: Issue)
    requires x in Run(capacity, steps).issued
    ensures var h := Run(capacity, steps);
      && Byte(x.slot) <= x.slot < capacity
      && (Accepts(h.slots, x.handle)
         <==> (h.slots[Byte(x.slot)].state != Unused && Byte(h.deletes[Byte(x.slot)]) == Byte(x.deletes)))
  {
    var h := Run(capacity, steps);
    RunKeeps(capacity, steps);
    hide Run;
    assert IssueOk(h, x);
  }

  /** In a pool of at most 256 slots, a handle is accepted exactly when its slot is live and has been
      deleted a multiple of 256 times since the handle was issued. */
  lemma StaleHandleLaw(capacity: nat, steps: seq<Step>, x: Issue)
    requires capacity <= 256 && x in Run(capacity, steps).issued
    ensures var h := Run(capacity, steps);
      && x.slot < capacity && x.deletes <= h.deletes[x.slot]
      && (Accepts(h.slots, x.handle)
         <==> (h.slots[x.slot].state != Unused && (h.deletes[x.slot] - x.deletes) % 256 == 0))
  {
    var h := Run(capacity, steps);
    HandleLaw(capacity, steps, x);
    RunKeeps(capacity, steps);
    hide Run, Accepts, OneIssueEach, Byte;
    assert IssueOk(h, x);
    OwnByte(x.slot);
    SameByte(x.deletes, h.deletes[x.slot]);
  }

  /** The handle of a timer that has not been deleted always works; after one delete it is rejected
      until the 256th. */
  lemma UndeletedAndStale(capacity: nat, steps: seq<Step>, x: Issue)
    requires capacity <= 256 && x in Run(capacity, steps).issued
    ensures var h := Run(capacity, steps);
      && x.slot < capacity
      && (h.deletes[x.slot] == x.deletes ==> Accepts(h.slots, x.handle))
      && (1 <= h.deletes[x.slot] - x.deletes <= 255 ==> !Accepts(h.slots, x.handle))
  {
    var h := Run(capacity, steps);
    StaleHandleLaw(capacity, steps, x);
    RunKeeps(capacity, steps);
    hide Run, Accepts, OneIssueEach, Byte;
    assert IssueOk(h, x);
  }

  /** The timer in a live slot has the handle that Create returned for it. */
  lemma LiveSlotIssued(capacity: nat, steps: seq<Step>, i: nat) returns (x: Issue)
    requires i < capacity && Run(capacity, steps).slots[i].state != Unused
    ensures var h := Run(capacity, steps);
      && x in h.issued && IssuedFor(h, x, i)
      && x.handle == Handle(Byte(i), h.slots[i].generation)
  {
    var h := Run(capacity, steps);
    RunKeeps(capacity, steps);
    hide Run;
    x :| x in h.issued && IssuedFor(h, x, i);
    assert IssueOk(h, x);
  }

  /** A timer not deleted since keeps exactly the mode, callback and context given to its Create. */
  lemma LiveTimerHolds(capacity: nat, steps: seq<Step>, x: Issue)
    requires x in Run(capacity, steps).issued && IssuedFor(Run(capacity, steps), x, x.slot)
    ensures x.slot < capacity && Holds(Run(capacity, steps).slots[x.slot], x)
  {
    var h := Run(capacity, steps);
    RunKeeps(capacity, steps);
    hide Run, Holds;
    assert IssueOk(h, x);
  }

  /** In a pool of at most 256 slots, the handles accepted are those that Create returned for timers not
      deleted since, and no others. */
  lemma AcceptedExactlyCurrent(capacity: nat, steps: seq<Step>, handle: Handle)
    requires capacity <= 256
    ensures var h := Run(capacity, steps);
      Accepts(h.slots, handle) <==> exists x :: x in h.issued && IssuedFor(h, x, x.slot) && x.handle == handle
  {
    var h := Run(capacity, steps);
    if Accepts(h.slots, handle) {
      var x := LiveSlotIssued(capacity, steps, handle.index);
      OwnByte(handle.index);
    }
    if exists x :: x in h.issued && IssuedFor(h, x, x.slot) && x.handle == handle {
      var x :| x in h.issued && IssuedFor(h, x, x.slot) && x.handle == handle;
      UndeletedAndStale(capacity, steps, x);
    }
  }

  /** No two handles that Create returned for timers not deleted since are equal. */
  ghost predicate LiveHandlesDistinct(h: History) {
    forall k, l | 0 <= k < l < |h.issued|
      && IssuedFor(h, h.issued[k], h.issued[k].slot) && IssuedFor(h, h.issued[l], h.issued[l].slot) ::
      h.issued[k].handle != h.issued[l].handle
  }

  // Beyond 256 slots the truncated index makes handles collide.

  function CreateAll(n: nat): seq<Step> {
    seq(n, _ => Do(Create(OneShot, Function(0), 0)))
  }

  /** The first n slots are live, the others unused, and none has been deleted. */
  predicate Filled(s: Slots, n: nat) {
    forall i | 0 <= i < |s| :: s[i].generation == 0 && (s[i].state == Unused <==> i >= n)
  }

  lemma CreateFillsNext(h: History, n: nat)
    requires |h.deletes| == |h.slots| && n < |h.slots| && Filled(h.slots, n)
    ensures Filled(Advance(h, Do(Create(OneShot, Function(0), 0))).slots, n + 1)
  {
    var i := FirstUnused(h.slots, 0);
    assert h.slots[n].state == Unused;
    assert i == n;
  }

  lemma {:induction false} CreatesFill(capacity: nat, n: nat)
    requires n <= capacity
    ensures Filled(Run(capacity, CreateAll(n)).slots, n)
    decreases n
  {
    if n > 0 {
      CreatesFill(capacity, n - 1);
      assert CreateAll(n)[..n - 1] == CreateAll(n - 1);
      CreateFillsNext(Run(capacity, CreateAll(n - 1)), n - 1);
    }
  }

  lemma SmallPoolDistinct(h: History)
    requires HistoryOk(h) && OneIssueEach(h) && |h.slots| <= 256
    ensures LiveHandlesDistinct(h)
  {
    hide Byte;
    forall k, l | 0 <= k < l < |h.issued|
      && IssuedFor(h, h.issued[k], h.issued[k].slot) && IssuedFor(h, h.issued[l], h.issued[l].slot)
      ensures h.issued[k].handle != h.issued[l].handle
    {
      assert IssueOk(h, h.issued[k]) && IssueOk(h, h.issued[l]);
      OwnByte(h.issued[k].slot);
      OwnByte(h.issued[l].slot);
    }
  }

  lemma OwnByte(n: nat)
    requires n < 256
    ensures Byte(n) == n
  {
  }

  lemma FilledCollides(capacity: nat, steps: seq<Step>)
    requires capacity > 256 && Filled(Run(capacity, steps).slots, 257)
    ensures !LiveHandlesDistinct(Run(capacity, steps))
  {
    var x := LiveSlotIssued(capacity, steps, 0);
    var y := LiveSlotIssued(capacity, steps, 256);
    var h := Run(capacity, steps);
    hide Run;
    assert h.slots[0].generation == 0 && h.slots[256].generation == 0;
    var k :| 0 <= k < |h.issued| && h.issued[k] == x;
    var l :| 0 <= l < |h.issued| && h.issued[l] == y;
    assert k != l && h.issued[k].handle == h.issued[l].handle;
  }

  ghost predicate AlwaysDistinct(capacity: nat) {
    forall steps :: LiveHandlesDistinct(Run(capacity, steps))
  }

  /** In every run the handles of the live timers are distinct exactly when there are at most 256 slots. */
  lemma DistinctHandlesExactly(capacity: nat)
    ensures AlwaysDistinct(capacity) <==> capacity <= 256
  {
    hide LiveHandlesDistinct, Filled;
    if capacity <= 256 {
      forall steps ensures LiveHandlesDistinct(Run(capacity, steps)) {
        RunKeeps(capacity, steps);
        SmallPoolDistinct(Run(capacity, steps));
      }
    } else {
      CreatesFill(capacity, 257);
      FilledCollides(capacity, CreateAll(257));
    }
  }

  // Every tick is such an interleaving.

  function Calls(script: seq<Action>): seq<Step> {
    seq(|script|, i requires 0 <= i < |script| => Do(script[i]))
  }

  lemma {:induction false} ReplayAppend(h: History, a: seq<Step>, b: seq<Step>)
    requires |h.deletes| == |h.slots|
    ensures Replay(h, a + b) == Replay(Replay(h, a), b)
    decreases |b|
  {
    hide Advance;
    if b == [] {
      assert a + b == a;
    } else {
      var k := |b| - 1;
      ReplayAppend(h, a, b[..k]);
      assert (a + b)[..|a + b| - 1] == a + b[..k];
    }
  }

  lemma {:induction false} ReplayCalls(h: History, script: seq<Action>)
    requires |h.deletes| == |h.slots|
    ensures Replay(h, Calls(script)).slots == Perform(h.slots, script)
    decreases |script|
  {
    hide Apply, FirstUnused, Accepts;
    if script != [] {
      var k := |script| - 1;
      ReplayCalls(h, script[..k]);
      assert Calls(script)[..k] == Calls(script[..k]);
    }
  }

  /** The steps of a tick: each visit followed by the calls of the callback it triggers. */
  ghost function TickSteps(s: Slots, n: nat, client: Client): seq<Step>
    requires n <= |s|
  {
    if n == 0 then []
    else
      var slot := TickUpTo(s, n - 1, client).slots[n - 1];
      TickSteps(s, n - 1, client) + [Visit(n - 1)]
      + (if Expires(slot) && slot.callback != Null then Calls(ScriptOf(client, n - 1)) else [])
  }

  lemma {:induction false} TickIsRun(h: History, n: nat, client: Client)
    requires |h.deletes| == |h.slots| && n <= |h.slots|
    ensures Replay(h, TickSteps(h.slots, n, client)).slots == TickUpTo(h.slots, n, client).slots
    decreases n
  {
    hide Replay, Perform, Elapse, Expires, ScriptOf, Calls, Advance;
    if n == 0 {
      assert Replay(h, []).slots == h.slots by {
        ReplayNothing(h);
      }
    } else {
      TickIsRun(h, n - 1, client);
      var before := TickSteps(h.slots, n - 1, client);
      var t := TickUpTo(h.slots, n - 1, client).slots;
      var slot := t[n - 1];
      var calls := if Expires(slot) && slot.callback != Null then Calls(ScriptOf(client, n - 1)) else [];
      ReplayVisit(h, before, n - 1);
      ReplayAppend(h, before + [Visit(n - 1)], calls);
      ReplayNothing(Replay(h, before + [Visit(n - 1)]));
      ReplayCalls(Replay(h, before + [Visit(n - 1)]), ScriptOf(client, n - 1));
    }
  }

  lemma ReplayNothing(h: History)
    requires |h.deletes| == |h.slots|
    ensures Replay(h, []) == h
  {
  }

  lemma ReplayVisit(h: History, before: seq<Step>, i: nat)
    requires |h.deletes| == |h.slots| && i < |h.slots|
    ensures var s := Replay(h, before).slots;
      Replay(h, before + [Visit(i)]).slots == s[i := Elapse(s[i])]
  {
    assert (before + [Visit(i)])[..|before|] == before;
  }
}

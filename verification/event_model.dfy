/**
 kernel/event/event.c as a machine of atomic steps: triggers from any task or interrupt, and the
 steps of the dispatcher task, in every interleaving.

 `AsWritten` keeps the local `entry` across iterations of the dispatcher loop, as the source does;
 `EntryCleared` is the intended loop, which sets it to NULL at the start of each iteration.

 Events are values here. event_memory.dfy puts their entries into heap blocks and says when a run of the
 code is a run of this machine.
 */
module EventModel {
  import opened Words

  const EVENT_COUNT: nat := 3
  const MAX_HANDLERS: nat := 8

  datatype Variant = AsWritten | EntryCleared

  /** A handler function (0 is NULL) with the context it was registered with. */
  datatype Handler = Handler(fn: nat, ctx: int)

  /** A queued event; `serial` is its place among the accepted ones. */
  datatype Event = Event(serial: nat, kind: nat, data: int)

  /** `Waiting` is the top of the loop; `Calling(i)` stands before the test of the handler loop. */
  datatype Phase = Waiting | Calling(i: nat)

  datatype Sys = Sys(
    queue: seq<Event>,
    entry: Option<Event>,
    phase: Phase,
    table: seq<seq<Handler>>,
    accepted: seq<Event>,
    taken: seq<Event>,
    dispatched: seq<Event>,
    freed: seq<Event>,
    calls: seq<(Handler, Event)>)

  datatype Op =
    | Trigger(kind: nat, data: int, granted: bool)
    | Extract
    | Call
    | Register(kind: nat, handler: Handler)
    | Unregister(kind: nat, handler: Handler)

  ghost predicate Enabled(s: Sys, op: Op) {
    match op
    case Extract => s.phase.Waiting?
    case Call => s.phase.Calling?
    case _ => true
  }

  /** `event_trigger`; `granted` says whether the heap had room for the entry. */
  function AfterTrigger(s: Sys, kind: nat, data: int, granted: bool): Sys {
    if kind >= EVENT_COUNT || !granted then s
    else
      var e := Event(|s.accepted|, kind, data);
      s.(queue := s.queue + [e], accepted := s.accepted + [e])
  }

  /** One pass through the critical section, and the test of `entry` after it. */
  function AfterExtract(v: Variant, s: Sys): Sys {
    var kept := if v.EntryCleared? then None else s.entry;
    if |s.queue| > 0 then
      var e := s.queue[0];
      s.(queue := s.queue[1..], taken := s.taken + [e], entry := Some(e),
         phase := Calling(0), dispatched := s.dispatched + [e])
    else if kept.Some? then
      s.(entry := kept, phase := Calling(0), dispatched := s.dispatched + [kept.value])
    else
      s.(entry := None)
  }

  /** One pass of the handler loop, or, past the last handler, the return of the entry to the heap. */
  function AfterCall(s: Sys): Sys
    requires s.phase.Calling? && s.entry.Some? && s.entry.value.kind < |s.table|
  {
    var e := s.entry.value;
    var row := s.table[e.kind];
    if s.phase.i < |row| then s.(calls := s.calls + [(row[s.phase.i], e)], phase := Calling(s.phase.i + 1))
    else s.(freed := s.freed + [e], phase := Waiting)
  }

  /** `event_register`. */
  function Registered(table: seq<seq<Handler>>, kind: nat, h: Handler): (seq<seq<Handler>>, int)
    requires |table| == EVENT_COUNT
  {
    if kind >= EVENT_COUNT || h.fn == 0 || |table[kind]| >= MAX_HANDLERS then (table, -1)
    else (table[kind := table[kind] + [h]], 0)
  }

  /** `event_unregister`: the first match is taken out and the later ones move up. */
  function Unregistered(table: seq<seq<Handler>>, kind: nat, h: Handler): (seq<seq<Handler>>, int)
    requires |table| == EVENT_COUNT
  {
    if kind >= EVENT_COUNT then (table, -1)
    else
      var i := IndexOf(table[kind], h, 0);
      if i == |table[kind]| then (table, -1) else (table[kind := Without(table[kind], i)], 0)
  }

  ghost predicate WellFormed(s: Sys) {
    && |s.table| == EVENT_COUNT
    && (forall k :: 0 <= k < EVENT_COUNT ==> |s.table[k]| <= MAX_HANDLERS)
    && (forall e <- s.queue :: e.kind < EVENT_COUNT)
    && (s.entry.Some? ==> s.entry.value.kind < EVENT_COUNT)
    && (s.phase.Calling? ==> s.entry.Some?)
  }

  ghost function Step(v: Variant, s: Sys, op: Op): Sys
    requires WellFormed(s) && Enabled(s, op)
  {
    match op
    case Trigger(kind, data, granted) => AfterTrigger(s, kind, data, granted)
    case Extract => AfterExtract(v, s)
    case Call => AfterCall(s)
    case Register(kind, h) => s.(table := Registered(s.table, kind, h).0)
    case Unregister(kind, h) => s.(table := Unregistered(s.table, kind, h).0)
  }

  ghost predicate IsRun(v: Variant, states: seq<Sys>, ops: seq<Op>) {
    && |states| == |ops| + 1
    && forall i {:trigger ops[i]} :: 0 <= i < |ops| ==>
      WellFormed(states[i]) && Enabled(states[i], ops[i]) && states[i + 1] == Step(v, states[i], ops[i])
  }

  function Initial(table: seq<seq<Handler>>): Sys {
    Sys([], None, Waiting, table, [], [], [], [], [])
  }

  lemma StepWellFormed(v: Variant, s: Sys, op: Op)
    requires WellFormed(s) && Enabled(s, op)
    ensures WellFormed(Step(v, s, op))
  {
    if op.Extract? && |s.queue| > 0 {
      assert s.queue[0] in s.queue;
    }
  }

  // ----- the queue is first in, first out -----

  ghost predicate Fifo(s: Sys) {
    && s.taken + s.queue == s.accepted
    && (forall i :: 0 <= i < |s.accepted| ==> s.accepted[i].serial == i)
  }

  lemma StepFifo(v: Variant, s: Sys, op: Op)
    requires WellFormed(s) && Enabled(s, op) && Fifo(s)
    ensures Fifo(Step(v, s, op))
  {
    match op
    case Trigger(kind, data, granted) =>
      if kind < EVENT_COUNT && granted {
        var e := Event(|s.accepted|, kind, data);
        assert s.taken + (s.queue + [e]) == (s.taken + s.queue) + [e];
      }
    case Extract =>
      if |s.queue| > 0 {
        assert s.taken + [s.queue[0]] + s.queue[1..] == s.taken + s.queue;
      }
    case _ =>
  }

  /** Every interleaving: taken events followed by queued ones are the accepted ones in order. */
  lemma {:induction false} RunFifo(v: Variant, states: seq<Sys>, ops: seq<Op>, n: nat)
    requires IsRun(v, states, ops) && Fifo(states[0]) && n <= |ops|
    ensures Fifo(states[n])
  {
    if n > 0 {
      RunFifo(v, states, ops, n - 1);
      assert states[n - 1 + 1] == Step(v, states[n - 1], ops[n - 1]);
      StepFifo(v, states[n - 1], ops[n - 1]);
    }
  }

  // ----- what is dispatched and freed -----

  /** The dispatcher finds the queue empty while `entry` still names the last event. */
  ghost predicate Repeats(v: Variant, s: Sys, op: Op) {
    op.Extract? && |s.queue| == 0 && v.AsWritten? && s.entry.Some?
  }

  ghost function RepeatCount(v: Variant, states: seq<Sys>, ops: seq<Op>, n: nat): nat
    requires n <= |ops| && n <= |states|
  {
    if n == 0 then 0
    else RepeatCount(v, states, ops, n - 1) + if Repeats(v, states[n - 1], ops[n - 1]) then 1 else 0
  }

  /** Freed events are the dispatched ones, short of the one being dispatched. */
  ghost predicate FreesFollow(s: Sys) {
    match s.phase
    case Waiting => s.freed == s.dispatched
    case Calling(_) => s.entry.Some? && s.dispatched == s.freed + [s.entry.value]
  }

  lemma {:induction false} RunFreesFollow(v: Variant, states: seq<Sys>, ops: seq<Op>, n: nat)
    requires IsRun(v, states, ops) && FreesFollow(states[0]) && n <= |ops|
    ensures FreesFollow(states[n])
  {
    if n > 0 {
      RunFreesFollow(v, states, ops, n - 1);
      assert states[n - 1 + 1] == Step(v, states[n - 1], ops[n - 1]);
    }
  }

  /** As many events are dispatched as were taken, plus one for every repeat. */
  lemma {:induction false} DispatchedCount(v: Variant, states: seq<Sys>, ops: seq<Op>, n: nat)
    requires IsRun(v, states, ops) && |states[0].dispatched| == |states[0].taken| && n <= |ops|
    ensures |states[n].dispatched| == |states[n].taken| + RepeatCount(v, states, ops, n)
  {
    if n > 0 {
      DispatchedCount(v, states, ops, n - 1);
      assert states[n - 1 + 1] == Step(v, states[n - 1], ops[n - 1]);
    }
  }

  lemma {:induction false} NoRepeatsSoFar(v: Variant, states: seq<Sys>, ops: seq<Op>, n: nat)
    requires IsRun(v, states, ops) && states[0].dispatched == states[0].taken && n <= |ops|
    requires RepeatCount(v, states, ops, n) == 0
    ensures states[n].dispatched == states[n].taken
  {
    if n > 0 {
      NoRepeatsSoFar(v, states, ops, n - 1);
      assert states[n - 1 + 1] == Step(v, states[n - 1], ops[n - 1]);
    }
  }

  /** Each taken event is dispatched once, in order, exactly when no iteration met an empty queue with a stale entry. */
  lemma DispatchedOnceIff(v: Variant, states: seq<Sys>, ops: seq<Op>)
    requires IsRun(v, states, ops) && states[0].dispatched == states[0].taken
    ensures states[|ops|].dispatched == states[|ops|].taken <==>
      forall i :: 0 <= i < |ops| ==> !Repeats(v, states[i], ops[i])
  {
    DispatchedCount(v, states, ops, |ops|);
    RepeatsCounted(v, states, ops, |ops|);
    if RepeatCount(v, states, ops, |ops|) == 0 {
      NoRepeatsSoFar(v, states, ops, |ops|);
    }
  }

  lemma {:induction false} RepeatsCounted(v: Variant, states: seq<Sys>, ops: seq<Op>, n: nat)
    requires n <= |ops| && n <= |states|
    ensures RepeatCount(v, states, ops, n) == 0 <==> forall i :: 0 <= i < n ==> !Repeats(v, states[i], ops[i])
  {
    if n > 0 {
      RepeatsCounted(v, states, ops, n - 1);
    }
  }

  /** With the entry cleared: every interleaving dispatches the accepted events in order, and frees each at most once. */
  lemma ClearedDispatchesInOrder(states: seq<Sys>, ops: seq<Op>, table: seq<seq<Handler>>)
    requires IsRun(EntryCleared, states, ops) && states[0] == Initial(table)
    ensures var s := states[|ops|];
      && s.dispatched == s.taken <= s.accepted
      && s.freed <= s.dispatched && |s.dispatched| <= |s.freed| + 1
      && (forall i, j :: 0 <= i < j < |s.freed| ==> s.freed[i] != s.freed[j])
  {
    var s := states[|ops|];
    RunFifo(EntryCleared, states, ops, |ops|);
    RunFreesFollow(EntryCleared, states, ops, |ops|);
    DispatchedOnceIff(EntryCleared, states, ops);
    forall i, j | 0 <= i < j < |s.freed| ensures s.freed[i] != s.freed[j] {
      assert s.freed[i] == s.accepted[i] && s.freed[j] == s.accepted[j];
    }
  }

  /** The dispatcher left to itself until it is back at the top of its loop. */
  ghost function Finish(s: Sys): Sys
    requires s.phase.Calling? && s.entry.Some? && s.entry.value.kind < |s.table|
    decreases |s.table[s.entry.value.kind]| - s.phase.i
  {
    if s.phase.i < |s.table[s.entry.value.kind]| then Finish(AfterCall(s)) else AfterCall(s)
  }

  lemma {:induction false} FinishFreesEntry(s: Sys)
    requires s.phase.Calling? && s.entry.Some? && s.entry.value.kind < |s.table|
    ensures var t := Finish(s);
      t.freed == s.freed + [s.entry.value] && t.entry == s.entry && t.phase.Waiting? && t.queue == s.queue
    decreases |s.table[s.entry.value.kind]| - s.phase.i
  {
    if s.phase.i < |s.table[s.entry.value.kind]| {
      FinishFreesEntry(AfterCall(s));
    }
  }

  /**
   As written, when the queue has drained after an event, the next iteration dispatches that same,
   already freed event again, frees it again, and leaves the dispatcher where it would do so once more.
   */
  lemma DrainedQueueRepeats(s: Sys)
    requires WellFormed(s) && s.phase.Calling? && s.queue == []
    ensures var drained := Finish(s);
            var extracted := AfterExtract(AsWritten, drained);
      && extracted.phase == Calling(0) && extracted.entry == s.entry && WellFormed(extracted)
      && var again := Finish(extracted);
         && again.freed == s.freed + [s.entry.value] + [s.entry.value]
         && again.entry == s.entry && again.phase.Waiting? && again.queue == []
  {
    FinishFreesEntry(s);
    FinishKeepsTable(s);
    FinishFreesEntry(AfterExtract(AsWritten, Finish(s)));
  }

  lemma {:induction false} FinishKeepsTable(s: Sys)
    requires s.phase.Calling? && s.entry.Some? && s.entry.value.kind < |s.table|
    ensures Finish(s).table == s.table
    decreases |s.table[s.entry.value.kind]| - s.phase.i
  {
    if s.phase.i < |s.table[s.entry.value.kind]| {
      FinishKeepsTable(AfterCall(s));
    }
  }

  // ----- the handlers called -----

  ghost function CallsFor(row: seq<Handler>, e: Event, n: nat): seq<(Handler, Event)>
    requires n <= |row|
  {
    seq(n, i requires 0 <= i < n => (row[i], e))
  }

  ghost function AllCalls(table: seq<seq<Handler>>, events: seq<Event>): seq<(Handler, Event)>
    requires forall e <- events :: e.kind < |table|
  {
    if |events| == 0 then []
    else
      var e := events[|events| - 1];
      AllCalls(table, events[..|events| - 1]) + CallsFor(table[e.kind], e, |table[e.kind]|)
  }

  ghost predicate CallsFollow(s: Sys) {
    && WellFormed(s) && (forall e <- s.freed :: e.kind < EVENT_COUNT)
    && match s.phase
       case Waiting => s.calls == AllCalls(s.table, s.freed)
       case Calling(i) =>
         var row := s.table[s.entry.value.kind];
         i <= |row| && s.calls == AllCalls(s.table, s.freed) + CallsFor(row, s.entry.value, i)
  }

  lemma CallKeepsCalls(s: Sys)
    requires CallsFollow(s) && s.phase.Calling?
    ensures CallsFollow(AfterCall(s))
  {
    var e, i := s.entry.value, s.phase.i;
    var row := s.table[e.kind];
    if i < |row| {
      assert CallsFor(row, e, i + 1) == CallsFor(row, e, i) + [(row[i], e)];
    } else {
      assert (s.freed + [e])[..|s.freed|] == s.freed;
    }
  }

  /**
   While the handler table stays as it is, every dispatched event has been given to each registered
   handler of its kind once, in order of registration.
   */
  lemma {:induction false} RunCalls(v: Variant, states: seq<Sys>, ops: seq<Op>, n: nat)
    requires IsRun(v, states, ops) && CallsFollow(states[0]) && n <= |ops|
    requires forall i :: 0 <= i < n ==> !ops[i].Register? && !ops[i].Unregister?
    ensures CallsFollow(states[n])
  {
    if n > 0 {
      RunCalls(v, states, ops, n - 1);
      var s, op := states[n - 1], ops[n - 1];
      assert states[n - 1 + 1] == Step(v, s, op);
      StepWellFormed(v, s, op);
      if op.Call? {
        CallKeepsCalls(s);
      }
    }
  }

  // ----- the handler table -----

  lemma IndexOfAppended(row: seq<Handler>, h: Handler)
    requires h !in row
    ensures IndexOf(row + [h], h, 0) == |row|
  {
    assert (row + [h])[|row|] == h;
    assert forall k :: 0 <= k < |row| ==> (row + [h])[k] == row[k];
  }

  /** Unregistering a handler that was not there before undoes its registration. */
  lemma UnregisterUndoesRegister(table: seq<seq<Handler>>, kind: nat, h: Handler)
    requires |table| == EVENT_COUNT && Registered(table, kind, h).1 == 0 && h !in table[kind]
    ensures Unregistered(Registered(table, kind, h).0, kind, h) == (table, 0)
  {
    IndexOfAppended(table[kind], h);
    assert Without(table[kind] + [h], |table[kind]|) == table[kind];
    assert table[kind := table[kind] + [h]][kind := table[kind]] == table;
  }

  /** It removes one occurrence and keeps the order of the rest. */
  lemma UnregisterRemovesOne(table: seq<seq<Handler>>, kind: nat, h: Handler)
    requires |table| == EVENT_COUNT && kind < EVENT_COUNT
    ensures var (t, code) := Unregistered(table, kind, h);
      && (code == 0 <==> h in table[kind])
      && |t| == |table| && (forall k :: 0 <= k < |t| && k != kind ==> t[k] == table[k])
      && multiset(t[kind]) == multiset(table[kind]) - multiset{h}
  {
    var row := table[kind];
    var i := IndexOf(row, h, 0);
    if i < |row| {
      assert row == row[..i] + [h] + row[i + 1..];
      assert Without(row, i) == row[..i] + row[i + 1..];
    }
  }

  /**
   The place given up is the first one holding `h`: handlers before it stay where they are, those behind it move up by
   one in order, and no other row changes.
   */
  lemma UnregisterMovesUp(table: seq<seq<Handler>>, kind: nat, h: Handler, i: nat)
    requires |table| == EVENT_COUNT && kind < EVENT_COUNT
    requires i < |table[kind]| && table[kind][i] == h && forall k :: 0 <= k < i ==> table[kind][k] != h
    ensures var (t, code) := Unregistered(table, kind, h);
      && code == 0 && |t| == |table| && |t[kind]| == |table[kind]| - 1
      && (forall k :: 0 <= k < i ==> t[kind][k] == table[kind][k])
      && (forall k :: i <= k < |t[kind]| ==> t[kind][k] == table[kind][k + 1])
      && (forall k :: 0 <= k < |t| && k != kind ==> t[k] == table[k])
  {
    assert IndexOf(table[kind], h, 0) == i;
  }

  /**
   A registration is taken exactly for a known kind, a handler that is not NULL, and a row with room; it then stands
   last.
   */
  lemma RegisterAppends(table: seq<seq<Handler>>, kind: nat, h: Handler)
    requires |table| == EVENT_COUNT
    ensures var (t, code) := Registered(table, kind, h);
      && (code == 0 <==> kind < EVENT_COUNT && h.fn != 0 && |table[kind]| < 8)
      && (code == 0 || (code == -1 && t == table)) && |t| == |table|
      && (forall k :: 0 <= k < |t| && (k != kind || code == -1) ==> t[k] == table[k])
      && (code == 0 ==> t[kind][..|table[kind]|] == table[kind] && t[kind][|table[kind]|..] == [h])
  {
  }

  /** Unregistering fails exactly for an unknown kind or a handler that is not there, and then changes nothing. */
  lemma UnregisterFailsIff(table: seq<seq<Handler>>, kind: nat, h: Handler)
    requires |table| == EVENT_COUNT
    ensures var (t, code) := Unregistered(table, kind, h);
      && (code == 0 || (code == -1 && t == table))
      && (code == 0 <==> kind < EVENT_COUNT && h in table[kind])
  {
  }
}

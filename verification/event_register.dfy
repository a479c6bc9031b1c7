/**
 `event_register` in its two steps: the test of the capacity, with interrupts on, and the critical section that
 stores the handler. The rows lie behind each other in one array, so a ninth handler falls into the next row.
 */
module EventRegister {
  import opened Words
  import M = EventModel

  const SLOTS: nat := M.EVENT_COUNT * M.MAX_HANDLERS

  /** `waiting[k]` registrations for kind `k` have passed the test and not stored their handler yet. */
  datatype Sys = Sys(slots: seq<M.Handler>, count: seq<nat>, waiting: seq<nat>)

  datatype Op =
    | Test(kind: nat, handler: M.Handler)
    | Store(kind: nat, handler: M.Handler)
    | Remove(kind: nat, handler: M.Handler)

  ghost predicate WellFormed(s: Sys) {
    |s.slots| == SLOTS && |s.count| == |s.waiting| == M.EVENT_COUNT
  }

  ghost predicate Enabled(s: Sys, op: Op)
    requires WellFormed(s)
  {
    op.Store? ==> op.kind < M.EVENT_COUNT && s.waiting[op.kind] > 0
  }

  /** What stands in the row of a kind, as far as it reaches. */
  function Row(s: Sys, kind: nat): (r: seq<M.Handler>)
    requires |s.slots| == SLOTS && kind < |s.count| == M.EVENT_COUNT && s.count[kind] <= M.MAX_HANDLERS
    ensures |r| == s.count[kind]
  {
    s.slots[kind * M.MAX_HANDLERS..kind * M.MAX_HANDLERS + s.count[kind]]
  }

  predicate Passes(s: Sys, kind: nat, h: M.Handler)
    requires |s.count| == M.EVENT_COUNT
  {
    kind < M.EVENT_COUNT && h.fn != 0 && s.count[kind] < M.MAX_HANDLERS
  }

  /** A removal moves the rest of its row down; it finds nothing where its row has run over. */
  ghost function Step(s: Sys, op: Op): Sys
    requires WellFormed(s) && Enabled(s, op)
  {
    var k := op.kind;
    match op
    case Test(_, h) => if Passes(s, k, h) then s.(waiting := s.waiting[k := s.waiting[k] + 1]) else s
    case Store(_, h) =>
      var at := k * M.MAX_HANDLERS + s.count[k];
      Sys(if at < SLOTS then s.slots[at := h] else s.slots, s.count[k := s.count[k] + 1], s.waiting[k := s.waiting[k] - 1])
    case Remove(_, h) =>
      if k < M.EVENT_COUNT && s.count[k] <= M.MAX_HANDLERS && h in Row(s, k) then
        var row := Without(Row(s, k), IndexOf(Row(s, k), h, 0));
        s.(slots := s.slots[..k * M.MAX_HANDLERS] + row + s.slots[k * M.MAX_HANDLERS + |row|..],
           count := s.count[k := |row|])
      else s
  }

  /** There is room in its row for every registration that has passed the test. */
  ghost predicate Reserved(s: Sys) {
    WellFormed(s) && forall k :: 0 <= k < M.EVENT_COUNT ==> s.count[k] + s.waiting[k] <= M.MAX_HANDLERS
  }

  /** The test passes although the waiting registrations will fill the row. */
  ghost predicate Overbooks(s: Sys, op: Op)
    requires WellFormed(s)
  {
    op.Test? && Passes(s, op.kind, op.handler) && s.count[op.kind] + s.waiting[op.kind] >= M.MAX_HANDLERS
  }

  /** A step keeps room for all who wait exactly when it is not a test that passes beyond it. */
  lemma StepReservedIff(s: Sys, op: Op)
    requires Reserved(s) && Enabled(s, op)
    ensures Reserved(Step(s, op)) <==> !Overbooks(s, op)
  {
    var t := Step(s, op);
    if op.Test? && Passes(s, op.kind, op.handler) {
      assert t.count[op.kind] + t.waiting[op.kind] == s.count[op.kind] + s.waiting[op.kind] + 1;
    }
  }

  /** With room for all who wait, a store appends to its own row and leaves the others as they are. */
  lemma StoreAppends(s: Sys, kind: nat, h: M.Handler)
    requires Reserved(s) && Enabled(s, Store(kind, h))
    ensures var t := Step(s, Store(kind, h));
      && Reserved(t) && Row(t, kind) == Row(s, kind) + [h]
      && forall k :: 0 <= k < M.EVENT_COUNT && k != kind ==> Row(t, k) == Row(s, k)
  {
    StepReservedIff(s, Store(kind, h));
  }

  ghost function Rows(s: Sys): seq<seq<M.Handler>>
    requires Reserved(s)
  {
    seq(M.EVENT_COUNT, k requires 0 <= k < M.EVENT_COUNT => Row(s, k))
  }

  /** Test and store with nothing in between, and nobody waiting, are the registration of event_model.dfy. */
  lemma UninterruptedIsRegistered(s: Sys, kind: nat, h: M.Handler)
    requires Reserved(s) && kind < M.EVENT_COUNT && s.waiting[kind] == 0
    ensures Passes(s, kind, h) <==> M.Registered(Rows(s), kind, h).1 == 0
    ensures Passes(s, kind, h) ==>
      var t := Step(Step(s, Test(kind, h)), Store(kind, h));
      Reserved(t) && Rows(t) == M.Registered(Rows(s), kind, h).0
  {
    if Passes(s, kind, h) {
      var one := Step(s, Test(kind, h));
      StepReservedIff(s, Test(kind, h));
      StoreAppends(one, kind, h);
      assert forall k :: 0 <= k < M.EVENT_COUNT ==> Row(one, k) == Row(s, k);
    }
  }

  ghost predicate IsRun(states: seq<Sys>, ops: seq<Op>) {
    && |states| == |ops| + 1
    && forall i {:trigger ops[i]} :: 0 <= i < |ops| ==>
      WellFormed(states[i]) && Enabled(states[i], ops[i]) && states[i + 1] == Step(states[i], ops[i])
  }

  lemma {:induction false} BookedRunReserved(states: seq<Sys>, ops: seq<Op>, n: nat)
    requires IsRun(states, ops) && Reserved(states[0]) && n <= |ops|
    requires forall i {:trigger ops[i]} :: 0 <= i < n ==> !Overbooks(states[i], ops[i])
    ensures Reserved(states[n])
  {
    if n > 0 {
      BookedRunReserved(states, ops, n - 1);
      hide Reserved, Step, Overbooks;
      assert states[n - 1 + 1] == Step(states[n - 1], ops[n - 1]);
      StepReservedIff(states[n - 1], ops[n - 1]);
    }
  }

  /** Over every interleaving: no registration can run out of its row exactly when no test passes beyond the room. */
  lemma RunReservedIff(states: seq<Sys>, ops: seq<Op>)
    requires IsRun(states, ops) && Reserved(states[0])
    ensures (forall i :: 0 <= i <= |ops| ==> Reserved(states[i])) <==>
      (forall i {:trigger ops[i]} :: 0 <= i < |ops| ==> !Overbooks(states[i], ops[i]))
  {
    hide Reserved, Step;
    if i {:trigger ops[i]} :| 0 <= i < |ops| && Overbooks(states[i], ops[i]) {
      if Reserved(states[i]) {
        StepReservedIff(states[i], ops[i]);
        assert !Reserved(states[i + 1]);
      }
    } else {
      forall i | 0 <= i <= |ops| ensures Reserved(states[i]) {
        BookedRunReserved(states, ops, i);
      }
    }
  }

  /** All who wait for this kind store their handlers, and nothing else happens. */
  ghost function StoreAll(s: Sys, kind: nat, handlers: seq<M.Handler>): (t: Sys)
    requires WellFormed(s) && kind < M.EVENT_COUNT && |handlers| == s.waiting[kind]
    ensures WellFormed(t) && t.count == s.count[kind := s.count[kind] + |handlers|] && t.waiting == s.waiting[kind := 0]
    decreases |handlers|
  {
    if |handlers| == 0 then s
    else
      var next := Step(s, Store(kind, handlers[0]));
      assert next.count[kind] + |handlers[1..]| == s.count[kind] + |handlers|;
      StoreAll(next, kind, handlers[1..])
  }

  /** Who waits can be stored inside the row, whatever the handlers, exactly when there is room for all of them. */
  lemma StoreAllFitsIff(s: Sys, kind: nat, handlers: seq<M.Handler>)
    requires WellFormed(s) && kind < M.EVENT_COUNT && |handlers| == s.waiting[kind]
    ensures StoreAll(s, kind, handlers).count[kind] <= M.MAX_HANDLERS <==>
      s.count[kind] + s.waiting[kind] <= M.MAX_HANDLERS
  {
  }

  /** Two registrations for kind 0 both see seven handlers: the second one's replaces the first handler of kind 1. */
  lemma NinthHandlerFallsIntoNextRow(s: Sys, h: M.Handler, g: M.Handler)
    requires WellFormed(s) && s.count[0] == 7 && s.waiting[0] == 0 && s.count[1] > 0 && h.fn != 0 && g.fn != 0
    ensures var one := Step(s, Test(0, h));
            var two := Step(one, Test(0, g));
            var three := Step(two, Store(0, h));
            var four := Step(three, Store(0, g));
      && Passes(s, 0, h) && Passes(one, 0, g) && Enabled(two, Store(0, h)) && Enabled(three, Store(0, g))
      && four.count[0] == 9 && four.slots[M.MAX_HANDLERS] == g && four.count[1] == s.count[1]
  {
  }
}

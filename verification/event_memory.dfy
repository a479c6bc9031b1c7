/**
 The event queue of kernel/event/event.c in memory: entries are heap blocks with addresses, and a block that
 has been returned is handed out again, to later entries or to other users of the heap.

 Memory is counted in allocation units; an entry with its block header takes two of them, and address 0 is
 NULL. `Sound` says that the queue is a finite list of live entries and that the entry the dispatcher still uses
 is its own. A step keeps it exactly when it does not hand out memory of that entry; as long as it is kept the
 machine behaves as the one of event_model.dfy, whose laws carry over.
 */
module EventMemory {
  import opened Words
  import M = EventModel

  /** The fields of an `event_entry_t`. */
  datatype Cell = Cell(event: M.Event, next: nat)

  /** A trigger between its heap request and the critical section that links its entry. */
  datatype Pending = Pending(kind: nat, data: int, filled: bool)

  /**
   `cells` are the entries in memory that nothing has been written over, `live` the units the heap has given
   out, `others` those of them that belong to other users, `pending` the blocks of the triggers under way. `queued`
   (the addresses linked and not yet taken) and `current` (the event last taken) only record history.
   */
  datatype Sys = Sys(
    cells: map<nat, Cell>, live: set<nat>, others: set<nat>, pending: map<nat, Pending>,
    head: nat, tail: nat, entry: nat, phase: M.Phase, table: seq<seq<M.Handler>>,
    queued: seq<nat>, current: Option<M.Event>,
    accepted: seq<M.Event>, taken: seq<M.Event>, dispatched: seq<M.Event>, freed: seq<M.Event>,
    calls: seq<(M.Handler, M.Event)>)

  /**
   The three steps of `event_trigger` (the heap request with the block that `mem_alloc` found, the filling in of
   the entry, the critical section that links it), of any number of tasks at once; the dispatcher's steps; the
   handler table's; and other users' requests and returns.
   */
  datatype Op =
    | Request(kind: nat, data: int, block: Option<nat>)
    | Fill(address: nat)
    | Link(address: nat)
    | Extract
    | Call
    | Register(kind: nat, handler: M.Handler)
    | Unregister(kind: nat, handler: M.Handler)
    | Lend(region: set<nat>)
    | GiveBack(region: set<nat>)

  function Units(a: nat): set<nat> { {a, a + 1} }

  predicate Apart(a: nat, b: nat) { a + 2 <= b || b + 2 <= a }

  /** The heap hands out no unit that is live. */
  ghost predicate Enabled(s: Sys, op: Op) {
    match op
    case Request(_, _, block) => block.Some? ==> block.value != 0 && Units(block.value) !! s.live
    case Fill(a) => a in s.pending && !s.pending[a].filled
    case Link(a) => a in s.pending && s.pending[a].filled
    case Extract => s.phase.Waiting?
    case Call => s.phase.Calling?
    case Lend(region) => region !! s.live
    case GiveBack(region) => region <= s.others
    case _ => true
  }

  function At(s: Sys, a: nat): Cell {
    if a in s.cells then s.cells[a] else Cell(M.Event(0, 0, 0), 0)
  }

  /** The entries that a write to `region` leaves as they are. */
  function Spared(cells: map<nat, Cell>, region: set<nat>): map<nat, Cell> {
    map a | a in cells && Units(a) !! region :: cells[a]
  }

  /** The entries that a block at `a` does not reach into, and one at `a` itself, whose header alone is written. */
  function Beside(cells: map<nat, Cell>, a: nat): map<nat, Cell> {
    map x | x in cells && (x == a || Apart(x, a)) :: cells[x]
  }

  /** A bad kind or a refused request ends the trigger. */
  function AfterRequest(s: Sys, kind: nat, data: int, block: Option<nat>): Sys {
    if kind >= M.EVENT_COUNT || block.None? then s
    else
      var a := block.value;
      s.(cells := Beside(s.cells, a), live := s.live + Units(a), pending := s.pending[a := Pending(kind, data, false)])
  }

  /** The entry gets its number when it is linked. */
  function AfterFill(s: Sys, a: nat): Sys
    requires a in s.pending
  {
    var p := s.pending[a];
    s.(cells := Beside(s.cells, a)[a := Cell(M.Event(0, p.kind, p.data), 0)], pending := s.pending[a := p.(filled := true)])
  }

  /** The critical section of `event_trigger`. */
  function AfterLink(s: Sys, a: nat): Sys {
    var e := At(s, a).event.(serial := |s.accepted|);
    var numbered := s.cells[a := At(s, a).(event := e)];
    s.(cells := if s.tail in numbered then numbered[s.tail := numbered[s.tail].(next := a)] else numbered,
       head := if s.tail != 0 then s.head else a, tail := a,
       pending := s.pending - {a}, queued := s.queued + [a], accepted := s.accepted + [e])
  }

  function AfterExtract(v: M.Variant, s: Sys): Sys {
    var kept := if v.EntryCleared? then 0 else s.entry;
    if s.head != 0 then
      var next := At(s, s.head).next;
      var e := At(s, s.head).event;
      s.(entry := s.head, head := next, tail := if next == 0 then 0 else s.tail,
         queued := if |s.queued| > 0 then s.queued[1..] else [], current := Some(e), taken := s.taken + [e],
         phase := M.Calling(0), dispatched := s.dispatched + [e])
    else if kept != 0 then
      s.(entry := kept, phase := M.Calling(0), dispatched := s.dispatched + [At(s, kept).event])
    else s.(entry := 0)
  }

  /** The handler loop reads the entry's kind each time; after the last handler its block is returned. */
  function AfterCall(s: Sys): Sys
    requires s.phase.Calling?
  {
    var e := At(s, s.entry).event;
    var row := if e.kind < |s.table| then s.table[e.kind] else [];
    if s.phase.i < |row| then s.(calls := s.calls + [(row[s.phase.i], e)], phase := M.Calling(s.phase.i + 1))
    else s.(live := s.live - Units(s.entry), freed := s.freed + [e], phase := M.Waiting)
  }

  ghost function Step(v: M.Variant, s: Sys, op: Op): Sys
    requires Enabled(s, op) && |s.table| == M.EVENT_COUNT
  {
    match op
    case Request(kind, data, block) => AfterRequest(s, kind, data, block)
    case Fill(a) => AfterFill(s, a)
    case Link(a) => AfterLink(s, a)
    case Extract => AfterExtract(v, s)
    case Call => AfterCall(s)
    case Register(kind, h) => s.(table := M.Registered(s.table, kind, h).0)
    case Unregister(kind, h) => s.(table := M.Unregistered(s.table, kind, h).0)
    case Lend(r) => s.(cells := Spared(s.cells, r), live := s.live + r, others := s.others + r)
    case GiveBack(r) => s.(live := s.live - r, others := s.others - r)
  }

  // ----- the invariant -----

  function LinkAt(queued: seq<nat>, i: nat): nat {
    if i < |queued| then queued[i] else 0
  }

  /** From head to tail the links visit the queued entries, each once, and end. */
  ghost predicate Linked(s: Sys) {
    && (forall i, j :: 0 <= i < j < |s.queued| ==> Apart(s.queued[i], s.queued[j]))
    && s.head == LinkAt(s.queued, 0)
    && s.tail == (if |s.queued| == 0 then 0 else s.queued[|s.queued| - 1])
    && (forall q <- s.queued :: q != 0 && q in s.cells)
    && (forall i {:trigger s.cells[s.queued[i]]} :: 0 <= i < |s.queued| ==>
          s.cells[s.queued[i]].next == LinkAt(s.queued, i + 1))
  }

  /** The dispatcher may still read the entry and free it: in a dispatch, or as the stale entry of an empty queue. */
  ghost predicate InUse(v: M.Variant, s: Sys) {
    s.entry != 0 && (s.phase.Calling? || (v.AsWritten? && |s.queued| == 0))
  }

  ghost predicate QueuedOwn(s: Sys) {
    forall q <- s.queued :: Units(q) <= s.live && Units(q) !! s.others
  }

  ghost predicate PendingAt(s: Sys, a: nat)
    requires a in s.pending
  {
    var p := s.pending[a];
    && a != 0 && p.kind < M.EVENT_COUNT && Units(a) <= s.live && Units(a) !! s.others
    && (p.filled ==>
          && a in s.cells && s.cells[a].event.kind == p.kind && s.cells[a].event.data == p.data && s.cells[a].next == 0)
  }

  /** The pending blocks are live, apart from each other and from the queued ones, and hold what was filled in. */
  ghost predicate PendingOwn(s: Sys) {
    && (forall a <- s.pending :: PendingAt(s, a))
    && (forall a, b :: a in s.pending && b in s.pending && a != b ==> Apart(a, b))
    && (forall a, q :: a in s.pending && q in s.queued ==> Apart(q, a))
  }

  /** The entry in use is intact and apart from the queued and pending ones and from other users' memory. */
  ghost predicate EntryOwn(v: M.Variant, s: Sys) {
    InUse(v, s) ==>
      && (forall q <- s.queued :: Apart(q, s.entry)) && (forall a <- s.pending :: Apart(a, s.entry))
      && Units(s.entry) !! s.others && s.entry in s.cells && Some(s.cells[s.entry].event) == s.current
  }

  ghost predicate Sound(v: M.Variant, s: Sys) {
    && |s.table| == M.EVENT_COUNT && Linked(s) && QueuedOwn(s) && PendingOwn(s)
    && s.others <= s.live && 0 !in s.cells
    && (s.phase.Calling? ==> s.entry != 0)
    && (v.EntryCleared? && s.phase.Calling? ==> Units(s.entry) <= s.live)
    && EntryOwn(v, s)
    && (s.entry != 0 ==> s.current.Some?)
  }

  /** Memory of the entry in use is handed out: to a trigger or to another user. */
  ghost predicate Breaks(v: M.Variant, s: Sys, op: Op) {
    match op
    case Request(kind, _, block) =>
      kind < M.EVENT_COUNT && block.Some? && InUse(v, s) && !Apart(block.value, s.entry)
    case Lend(r) => InUse(v, s) && !(Units(s.entry) !! r)
    case _ => false
  }

  /** A step keeps the queue sound exactly when it does not hand out memory of the entry in use. */
  lemma StepSoundIff(v: M.Variant, s: Sys, op: Op)
    requires Sound(v, s) && Enabled(s, op)
    ensures Sound(v, Step(v, s, op)) <==> !Breaks(v, s, op)
  {
    assert |s.table| == M.EVENT_COUNT;
    hide Sound, AfterRequest, AfterFill, AfterLink, AfterExtract, AfterCall, Spared;
    match op
    case Request(kind, data, block) => RequestSoundIff(v, s, kind, data, block);
    case Fill(a) => FillSound(v, s, a);
    case Link(a) => LinkSound(v, s, a);
    case Extract => ExtractSound(v, s);
    case Call => CallSound(v, s);
    case Lend(region) => LendSoundIff(v, s, region);
    case GiveBack(region) => GiveBackSound(v, s, region);
    case _ => TableSound(v, s, Step(v, s, op).table);
  }

  lemma TableSound(v: M.Variant, s: Sys, table: seq<seq<M.Handler>>)
    requires Sound(v, s) && |table| == M.EVENT_COUNT
    ensures Sound(v, s.(table := table))
  {
    hide Units;
  }

  lemma GiveBackSound(v: M.Variant, s: Sys, region: set<nat>)
    requires Sound(v, s) && region <= s.others
    ensures Sound(v, s.(live := s.live - region, others := s.others - region))
  {
    hide Units;
  }

  lemma CallSound(v: M.Variant, s: Sys)
    requires Sound(v, s) && s.phase.Calling?
    ensures Sound(v, AfterCall(s))
  {
    forall q <- s.queued ensures Units(q) !! Units(s.entry) {
      ApartIffDisjoint(q, s.entry);
    }
    forall a <- s.pending ensures Units(a) !! Units(s.entry) {
      ApartIffDisjoint(a, s.entry);
    }
    hide Units, Linked;
  }

  lemma LendSoundIff(v: M.Variant, s: Sys, region: set<nat>)
    requires Sound(v, s) && region !! s.live
    ensures Sound(v, Step(v, s, Lend(region))) <==> !Breaks(v, s, Lend(region))
  {
    LendLinked(v, s, region);
    hide Units, Linked;
  }

  lemma LendLinked(v: M.Variant, s: Sys, region: set<nat>)
    requires Sound(v, s) && region !! s.live
    ensures Linked(Step(v, s, Lend(region)))
  {
    hide Units, EntryOwn, PendingOwn;
    forall i | 0 <= i < |s.queued| ensures s.queued[i] in Spared(s.cells, region) {
      assert s.queued[i] in s.queued;
    }
  }

  lemma ApartIffDisjoint(a: nat, b: nat)
    ensures Apart(a, b) <==> Units(a) !! Units(b)
  {
    if !Apart(a, b) {
      assert if a <= b then b in Units(a) && b in Units(b) else a in Units(a) && a in Units(b);
    }
  }

  /** A fresh block lies apart from the queued and the pending ones. */
  lemma FreshIsApart(v: M.Variant, s: Sys, a: nat)
    requires Sound(v, s) && Units(a) !! s.live
    ensures (forall q <- s.queued :: Apart(q, a)) && (forall b <- s.pending :: Apart(b, a))
    ensures Units(a) !! s.others
  {
    hide Linked, EntryOwn;
    forall q <- s.queued ensures Apart(q, a) {
      ApartIffDisjoint(q, a);
    }
    forall b <- s.pending ensures Apart(b, a) {
      assert PendingAt(s, b);
      ApartIffDisjoint(b, a);
    }
  }

  lemma RequestSoundIff(v: M.Variant, s: Sys, kind: nat, data: int, block: Option<nat>)
    requires Sound(v, s) && Enabled(s, Request(kind, data, block))
    ensures Sound(v, AfterRequest(s, kind, data, block)) <==> !Breaks(v, s, Request(kind, data, block))
  {
    if kind < M.EVENT_COUNT && block.Some? {
      var a := block.value;
      FreshIsApart(v, s, a);
      WriteLinked(s, a, AfterRequest(s, kind, data, block));
      RequestPending(v, s, kind, data, a);
      hide Linked, PendingOwn, Units;
    }
  }

  lemma RequestPending(v: M.Variant, s: Sys, kind: nat, data: int, a: nat)
    requires Sound(v, s) && kind < M.EVENT_COUNT && a != 0 && Units(a) !! s.live
    ensures PendingOwn(AfterRequest(s, kind, data, Some(a)))
  {
    FreshIsApart(v, s, a);
    hide Linked, EntryOwn, Units;
    var t := AfterRequest(s, kind, data, Some(a));
    forall b <- t.pending ensures PendingAt(t, b) {
      if b != a { assert PendingAt(s, b); }
    }
  }

  /** The links between the queued entries survive what is written apart from them. */
  lemma WriteLinked(s: Sys, a: nat, t: Sys)
    requires Linked(s) && t.head == s.head && t.tail == s.tail && t.queued == s.queued
    requires forall q <- s.queued :: Apart(q, a)
    requires forall x :: x in s.cells && Apart(x, a) ==> x in t.cells && t.cells[x] == s.cells[x]
    ensures Linked(t)
  {
    forall i | 0 <= i < |t.queued|
      ensures t.queued[i] in t.cells && t.cells[t.queued[i]].next == LinkAt(t.queued, i + 1)
    {
      assert s.queued[i] in s.queued;
    }
  }

  lemma FillSound(v: M.Variant, s: Sys, a: nat)
    requires Sound(v, s) && a in s.pending
    ensures Sound(v, AfterFill(s, a))
  {
    var t := AfterFill(s, a);
    assert PendingAt(s, a);
    assert forall q <- s.queued :: Apart(q, a);
    WriteLinked(s, a, t);
    FillPending(v, s, a);
    hide Linked, Units, PendingOwn;
  }

  lemma FillPending(v: M.Variant, s: Sys, a: nat)
    requires Sound(v, s) && a in s.pending
    ensures PendingOwn(AfterFill(s, a))
  {
    var t := AfterFill(s, a);
    hide Linked, Units, EntryOwn, QueuedOwn;
    forall b <- t.pending ensures PendingAt(t, b) {
      assert PendingAt(s, b);
    }
  }

  lemma LinkSound(v: M.Variant, s: Sys, a: nat)
    requires Sound(v, s) && Enabled(s, Link(a))
    ensures Sound(v, AfterLink(s, a))
  {
    assert PendingAt(s, a);
    LinkLinked(v, s, a);
    LinkWrites(v, s, a);
    var t := AfterLink(s, a);
    hide Linked, Units, AfterLink;
    forall b <- t.pending ensures PendingAt(t, b) {
      assert PendingAt(s, b);
    }
  }

  /** Of the intact entries only the tail and the new one change: the tail by its link, the new one by its number. */
  lemma LinkWrites(v: M.Variant, s: Sys, a: nat)
    requires Sound(v, s) && Enabled(s, Link(a))
    ensures var t := AfterLink(s, a);
      && t == s.(cells := t.cells, head := t.head, tail := a, pending := s.pending - {a}, queued := s.queued + [a],
                 accepted := s.accepted + [M.Event(|s.accepted|, s.pending[a].kind, s.pending[a].data)])
      && (forall q :: q in t.queued <==> q in s.queued || q == a)
      && 0 !in t.cells && a in t.cells && t.cells[a] == Cell(t.accepted[|s.accepted|], 0)
      && (forall x :: x in s.cells && x != a ==>
            x in t.cells && t.cells[x] == if x == s.tail then s.cells[x].(next := a) else s.cells[x])
      && (s.tail == 0 || s.tail in s.queued)
  {
    assert PendingAt(s, a);
    assert |s.queued| > 0 ==> s.tail == s.queued[|s.queued| - 1];
    assert s.tail == 0 || (s.tail in s.queued && Apart(s.tail, a));
    hide Units, Linked, PendingOwn, EntryOwn, QueuedOwn;
    var t := AfterLink(s, a);
    assert t.queued[|s.queued|] == a;
    assert forall i :: 0 <= i < |s.queued| ==> t.queued[i] == s.queued[i];
  }

  lemma LinkLinked(v: M.Variant, s: Sys, a: nat)
    requires Sound(v, s) && Enabled(s, Link(a))
    ensures Linked(AfterLink(s, a))
  {
    assert PendingAt(s, a) && forall q <- s.queued :: Apart(q, a);
    LinkWrites(v, s, a);
    var t, n := AfterLink(s, a), |s.queued|;
    assert t.head == LinkAt(t.queued, 0);
    hide Units, PendingOwn, EntryOwn, QueuedOwn, AfterLink;
    assert n > 0 ==> s.tail == s.queued[n - 1];
    forall i | 0 <= i < |t.queued|
      ensures t.queued[i] in t.cells && t.cells[t.queued[i]].next == LinkAt(t.queued, i + 1)
    {
      if i < n {
        assert t.queued[i] == s.queued[i] && s.queued[i] in s.queued;
      }
    }
  }

  lemma ExtractSound(v: M.Variant, s: Sys)
    requires Sound(v, s) && s.phase.Waiting?
    ensures Sound(v, AfterExtract(v, s))
  {
    if |s.queued| > 0 {
      var t := AfterExtract(v, s);
      assert s.queued[0] in s.queued;
      assert forall i :: 0 <= i < |t.queued| ==> t.queued[i] == s.queued[i + 1];
    }
  }

  // ----- the machine of events -----

  ghost function Events(s: Sys): (r: seq<M.Event>)
    ensures |r| == |s.queued| && forall i :: 0 <= i < |r| ==> r[i] == At(s, s.queued[i]).event
  {
    seq(|s.queued|, i requires 0 <= i < |s.queued| => At(s, s.queued[i]).event)
  }

  /** What the memory stands for. */
  ghost function Abs(s: Sys): M.Sys {
    M.Sys(Events(s), if s.entry == 0 then None else s.current, s.phase, s.table,
          s.accepted, s.taken, s.dispatched, s.freed, s.calls)
  }

  /** The step of event_model.dfy that this one is: triggers count from the moment they are linked. */
  function AbsOp(s: Sys, op: Op): Option<M.Op> {
    match op
    case Link(a) => if a in s.pending then Some(M.Trigger(s.pending[a].kind, s.pending[a].data, true)) else None
    case Extract => Some(M.Extract)
    case Call => Some(M.Call)
    case Register(kind, h) => Some(M.Op.Register(kind, h))
    case Unregister(kind, h) => Some(M.Op.Unregister(kind, h))
    case _ => None
  }

  /** A step from a sound state is a step of the machine of events, or changes nothing there. */
  lemma StepRefines(v: M.Variant, s: Sys, op: Op)
    requires Sound(v, s) && Enabled(s, op) && M.WellFormed(Abs(s))
    ensures match AbsOp(s, op)
      case Some(o) => M.Enabled(Abs(s), o) && Abs(Step(v, s, op)) == M.Step(v, Abs(s), o)
      case None => Abs(Step(v, s, op)) == Abs(s)
    ensures M.WellFormed(Abs(Step(v, s, op)))
  {
    if AbsOp(s, op).Some? {
      M.StepWellFormed(v, Abs(s), AbsOp(s, op).value);
    }
    hide M.WellFormed;
    match op
    case Request(kind, data, block) => RequestKeepsEvents(v, s, kind, data, block);
    case Fill(a) => FillKeepsEvents(v, s, a);
    case Link(a) => LinkRefines(v, s, a);
    case Extract => ExtractRefines(v, s);
    case Call => CallRefines(v, s);
    case Lend(region) => LendKeepsEvents(v, s, region);
    case _ => assert Events(Step(v, s, op)) == Events(s);
  }

  lemma WriteKeepsEvents(s: Sys, a: nat, t: Sys)
    requires t.queued == s.queued && forall q <- s.queued :: q in s.cells && Apart(q, a)
    requires forall x :: x in s.cells && Apart(x, a) ==> x in t.cells && t.cells[x] == s.cells[x]
    ensures Events(t) == Events(s)
  {
    forall i | 0 <= i < |s.queued| ensures Events(t)[i] == Events(s)[i] {
      assert s.queued[i] in s.queued;
    }
  }

  lemma RequestKeepsEvents(v: M.Variant, s: Sys, kind: nat, data: int, block: Option<nat>)
    requires Sound(v, s) && Enabled(s, Request(kind, data, block))
    ensures Abs(AfterRequest(s, kind, data, block)) == Abs(s)
  {
    if kind < M.EVENT_COUNT && block.Some? {
      FreshIsApart(v, s, block.value);
      WriteKeepsEvents(s, block.value, AfterRequest(s, kind, data, block));
    }
  }

  lemma FillKeepsEvents(v: M.Variant, s: Sys, a: nat)
    requires Sound(v, s) && a in s.pending
    ensures Abs(AfterFill(s, a)) == Abs(s)
  {
    assert forall q <- s.queued :: q in s.cells && Apart(q, a);
    hide Units, Linked;
    WriteKeepsEvents(s, a, AfterFill(s, a));
  }

  lemma CallRefines(v: M.Variant, s: Sys)
    requires Sound(v, s) && s.phase.Calling? && M.WellFormed(Abs(s))
    ensures Abs(AfterCall(s)) == M.AfterCall(Abs(s))
  {
    hide Units, Linked;
    assert Events(AfterCall(s)) == Events(s);
  }

  lemma LendKeepsEvents(v: M.Variant, s: Sys, region: set<nat>)
    requires Sound(v, s) && region !! s.live
    ensures Events(Step(v, s, Lend(region))) == Events(s)
  {
    var t := Step(v, s, Lend(region));
    forall i | 0 <= i < |s.queued| ensures Events(t)[i] == Events(s)[i] {
      assert s.queued[i] in s.queued && Units(s.queued[i]) !! region;
    }
  }

  lemma LinkRefines(v: M.Variant, s: Sys, a: nat)
    requires Sound(v, s) && Enabled(s, Link(a))
    ensures Abs(AfterLink(s, a)) == M.AfterTrigger(Abs(s), s.pending[a].kind, s.pending[a].data, true)
  {
    assert PendingAt(s, a);
    LinkWrites(v, s, a);
    var t := AfterLink(s, a);
    hide Units, AfterLink;
    forall i | 0 <= i < |s.queued| ensures t.queued[i] == s.queued[i] && Events(t)[i] == Events(s)[i] {
      assert s.queued[i] in s.queued;
    }
    assert Events(t) == Events(s) + [t.accepted[|s.accepted|]];
  }

  lemma ExtractRefines(v: M.Variant, s: Sys)
    requires Sound(v, s) && s.phase.Waiting?
    ensures Abs(AfterExtract(v, s)) == M.AfterExtract(v, Abs(s))
  {
    var t := AfterExtract(v, s);
    if |s.queued| > 0 {
      assert Events(t) == Events(s)[1..];
    } else {
      assert Events(t) == Events(s);
    }
  }

  // ----- runs -----

  ghost predicate IsRun(v: M.Variant, states: seq<Sys>, ops: seq<Op>) {
    && |states| == |ops| + 1
    && forall i {:trigger ops[i]} :: 0 <= i < |ops| ==>
      |states[i].table| == M.EVENT_COUNT && Enabled(states[i], ops[i]) && states[i + 1] == Step(v, states[i], ops[i])
  }

  function Initial(table: seq<seq<M.Handler>>): Sys {
    Sys(map[], {}, {}, map[], 0, 0, 0, M.Waiting, table, [], None, [], [], [], [], [])
  }

  lemma {:induction false} UnbrokenRunSound(v: M.Variant, states: seq<Sys>, ops: seq<Op>, n: nat)
    requires IsRun(v, states, ops) && Sound(v, states[0]) && n <= |ops|
    requires forall i :: 0 <= i < n ==> !Breaks(v, states[i], ops[i])
    ensures Sound(v, states[n])
  {
    if n > 0 {
      UnbrokenRunSound(v, states, ops, n - 1);
      hide Sound, Step, Breaks;
      assert states[n - 1 + 1] == Step(v, states[n - 1], ops[n - 1]);
      StepSoundIff(v, states[n - 1], ops[n - 1]);
    }
  }

  /** The queue stays a finite list of live entries exactly when no step hands out memory of the entry in use. */
  lemma RunSoundIff(v: M.Variant, states: seq<Sys>, ops: seq<Op>)
    requires IsRun(v, states, ops) && Sound(v, states[0])
    ensures (forall i :: 0 <= i <= |ops| ==> Sound(v, states[i])) <==>
      (forall i :: 0 <= i < |ops| ==> !Breaks(v, states[i], ops[i]))
  {
    hide Sound, Step, Breaks;
    if forall i :: 0 <= i < |ops| ==> !Breaks(v, states[i], ops[i]) {
      forall i | 0 <= i <= |ops| ensures Sound(v, states[i]) {
        UnbrokenRunSound(v, states, ops, i);
      }
    } else {
      var i :| 0 <= i < |ops| && Breaks(v, states[i], ops[i]);
      if Sound(v, states[i]) {
        StepSoundIff(v, states[i], ops[i]);
        assert !Sound(v, states[i + 1]);
      }
    }
  }

  /** A trigger for this kind and data waits at `a`. */
  ghost predicate Waits(s: Sys, a: nat, kind: nat, data: int) {
    a in s.pending && s.pending[a].kind == kind && s.pending[a].data == data
  }

  lemma StepWaits(v: M.Variant, s: Sys, op: Op, a: nat, kind: nat, data: int)
    requires Sound(v, s) && Enabled(s, op) && |s.table| == M.EVENT_COUNT
    requires Waits(s, a, kind, data) && op != Link(a)
    ensures Waits(Step(v, s, op), a, kind, data)
  {
    assert PendingAt(s, a) && a in Units(a);
    hide Sound, Spared, Beside, At, M.Registered, M.Unregistered;
  }

  lemma {:induction false} TriggerWaits(v: M.Variant, states: seq<Sys>, ops: seq<Op>, i: nat, n: nat,
                                         kind: nat, data: int, a: nat)
    requires IsRun(v, states, ops) && Sound(v, states[0]) && i < n <= |ops|
    requires forall k :: 0 <= k < n ==> !Breaks(v, states[k], ops[k])
    requires ops[i] == Request(kind, data, Some(a)) && kind < M.EVENT_COUNT
    requires forall k :: i < k < n ==> ops[k] != Link(a)
    ensures Waits(states[n], a, kind, data) && Sound(v, states[n])
  {
    UnbrokenRunSound(v, states, ops, n);
    UnbrokenRunSound(v, states, ops, n - 1);
    var s, op := states[n - 1], ops[n - 1];
    assert Enabled(s, op) && states[n - 1 + 1] == Step(v, s, op);
    hide Sound, Breaks, Enabled;
    if i < n - 1 {
      TriggerWaits(v, states, ops, i, n - 1, kind, data, a);
      hide Step;
      StepWaits(v, s, op, a, kind, data);
    }
  }

  /**
   Whatever happens between the request of a trigger and the linking of its entry, what is linked is the event that
   was triggered, as the last one accepted.
   */
  lemma TriggerCarried(v: M.Variant, states: seq<Sys>, ops: seq<Op>, i: nat, n: nat, kind: nat, data: int, a: nat)
    requires IsRun(v, states, ops) && Sound(v, states[0]) && i < n < |ops|
    requires forall k :: 0 <= k < n ==> !Breaks(v, states[k], ops[k])
    requires ops[i] == Request(kind, data, Some(a)) && kind < M.EVENT_COUNT && ops[n] == Link(a)
    requires forall k :: i < k < n ==> ops[k] != Link(a)
    ensures states[n + 1].accepted == states[n].accepted + [M.Event(|states[n].accepted|, kind, data)]
    ensures states[n + 1].queued == states[n].queued + [a]
  {
    TriggerWaits(v, states, ops, i, n, kind, data, a);
    assert Enabled(states[n], ops[n]) && states[n + 1] == Step(v, states[n], ops[n]);
    hide Sound, Breaks;
    LinkWrites(v, states[n], a);
  }

  /** The loop that clears its entry holds the block of the entry it uses, so nothing can break it. */
  lemma ClearedNeverBreaks(s: Sys, op: Op)
    requires Sound(M.EntryCleared, s) && Enabled(s, op)
    ensures !Breaks(M.EntryCleared, s, op)
  {
    if op.Request? && op.block.Some? {
      ApartIffDisjoint(op.block.value, s.entry);
    }
  }

  lemma {:induction false} ClearedRunIsSound(states: seq<Sys>, ops: seq<Op>, n: nat)
    requires IsRun(M.EntryCleared, states, ops) && Sound(M.EntryCleared, states[0]) && n <= |ops|
    ensures Sound(M.EntryCleared, states[n])
  {
    if n > 0 {
      ClearedRunIsSound(states, ops, n - 1);
      hide Sound, Step, Breaks, Enabled;
      assert states[n - 1 + 1] == Step(M.EntryCleared, states[n - 1], ops[n - 1]);
      ClearedNeverBreaks(states[n - 1], ops[n - 1]);
      StepSoundIff(M.EntryCleared, states[n - 1], ops[n - 1]);
    }
  }

  /** The steps of the machine of events among the first `n`, and the states it goes through. */
  ghost function EventOps(states: seq<Sys>, ops: seq<Op>, n: nat): seq<M.Op>
    requires n <= |ops| && |states| == |ops| + 1
  {
    if n == 0 then []
    else
      var o := AbsOp(states[n - 1], ops[n - 1]);
      EventOps(states, ops, n - 1) + (if o.Some? then [o.value] else [])
  }

  ghost function EventStates(states: seq<Sys>, ops: seq<Op>, n: nat): (r: seq<M.Sys>)
    requires n <= |ops| && |states| == |ops| + 1
    ensures |r| == |EventOps(states, ops, n)| + 1 && r[0] == Abs(states[0])
  {
    if n == 0 then [Abs(states[0])]
    else EventStates(states, ops, n - 1) + (if AbsOp(states[n - 1], ops[n - 1]).Some? then [Abs(states[n])] else [])
  }

  ghost predicate IsRunTo(v: M.Variant, states: seq<M.Sys>, ops: seq<M.Op>, last: M.Sys) {
    M.IsRun(v, states, ops) && states[|ops|] == last && M.WellFormed(last)
  }

  lemma RunExtended(v: M.Variant, states: seq<M.Sys>, ops: seq<M.Op>, last: M.Sys, op: M.Op)
    requires IsRunTo(v, states, ops, last) && M.Enabled(last, op)
    ensures IsRunTo(v, states + [M.Step(v, last, op)], ops + [op], M.Step(v, last, op))
  {
    var longer, more := states + [M.Step(v, last, op)], ops + [op];
    M.StepWellFormed(v, last, op);
    forall i | 0 <= i < |more| ensures RunsAt(v, longer, more, i) {
      if i < |ops| {
        assert more[i] == ops[i] && longer[i] == states[i] && longer[i + 1] == states[i + 1];
      }
    }
    RunsThroughout(v, longer, more);
  }

  ghost predicate RunsAt(v: M.Variant, states: seq<M.Sys>, ops: seq<M.Op>, i: nat) {
    && i < |ops| && |states| == |ops| + 1
    && M.WellFormed(states[i]) && M.Enabled(states[i], ops[i]) && states[i + 1] == M.Step(v, states[i], ops[i])
  }

  lemma RunsThroughout(v: M.Variant, states: seq<M.Sys>, ops: seq<M.Op>)
    requires |states| == |ops| + 1 && forall i :: 0 <= i < |ops| ==> RunsAt(v, states, ops, i)
    ensures M.IsRun(v, states, ops)
  {
    forall i {:trigger ops[i]} | 0 <= i < |ops|
      ensures M.WellFormed(states[i]) && M.Enabled(states[i], ops[i]) && states[i + 1] == M.Step(v, states[i], ops[i])
    {
      assert RunsAt(v, states, ops, i);
    }
  }

  /** A run that breaks nothing is, without the other users' steps, a run of the machine of events. */
  lemma {:induction false} RunRefines(v: M.Variant, states: seq<Sys>, ops: seq<Op>, n: nat)
    requires IsRun(v, states, ops) && Sound(v, states[0]) && M.WellFormed(Abs(states[0])) && n <= |ops|
    requires forall i :: 0 <= i < n ==> !Breaks(v, states[i], ops[i])
    ensures IsRunTo(v, EventStates(states, ops, n), EventOps(states, ops, n), Abs(states[n]))
  {
    if n > 0 {
      var s, op := states[n - 1], ops[n - 1];
      assert |s.table| == M.EVENT_COUNT && Enabled(s, op) && states[n - 1 + 1] == Step(v, s, op);
      RunRefines(v, states, ops, n - 1);
      assert M.WellFormed(Abs(s));
      hide IsRun, IsRunTo, Sound, Step, Breaks, Enabled, Abs, AbsOp, M.Step, M.Enabled, M.WellFormed;
      UnbrokenRunSound(v, states, ops, n - 1);
      StepRefines(v, s, op);
      var ms, mops := EventStates(states, ops, n - 1), EventOps(states, ops, n - 1);
      match AbsOp(s, op)
      case Some(o) =>
        RunExtended(v, ms, mops, Abs(s), o);
        assert EventOps(states, ops, n) == mops + [o];
        assert EventStates(states, ops, n) == ms + [M.Step(v, Abs(s), o)];
      case None =>
        assert EventOps(states, ops, n) == mops && EventStates(states, ops, n) == ms;
    }
  }

  /** In such a run the links lead through the accepted events that are not taken yet, in order, and end. */
  lemma RunFifo(v: M.Variant, states: seq<Sys>, ops: seq<Op>, n: nat)
    requires IsRun(v, states, ops) && Sound(v, states[0]) && n <= |ops|
    requires M.WellFormed(Abs(states[0])) && M.Fifo(Abs(states[0]))
    requires forall i :: 0 <= i < n ==> !Breaks(v, states[i], ops[i])
    ensures Linked(states[n]) && states[n].taken + Events(states[n]) == states[n].accepted
  {
    RunRefines(v, states, ops, n);
    UnbrokenRunSound(v, states, ops, n);
    var ms, mops := EventStates(states, ops, n), EventOps(states, ops, n);
    M.RunFifo(v, ms, mops, |mops|);
  }

  /** With the entry cleared, every run: first in, first out, each event dispatched once and freed at most once. */
  lemma ClearedRunDispatchesInOrder(states: seq<Sys>, ops: seq<Op>, table: seq<seq<M.Handler>>)
    requires IsRun(M.EntryCleared, states, ops) && states[0] == Initial(table) && M.WellFormed(Abs(states[0]))
    ensures var s := states[|ops|];
      && Sound(M.EntryCleared, s) && s.taken + Events(s) == s.accepted && s.dispatched == s.taken
      && s.freed <= s.dispatched && (forall i, j :: 0 <= i < j < |s.freed| ==> s.freed[i] != s.freed[j])
  {
    forall i | 0 <= i <= |ops| ensures Sound(M.EntryCleared, states[i]) {
      ClearedRunIsSound(states, ops, i);
    }
    RunSoundIff(M.EntryCleared, states, ops);
    assert Abs(states[0]) == M.Initial(table);
    hide Sound, Step, Breaks, Enabled;
    RunRefines(M.EntryCleared, states, ops, |ops|);
    RunFifo(M.EntryCleared, states, ops, |ops|);
    M.ClearedDispatchesInOrder(EventStates(states, ops, |ops|), EventOps(states, ops, |ops|), table);
  }

  // ----- a block handed out again -----

  /** The dispatcher left to itself until it is back at the top of its loop. */
  ghost function Finish(s: Sys): (r: Sys)
    requires s.phase.Calling? && |s.table| == M.EVENT_COUNT && At(s, s.entry).event.kind < M.EVENT_COUNT
    ensures r == s.(phase := M.Waiting, live := s.live - Units(s.entry), freed := s.freed + [At(s, s.entry).event],
                    calls := r.calls)
    decreases |s.table[At(s, s.entry).event.kind]| - s.phase.i
  {
    if s.phase.i < |s.table[At(s, s.entry).event.kind]| then Finish(AfterCall(s)) else AfterCall(s)
  }

  /** The list from the head is one entry linked to itself. */
  ghost predicate SelfLoop(s: Sys, a: nat) {
    && s.head == s.tail == a != 0 && a in s.cells && s.cells[a].next == a
    && s.phase.Waiting? && |s.table| == M.EVENT_COUNT && s.cells[a].event.kind < M.EVENT_COUNT
  }

  /** The three steps of `event_trigger` with nothing in between. */
  function AfterTrigger(s: Sys, kind: nat, data: int, a: nat): Sys
    requires kind < M.EVENT_COUNT
  {
    AfterLink(AfterFill(AfterRequest(s, kind, data, Some(a)), a), a)
  }

  /** An event has been dispatched from `p` and freed; the dispatcher is at the top of its loop, the queue empty. */
  ghost function Drained(p: nat, table: seq<seq<M.Handler>>, x: int): (r: Sys)
    requires p != 0 && |table| == M.EVENT_COUNT
    ensures r == Initial(table).(cells := map[p := Cell(M.Event(0, 0, x), 0)], entry := p, current := Some(M.Event(0, 0, x)),
                                 accepted := r.accepted, taken := r.taken, dispatched := r.dispatched, freed := r.freed,
                                 calls := r.calls)
    ensures r.accepted == r.taken == r.dispatched == r.freed == [M.Event(0, 0, x)]
  {
    var queued := AfterTrigger(Initial(table), 0, x, p);
    assert queued.cells == map[p := Cell(M.Event(0, 0, x), 0)];
    var r := Finish(AfterExtract(M.AsWritten, queued));
    assert r.live == {};
    r
  }

  /**
   As written: the stale entry at `p` is taken up again, a trigger meanwhile is given `p`, and the end of the
   dispatch frees it while it is queued. The next trigger is given `p` once more, and links the tail, which is
   `p`, to itself.
   */
  lemma ReusedBlockLinksToItself(p: nat, table: seq<seq<M.Handler>>, x: int, y: int, z: int)
    requires p != 0 && |table| == M.EVENT_COUNT
    ensures var stale := AfterExtract(M.AsWritten, Drained(p, table, x));
            var freed := Finish(AfterTrigger(stale, 1, y, p));
            var again := AfterTrigger(freed, 2, z, p);
      && Enabled(stale, Request(1, y, Some(p))) && Breaks(M.AsWritten, stale, Request(1, y, Some(p)))
      && Enabled(freed, Request(2, z, Some(p)))
      && SelfLoop(again, p) && |again.accepted| == 3 && |again.taken| == 1
  {
    var stale := AfterExtract(M.AsWritten, Drained(p, table, x));
    var reused := AfterTrigger(stale, 1, y, p);
    assert reused.cells[p] == Cell(M.Event(1, 1, y), 0);
    var freed := Finish(reused);
    var again := AfterTrigger(freed, 2, z, p);
    assert again.cells[p] == Cell(M.Event(2, 2, z), p);
  }

  /**
   As written: a trigger is given `p` and loses the processor before it links its entry. The dispatcher finds the
   queue empty, dispatches the stale entry at `p` and frees it; then the trigger goes on. The queued entry is not
   live, so the next trigger is given `p`, in a step that hands out nothing in use, and links it to itself.
   */
  lemma InterruptedTriggerLinksToItself(p: nat, table: seq<seq<M.Handler>>, x: int, y: int, z: int)
    requires p != 0 && |table| == M.EVENT_COUNT
    ensures var drained := Drained(p, table, x);
            var requested := AfterRequest(drained, 1, y, Some(p));
            var freed := Finish(AfterExtract(M.AsWritten, requested));
            var linked := AfterLink(AfterFill(freed, p), p);
            var again := AfterTrigger(linked, 2, z, p);
      && Sound(M.AsWritten, drained) && Enabled(drained, Request(1, y, Some(p)))
      && Breaks(M.AsWritten, drained, Request(1, y, Some(p))) && !Sound(M.AsWritten, requested)
      && freed.phase.Waiting? && Enabled(freed, Fill(p)) && !Sound(M.AsWritten, linked)
      && Enabled(linked, Request(2, z, Some(p))) && !Breaks(M.AsWritten, linked, Request(2, z, Some(p)))
      && SelfLoop(again, p) && |again.accepted| == 3 && |again.taken| == 1
  {
    var drained := Drained(p, table, x);
    DrainedIsSound(p, table, x);
    var requested := AfterRequest(drained, 1, y, Some(p));
    RequestedIsNot(requested, p);
    var freed := Finish(AfterExtract(M.AsWritten, requested));
    var linked := AfterLink(AfterFill(freed, p), p);
    assert linked.queued == [p] && linked.live == {};
    LinkedIsNot(linked, p);
    hide Sound;
    assert linked.cells[p] == Cell(M.Event(1, 1, y), 0);
    var again := AfterTrigger(linked, 2, z, p);
    assert again.cells[p] == Cell(M.Event(2, 2, z), p);
  }

  lemma DrainedIsSound(p: nat, table: seq<seq<M.Handler>>, x: int)
    requires p != 0 && |table| == M.EVENT_COUNT
    ensures Sound(M.AsWritten, Drained(p, table, x))
  {
    hide Drained;
  }

  lemma RequestedIsNot(s: Sys, p: nat)
    requires p in s.pending && s.entry == p != 0 && s.queued == []
    ensures !Sound(M.AsWritten, s)
  {
    hide Linked, QueuedOwn, PendingOwn;
  }

  lemma LinkedIsNot(s: Sys, p: nat)
    requires s.queued == [p] && s.live == {}
    ensures !Sound(M.AsWritten, s)
  {
    hide Linked, EntryOwn, PendingOwn;
    assert p in s.queued && p in Units(p);
  }

  ghost function Iterations(v: M.Variant, s: Sys, a: nat, n: nat): (r: Sys)
    requires SelfLoop(s, a)
    ensures SelfLoop(r, a) && r.cells == s.cells
    ensures r.taken == s.taken + seq(n, _ => s.cells[a].event)
  {
    if n == 0 then s else
      var r := Iterations(v, s, a, n - 1);
      var next := Finish(AfterExtract(v, r));
      assert seq(n, _ => s.cells[a].event) == seq(n - 1, _ => s.cells[a].event) + [s.cells[a].event];
      next
  }
}

/** kernel/event/event.c: the linked queue, the handler arrays and the dispatcher's local state. */
module EventSystem {
  import opened Words
  import M = EventModel

  /** A block of the heap used as an `event_entry_t`; the heap may hand the same block out again. */
  class Entry {
    var kind: nat
    var data: int
    ghost var serial: nat
    var next: Entry?

    constructor ()
    {
      kind, data, serial, next := 0, 0, 0, null;
    }

    ghost function Event(): M.Event
      reads this
    {
      M.Event(serial, kind, data)
    }
  }

  /** `queue_head` and `queue_tail`. */
  class Queue {
    var head: Entry?
    var tail: Entry?
    ghost var nodes: seq<Entry>

    ghost function At(i: nat): Entry?
      reads this
    {
      if i < |nodes| then nodes[i] else null
    }

    /** The list from the head is finite and acyclic, and the tail is its last entry, null when there is none. */
    ghost predicate Valid()
      reads this, nodes
    {
      && AllDifferent(nodes)
      && head == At(0)
      && tail == (if |nodes| == 0 then null else nodes[|nodes| - 1])
      && (forall i {:trigger nodes[i].next} :: 0 <= i < |nodes| ==> nodes[i].next == At(i + 1))
    }

    ghost function Contents(): (r: seq<M.Event>)
      reads this, nodes
      ensures |r| == |nodes| && forall i :: 0 <= i < |nodes| ==> r[i] == nodes[i].Event()
    {
      seq(|nodes|, i requires 0 <= i < |nodes| reads this, nodes => nodes[i].Event())
    }

    constructor ()
      ensures Valid() && nodes == [] && Contents() == []
    {
      head, tail, nodes := null, null, [];
    }

    /** `e` goes behind the tail, whatever it is: the last two clauses say what becomes of a list. */
    method Push(e: Entry)
      modifies this, (if tail == null then {} else {tail})`next
      ensures nodes == old(nodes) + [e] && tail == e
      ensures head == if old(tail) == null then e else old(head)
      ensures old(tail) != null ==> old(tail).next == e
      ensures old(Valid()) && old(e.next) == null ==> (Valid() <==> e !in old(nodes))
      ensures old(Valid()) && e !in old(nodes) ==> Contents() == old(Contents()) + [e.Event()]
    {
      if tail != null {
        tail.next := e;
      } else {
        head := e;
      }
      tail := e;
      nodes := nodes + [e];
      assert nodes[|nodes| - 1] == e;
    }

    /** A new entry that has been filled in gets its number and is linked. */
    method Append(e: Entry, ghost serial: nat)
      requires Valid() && e !in nodes && e.next == null
      modifies this, nodes, e
      ensures Valid() && nodes == old(nodes) + [e] && e.Event() == M.Event(serial, old(e.kind), old(e.data))
      ensures Contents() == old(Contents()) + [e.Event()]
    {
      e.serial := serial;
      assert Contents() == old(Contents());
      Push(e);
    }

    /** The critical section of the dispatcher, on whatever hangs on the head; the last clauses are for a list. */
    method Pop() returns (e: Entry?)
      modifies this
      ensures e == old(head) && head == if e == null then null else old(e.next)
      ensures tail == if e != null && head == null then null else old(tail)
      ensures old(Valid()) ==> Valid()
      ensures old(Valid()) && e == null ==> old(nodes) == nodes == []
      ensures old(Valid()) && e != null ==> old(nodes) == [e] + nodes && e !in nodes
      ensures old(Valid()) && e != null ==> old(Contents()) == [e.Event()] + Contents()
    {
      ghost var contents := Contents();
      e := head;
      if e != null {
        head := e.next;
        if head == null {
          tail := null;
        }
        if |nodes| > 0 {
          nodes := nodes[1..];
          assert Contents() == contents[1..];
        }
      }
    }
  }

  /** `handlers` and `handler_count`. */
  class HandlerTable {
    const handlers: array2<M.Handler>
    const count: array<nat>

    ghost predicate Valid()
      reads this, count
    {
      && handlers.Length0 == count.Length == M.EVENT_COUNT && handlers.Length1 == M.MAX_HANDLERS
      && forall k :: 0 <= k < M.EVENT_COUNT ==> count[k] <= M.MAX_HANDLERS
    }

    ghost function Row(kind: nat): (r: seq<M.Handler>)
      requires Valid() && kind < M.EVENT_COUNT
      reads this, count, handlers
      ensures |r| == count[kind] && forall i :: 0 <= i < |r| ==> r[i] == handlers[kind, i]
    {
      seq(count[kind], i requires Valid() && 0 <= i < count[kind] reads this, count, handlers => handlers[kind, i])
    }

    ghost function Rows(): (r: seq<seq<M.Handler>>)
      requires Valid()
      reads this, count, handlers
      ensures |r| == M.EVENT_COUNT && forall k :: 0 <= k < |r| ==> r[k] == Row(k) && |r[k]| <= M.MAX_HANDLERS
    {
      seq(M.EVENT_COUNT, k requires Valid() && 0 <= k < M.EVENT_COUNT reads this, count, handlers => Row(k))
    }

    constructor ()
      ensures Valid() && fresh(handlers) && fresh(count) && Rows() == [[], [], []]
    {
      handlers := new M.Handler[M.EVENT_COUNT, M.MAX_HANDLERS]((_, _) => M.Handler(0, 0));
      count := new nat[M.EVENT_COUNT](_ => 0);
      new;
      assert Rows() == [[], [], []];
    }

    method Register(kind: nat, handler: M.Handler) returns (code: int)
      requires Valid()
      modifies handlers, count
      ensures Valid()
      ensures (Rows(), code) == M.Registered(old(Rows()), kind, handler)
    {
      if kind >= M.EVENT_COUNT || handler.fn == 0 {
        return -1;
      }
      if count[kind] >= M.MAX_HANDLERS {
        return -1;
      }
      ghost var rows := Rows();
      handlers[kind, count[kind]] := handler;
      count[kind] := count[kind] + 1;
      assert Row(kind) == rows[kind] + [handler];
      assert forall k :: 0 <= k < M.EVENT_COUNT && k != kind ==> Row(k) == rows[k];
      assert Rows() == rows[kind := Row(kind)];
      return 0;
    }

    /** Finds the first match and moves the later handlers down over it. */
    method Unregister(kind: nat, handler: M.Handler) returns (code: int)
      requires Valid()
      modifies handlers, count
      ensures Valid()
      ensures (Rows(), code) == M.Unregistered(old(Rows()), kind, handler)
    {
      if kind >= M.EVENT_COUNT {
        return -1;
      }
      ghost var rows := Rows();
      for i := 0 to count[kind]
        invariant forall k :: 0 <= k < i ==> rows[kind][k] != handler
        invariant Valid() && Rows() == rows && count[kind] == |rows[kind]|
      {
        if handlers[kind, i] == handler {
          assert IndexOf(rows[kind], handler, 0) == i;
          MoveDown(kind, i);
          return 0;
        }
      }
      return -1;
    }

    method MoveDown(kind: nat, i: nat)
      requires Valid() && kind < M.EVENT_COUNT && i < count[kind]
      modifies handlers, count
      ensures Valid() && Rows() == old(Rows())[kind := Without(old(Rows())[kind], i)]
    {
      ghost var rows := Rows();
      var last := count[kind] - 1;
      for j := i to last
        invariant count[..] == old(count[..])
        invariant forall k, c :: 0 <= k < M.EVENT_COUNT && 0 <= c < M.MAX_HANDLERS ==>
          handlers[k, c] == if k == kind && i <= c < j then old(handlers[k, c + 1]) else old(handlers[k, c])
      {
        handlers[kind, j] := handlers[kind, j + 1];
      }
      count[kind] := last;
      assert Row(kind) == Without(rows[kind], i);
      assert forall k :: 0 <= k < M.EVENT_COUNT && k != kind ==> Row(k) == rows[k];
      assert Rows() == rows[kind := Row(kind)];
    }
  }

  /**
   The dispatcher task between its atomic steps, and the triggers of any tasks between theirs. The ghost fields
   record the blocks the heap has given out for entries, those of them not linked yet and those filled in, the
   event last taken, and what has been done.
   */
  class Dispatcher {
    const variant: M.Variant
    const queue: Queue
    const table: HandlerTable
    var entry: Entry?
    var calling: bool
    var next: nat
    ghost var live: set<Entry>
    ghost var pending: set<Entry>
    ghost var filled: set<Entry>
    ghost var current: Option<M.Event>
    ghost var accepted: seq<M.Event>
    ghost var taken: seq<M.Event>
    ghost var dispatched: seq<M.Event>
    ghost var freed: seq<M.Event>
    ghost var calls: seq<(M.Handler, M.Event)>

    ghost predicate Shape()
      reads this, queue, queue.nodes, table, table.count
    {
      queue.Valid() && table.Valid()
    }

    /** The dispatcher may still read the entry and free it. */
    ghost predicate InUse()
      reads this, queue
    {
      entry != null && (calling || (variant.AsWritten? && queue.nodes == []))
    }

    /** Pending blocks are live, not queued, and hold what was filled in. */
    ghost predicate PendingOwn()
      reads this, queue, filled
    {
      && filled <= pending <= live && (forall e <- queue.nodes :: e !in pending)
      && forall e <- filled :: e.kind < M.EVENT_COUNT && e.next == null
    }

    /** Queued entries are live, and the entry in use is none of them, nor pending, and holds the event taken. */
    ghost predicate Sound()
      reads this, queue, queue.nodes, entry, filled
    {
      && (forall e <- queue.nodes :: e in live) && PendingOwn()
      && (entry != null ==> current.Some?) && (calling ==> entry != null)
      && (variant.EntryCleared? && calling ==> entry in live)
      && (InUse() ==> entry !in queue.nodes && entry !in pending && Some(entry.Event()) == current)
    }

    ghost predicate Valid()
      reads this, queue, queue.nodes, entry, filled, table, table.count, table.handlers
    {
      Shape() && Sound() && M.WellFormed(State())
    }

    ghost function State(): M.Sys
      requires table.Valid()
      reads this, queue, queue.nodes, table, table.count, table.handlers
    {
      M.Sys(queue.Contents(), if entry == null then None else current,
            if calling then M.Calling(next) else M.Waiting, table.Rows(),
            accepted, taken, dispatched, freed, calls)
    }

    constructor (variant: M.Variant)
      ensures Valid() && this.variant == variant && fresh(queue) && fresh(table)
      ensures State() == M.Initial([[], [], []])
    {
      this.variant := variant;
      queue := new Queue();
      table := new HandlerTable();
      entry, calling, next := null, false, 0;
      live, pending, filled, current := {}, {}, {}, None;
      accepted, taken, dispatched, freed, calls := [], [], [], [], [];
    }

    /**
     The heap request of `event_trigger`: `block` is what `mem_alloc` returned, no block it has given out before and
     not taken back. The result is sound unless the block is that of the entry in use.
     */
    method Request(kind: nat, block: Entry?) returns (goesOn: bool)
      requires Valid() && (block == null || block !in live)
      modifies this`live, this`pending
      ensures goesOn <==> kind < M.EVENT_COUNT && block != null
      ensures Shape() && State() == old(State()) && (goesOn ==> block in pending && block !in filled)
      ensures Valid() <==> !(goesOn && InUse() && block == entry)
    {
      if kind >= M.EVENT_COUNT || block == null {
        return false;
      }
      live, pending := live + {block}, pending + {block};
      return true;
    }

    /** The fields of a pending block are set, with interrupts on. */
    method Fill(e: Entry, kind: nat, data: int)
      requires Valid() && e in pending && kind < M.EVENT_COUNT
      modifies this`filled, e
      ensures Valid() && State() == old(State())
      ensures e in filled && e.kind == kind && e.data == data
    {
      assert e !in queue.nodes;
      SetFields(e, kind, data);
      filled := filled + {e};
    }

    /** The critical section of `event_trigger`; the event counts, and gets its number, from here on. */
    method Link(e: Entry)
      requires Valid() && e in filled
      modifies this`accepted, this`pending, this`filled, queue, queue.nodes, e
      ensures Valid() && State() == M.AfterTrigger(old(State()), old(e.kind), old(e.data), true)
    {
      M.StepWellFormed(variant, State(), M.Trigger(e.kind, e.data, true));
      hide M.WellFormed;
      LinkEntry(e);
    }

    method LinkEntry(e: Entry)
      requires Shape() && Sound() && e in filled
      modifies this`accepted, this`pending, this`filled, queue, queue.nodes, e
      ensures Shape() && Sound()
      ensures var event := M.Event(|old(accepted)|, old(e.kind), old(e.data));
        State() == old(State()).(queue := old(queue.Contents()) + [event], accepted := old(accepted) + [event])
    {
      hide Queue.Valid, Queue.Contents, HandlerTable.Valid, HandlerTable.Rows;
      queue.Append(e, |accepted|);
      pending, filled := pending - {e}, filled - {e};
      accepted := accepted + [e.Event()];
      assert queue.nodes[|queue.nodes| - 1] == e;
    }

    /**
     `event_trigger` without an interruption. It stays sound unless the block is that of the entry under dispatch;
     the stale entry of an empty queue is never looked at again.
     */
    method Trigger(kind: nat, data: int, block: Entry?)
      requires Valid() && (block == null || block !in live)
      modifies this`accepted, this`live, queue, queue.nodes, block
      ensures Shape() && State() == M.AfterTrigger(old(State()), kind, data, block != null)
      ensures Valid() <==> !(kind < M.EVENT_COUNT && block != null && calling && block == entry)
    {
      M.StepWellFormed(variant, State(), M.Trigger(kind, data, block != null));
      hide M.WellFormed, Queue.Valid, Queue.Contents, HandlerTable.Valid, HandlerTable.Rows;
      if kind < M.EVENT_COUNT && block != null {
        Enqueue(kind, data, block);
        assert queue.nodes[|queue.nodes| - 1] == block;
      }
    }

    method Enqueue(kind: nat, data: int, e: Entry)
      requires Shape() && e !in queue.nodes
      modifies this`accepted, this`live, queue, queue.nodes, e
      ensures Shape() && queue.nodes == old(queue.nodes) + [e] && live == old(live) + {e}
      ensures var event := M.Event(|old(accepted)|, kind, data);
        State() == old(State()).(queue := old(queue.Contents()) + [event], accepted := old(accepted) + [event])
    {
      SetFields(e, kind, data);
      hide Queue.Valid, Queue.Contents, HandlerTable.Valid, HandlerTable.Rows;
      queue.Append(e, |accepted|);
      live := live + {e};
      accepted := accepted + [e.Event()];
    }

    method SetFields(e: Entry, kind: nat, data: int)
      requires Shape() && e !in queue.nodes
      modifies e
      ensures Shape() && State() == old(State()) && queue.Contents() == old(queue.Contents())
      ensures e.kind == kind && e.data == data && e.next == null
    {
      ghost var contents := queue.Contents();
      hide HandlerTable.Valid, HandlerTable.Rows;
      e.kind, e.data, e.next := kind, data, null;
      assert queue.Contents() == contents;
    }

    /** One pass of the dispatcher's critical section and the test of `entry` after it. */
    method Extract()
      requires Valid() && !calling
      modifies this, queue
      ensures Valid() && State() == M.AfterExtract(variant, old(State()))
    {
      M.StepWellFormed(variant, State(), M.Extract);
      hide M.WellFormed, M.AfterExtract, Queue.Valid, Queue.Contents, HandlerTable.Valid, HandlerTable.Rows;
      TakeAndBegin();
    }

    method TakeAndBegin()
      requires Shape() && Sound() && !calling
      modifies this, queue
      ensures Shape() && Sound() && State() == M.AfterExtract(variant, old(State()))
    {
      hide Queue.Valid, Queue.Contents, HandlerTable.Valid, HandlerTable.Rows;
      if variant.EntryCleared? {
        entry := null;
      }
      ghost var kept := entry;
      var found := TakeFirst();
      assert found || entry == kept;
      if entry != null {
        Begin();
      }
    }

    /** The critical section: the first queued entry, if any, becomes `entry`. */
    method TakeFirst() returns (found: bool)
      requires Shape() && Sound() && !calling
      modifies this`entry, this`current, this`taken, queue
      ensures Shape() && Sound() && (found <==> old(queue.Contents()) != [])
      ensures !found ==> State() == old(State()) && entry == old(entry)
      ensures found ==> entry != null && entry in live && entry !in queue.nodes && entry !in pending
      ensures found ==> current == Some(entry.Event())
      ensures found ==> old(queue.Contents()) == [current.value] + queue.Contents()
      ensures found ==> State() == old(State()).(
        queue := queue.Contents(), entry := current, taken := old(taken) + [current.value])
    {
      hide Queue.Valid, Queue.Contents, HandlerTable.Valid, HandlerTable.Rows;
      var first := queue.Pop();
      found := first != null;
      if found {
        entry, current := first, Some(first.Event());
        taken := taken + [entry.Event()];
      }
    }

    method Begin()
      requires Shape() && Sound() && entry != null && current == Some(entry.Event())
      requires entry !in queue.nodes && entry !in pending
      requires variant.EntryCleared? ==> entry in live
      modifies this`calling, this`next, this`dispatched
      ensures Shape() && Sound()
      ensures State() == old(State()).(phase := M.Calling(0), dispatched := old(dispatched) + [current.value])
    {
      hide Queue.Valid, Queue.Contents, HandlerTable.Valid, HandlerTable.Rows;
      calling, next := true, 0;
      dispatched := dispatched + [entry.Event()];
    }

    /** One pass of the handler loop, or the release of the entry after the last one. */
    method Call()
      requires Valid() && calling
      modifies this`calls, this`next, this`freed, this`calling, this`live
      ensures Valid() && State() == M.AfterCall(old(State()))
    {
      M.StepWellFormed(variant, State(), M.Call);
      hide M.WellFormed, M.AfterCall, Queue.Valid, Queue.Contents, HandlerTable.Rows, HandlerTable.Valid;
      CallOrRelease();
    }

    method CallOrRelease()
      requires Shape() && Sound() && calling && entry.kind < M.EVENT_COUNT
      modifies this`calls, this`next, this`freed, this`calling, this`live
      ensures Shape() && Sound() && State() == M.AfterCall(old(State()))
    {
      assert table.Rows()[entry.kind] == table.Row(entry.kind);
      hide Queue.Valid, Queue.Contents, HandlerTable.Rows;
      if next < table.count[entry.kind] {
        CallHandler();
      } else {
        Release();
      }
    }

    method CallHandler()
      requires Shape() && Sound() && calling && entry.kind < M.EVENT_COUNT
      requires next < table.count[entry.kind]
      modifies this`calls, this`next
      ensures Shape() && Sound()
      ensures State() == old(State()).(
        calls := old(calls) + [(table.Row(entry.kind)[old(next)], entry.Event())], phase := M.Calling(old(next) + 1))
    {
      hide Queue.Valid, Queue.Contents, HandlerTable.Rows, HandlerTable.Row;
      calls := calls + [(table.handlers[entry.kind, next], entry.Event())];
      next := next + 1;
    }

    method Release()
      requires Shape() && Sound() && calling
      modifies this`freed, this`calling, this`live
      ensures Shape() && Sound() && live == old(live) - {entry}
      ensures State() == old(State()).(freed := old(freed) + [entry.Event()], phase := M.Waiting)
    {
      hide Queue.Valid, Queue.Contents, HandlerTable.Valid, HandlerTable.Rows;
      freed := freed + [entry.Event()];
      live := live - {entry};
      calling := false;
    }

    method Register(kind: nat, handler: M.Handler) returns (code: int)
      requires Valid()
      modifies table.handlers, table.count
      ensures Valid()
      ensures var (rows, c) := M.Registered(old(State()).table, kind, handler);
        State() == old(State()).(table := rows) && code == c
    {
      M.StepWellFormed(variant, State(), M.Op.Register(kind, handler));
      hide Queue.Valid, Queue.Contents, HandlerTable.Rows, M.Registered, M.WellFormed;
      code := table.Register(kind, handler);
    }

    method Unregister(kind: nat, handler: M.Handler) returns (code: int)
      requires Valid()
      modifies table.handlers, table.count
      ensures Valid()
      ensures var (rows, c) := M.Unregistered(old(State()).table, kind, handler);
        State() == old(State()).(table := rows) && code == c
    {
      M.StepWellFormed(variant, State(), M.Op.Unregister(kind, handler));
      hide Queue.Valid, Queue.Contents, HandlerTable.Rows, M.Unregistered, M.WellFormed;
      code := table.Unregister(kind, handler);
    }
  }
}

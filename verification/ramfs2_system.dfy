/** Runs of ramfs2 on its heap, from mount on: what they keep, what they leak, and when they are a map. */
module Ramfs2System {
  import opened Words
  import opened Search
  import opened DiskModel
  import opened Ramfs2Model
  import opened Ramfs2Refinement
  import opened Ramfs2Runs
  import opened HeapClients
  import opened Ramfs2Heap
  import H = HeapModel

  /** What happened at each operation of a run: the state before it, its return value and its output. */
  datatype Event = Event(before: Fs, op: Op, code: int, out: seq<byte>, after: Fs)

  ghost predicate IsEvent(v: Variant, blockSize: nat, e: Event) {
    && WellFormed(e.before, blockSize) && Acceptable(e.before, blockSize, e.op)
    && Step(v, blockSize, e.before, e.op) == (e.after, e.code, e.out)
  }

  ghost predicate IsRun(v: Variant, blockSize: nat, start: Fs, run: seq<Event>) {
    && (forall i :: 0 <= i < |run| ==> IsEvent(v, blockSize, run[i]))
    && (|run| > 0 ==> run[0].before == start)
    && (forall i :: 0 < i < |run| ==> run[i].before == run[i - 1].after)
  }

  ghost function StateAt(start: Fs, run: seq<Event>, n: nat): Fs
    requires n <= |run|
  {
    if n == 0 then start else run[n - 1].after
  }

  /** The live blocks after `n` operations. */
  ghost function LiveAt(v: Variant, blockSize: nat, live: seq<Block>, run: seq<Event>, n: nat): seq<Block>
    requires n <= |run| && forall i :: 0 <= i < n ==> IsEvent(v, blockSize, run[i])
  {
    if n == 0 then live
    else
      assert IsEvent(v, blockSize, run[n - 1]);
      LiveAfter(v, blockSize, run[n - 1].before, run[n - 1].op, LiveAt(v, blockSize, live, run, n - 1))
  }

  /** Blocks that belong to no file: those there from the start, and the tables dropped by writes. */
  ghost function StrayAt(stray: multiset<Block>, run: seq<Event>, n: nat): multiset<Block>
    requires n <= |run|
  {
    if n == 0 then stray
    else StrayAt(stray, run, n - 1) + DroppedTables(run[n - 1].before, run[n - 1].op)
  }

  ghost predicate CleanEvent(v: Variant, blockSize: nat, e: Event)
    requires IsEvent(v, blockSize, e)
  {
    CleanOp(v, blockSize, e.before, e.op)
  }

  ghost predicate CleanRun(v: Variant, blockSize: nat, run: seq<Event>, n: nat)
    requires n <= |run| && forall i :: 0 <= i < |run| ==> IsEvent(v, blockSize, run[i])
  {
    forall i :: 0 <= i < n ==> CleanEvent(v, blockSize, run[i])
  }

  lemma {:induction false} RunStaysGood(v: Variant, blockSize: nat, start: Fs, run: seq<Event>, n: nat)
    requires Good(start, blockSize) && IsRun(v, blockSize, start, run) && n <= |run|
    ensures Good(StateAt(start, run, n), blockSize)
    ensures n < |run| ==> run[n].before == StateAt(start, run, n)
  {
    if n > 0 {
      RunStaysGood(v, blockSize, start, run, n - 1);
      hide Good, Step, Abs, MapStep, Acceptable;
      assert IsEvent(v, blockSize, run[n - 1]);
      StepOnValues(v, blockSize, run[n - 1].before, run[n - 1].op);
    }
  }

  // ----- the heap over a run -----

  /** In a clean run every object stays a live block of its own, and only dropped tables go astray. */
  lemma {:induction false} CleanRunOwns(v: Variant, blockSize: nat, start: Fs, live: seq<Block>, stray: multiset<Block>,
                                        run: seq<Event>, n: nat)
    requires Good(start, blockSize) && Owns(start, live, stray) && IsRun(v, blockSize, start, run) && n <= |run|
    requires CleanRun(v, blockSize, run, n)
    ensures Owns(StateAt(start, run, n), LiveAt(v, blockSize, live, run, n), StrayAt(stray, run, n))
  {
    if n > 0 {
      CleanRunOwns(v, blockSize, start, live, stray, run, n - 1);
      RunStaysGood(v, blockSize, start, run, n - 1);
      var e := run[n - 1];
      assert IsEvent(v, blockSize, e) && CleanEvent(v, blockSize, e);
      hide Good, Step, Owns, CleanOp, Acceptable, LiveAfter, DroppedTables, WellFormed;
      StepOwnsIff(v, blockSize, e.before, e.op, LiveAt(v, blockSize, live, run, n - 1), StrayAt(stray, run, n - 1));
    }
  }

  /** Over every run of either search: the objects stay apart throughout exactly when every operation is clean. */
  lemma RunOwnsIff(v: Variant, blockSize: nat, start: Fs, live: seq<Block>, stray: multiset<Block>, run: seq<Event>)
    requires Good(start, blockSize) && Owns(start, live, stray) && IsRun(v, blockSize, start, run)
    ensures (forall n :: 0 <= n <= |run| ==>
               Owns(StateAt(start, run, n), LiveAt(v, blockSize, live, run, n), StrayAt(stray, run, n)))
       <==> CleanRun(v, blockSize, run, |run|)
  {
    hide Good, Step, Owns, CleanOp, Acceptable, LiveAfter, DroppedTables, WellFormed, LiveAt, StrayAt;
    if CleanRun(v, blockSize, run, |run|) {
      forall n | 0 <= n <= |run|
        ensures Owns(StateAt(start, run, n), LiveAt(v, blockSize, live, run, n), StrayAt(stray, run, n))
      {
        CleanRunOwns(v, blockSize, start, live, stray, run, n);
      }
    } else {
      var i :| 0 <= i < |run| && !CleanEvent(v, blockSize, run[i]);
      UncleanEventBreaks(v, blockSize, start, live, stray, run, i);
    }
  }

  lemma UncleanEventBreaks(v: Variant, blockSize: nat, start: Fs, live: seq<Block>, stray: multiset<Block>,
                           run: seq<Event>, i: nat)
    requires Good(start, blockSize) && IsRun(v, blockSize, start, run) && i < |run|
    requires !CleanEvent(v, blockSize, run[i])
    ensures Owns(StateAt(start, run, i), LiveAt(v, blockSize, live, run, i), StrayAt(stray, run, i)) ==>
      !Owns(StateAt(start, run, i + 1), LiveAt(v, blockSize, live, run, i + 1), StrayAt(stray, run, i + 1))
  {
    RunStaysGood(v, blockSize, start, run, i);
    var e := run[i];
    var now, astray := LiveAt(v, blockSize, live, run, i), StrayAt(stray, run, i);
    assert IsEvent(v, blockSize, e);
    hide Good, Step, Owns, CleanOp, Acceptable, LiveAfter, DroppedTables, WellFormed;
    if Owns(StateAt(start, run, i), now, astray) {
      StepOwnsIff(v, blockSize, e.before, e.op, now, astray);
    }
  }

  /** With the reset only a block table of 2^30 entries can be unclean. */
  lemma ResetRunIsClean(blockSize: nat, run: seq<Event>, n: nat)
    requires 0 < blockSize && n <= |run| && forall i :: 0 <= i < |run| ==> IsEvent(WithReset, blockSize, run[i])
    requires forall i :: 0 <= i < n && run[i].op.Write? ==> 4 * Needed(run[i].op.len, blockSize) < TWO32
    ensures CleanRun(WithReset, blockSize, run, n)
  {
    forall i | 0 <= i < n ensures CleanEvent(WithReset, blockSize, run[i]) {
      assert IsEvent(WithReset, blockSize, run[i]);
    }
  }

  /**
   The payloads of any two objects of a state that owns its objects share no byte, with each other or
   with a header: nodes, current tables, dropped tables, the context and the block map.
   */
  lemma ObjectsApart(fs: Fs, live: seq<Block>, stray: multiset<Block>, b: Block, c: Block, a: nat)
    requires Owns(fs, live, stray) && multiset{b, c} <= Objects(fs.files) + stray
    requires b.units == H.UnitsFor(b.size) && c.units == H.UnitsFor(c.size)
    requires b.size <= TWO32 - 4 && c.size <= TWO32 - 4 && InPayload(b, a)
    ensures a < |fs.heap.mem| && !InPayload(c, a) && !InHeader(c, a) && !InHeader(b, a)
  {
    PayloadsApart(fs.heap, live, b, c, a);
  }

  /** The files write the fields of their nodes and tables without touching anything else the heap relies on. */
  lemma ObjectWriteKeeps(fs: Fs, live: seq<Block>, stray: multiset<Block>, b: Block, offset: nat, value: byte)
    requires Owns(fs, live, stray) && b in Objects(fs.files) && H.HEADER + offset < H.UNIT * b.units
    ensures b.Ptr() + offset < |fs.heap.mem|
    ensures Owns(fs.(heap := fs.heap.(mem := fs.heap.mem[b.Ptr() + offset := value])), live, stray)
  {
    assert b in multiset(live);
    WriteKeeps(fs.heap, live, b, offset, value);
  }

  // ----- mount -----

  /** A fresh mount satisfies the invariant, stands for the empty map and has leaked nothing. */
  lemma MountIsGood(disk: Disk, heap: H.Heap, blockSize: nat)
    requires 0 < blockSize && DiskModel.Sized(disk, blockSize) && H.WellFormed(heap)
    ensures Good(Mounted(disk, heap), blockSize) && Abs(Mounted(disk, heap)) == map[]
    ensures forall b :: !Leaked(Mounted(disk, heap), b)
  {
  }

  /** A clean mount adds its context and its block map to the live blocks; the file system owns nothing yet. */
  lemma MountOwns(v: Variant, h: H.Heap, live: seq<Block>, disk: Disk)
    requires H.Inv(H.Sys(h, live)) && |disk| < TWO32 && CleanRequests(v, h.used, [CTX_SIZE, |disk|])
    requires MountHeap(v, h, |disk|).1.Some?
    ensures var h' := MountHeap(v, h, |disk|).0;
            var (ctx, room) := MountHeap(v, h, |disk|).1.value;
            var more := [BlockAt(ctx, CTX_SIZE), BlockAt(room, |disk|)];
      Owns(Mounted(disk, h'), live + more, multiset(live + more))
  {
    MountAt(v, h, |disk|);
    ServeKeeps(v, h, live, [CTX_SIZE, |disk|]);
    MountServes(v, h, |disk|);
    assert multiset{} + multiset(live + Serve(v, h, [CTX_SIZE, |disk|]).1) == multiset(live + Serve(v, h, [CTX_SIZE, |disk|]).1);
  }

  /** The heap side of mount is its two requests one after the other. */
  lemma MountServes(v: Variant, h: H.Heap, total: uint32)
    requires |h.used| == |h.mem| / H.UNIT
    ensures MountHeap(v, h, total).0 == Serve(v, h, [CTX_SIZE, total]).0
    ensures MountHeap(v, h, total).1.Some? <==> |Serve(v, h, [CTX_SIZE, total]).1| == 2
  {
    ServeTwo(v, h, CTX_SIZE, total);
    hide H.Alloc, Serve;
  }

  /** And its results are the addresses of their blocks. */
  lemma MountAt(v: Variant, h: H.Heap, total: uint32)
    requires |h.used| == |h.mem| / H.UNIT && MountHeap(v, h, total).1.Some?
    ensures var (ctx, room) := MountHeap(v, h, total).1.value;
      Serve(v, h, [CTX_SIZE, total]).1 == [BlockAt(ctx, CTX_SIZE), BlockAt(room, total)]
  {
    ServeTwo(v, h, CTX_SIZE, total);
    hide H.Alloc, Serve;
  }

  /**
   A failed mount gives the heap back exactly when its first request is the refused one: when there was
   no room for the context.
   */
  lemma FailedMountRestoresIff(v: Variant, h: H.Heap, total: uint32)
    requires H.WellFormed(h) && CleanRequests(v, h.used, [CTX_SIZE, total])
    ensures var (h', granted) := MountHeap(v, h, total);
      && (granted.Some? <==> Room(h.used, [CTX_SIZE, total]) == 2)
      && (h'.used == h.used <==> !Granted(h.used, CTX_SIZE))
  {
    MountServes(v, h, total);
    hide MountHeap, Serve, Granted, CleanRequests;
    ServeFills(v, h, [CTX_SIZE, total]);
    ServeRestoresIff(v, h, [CTX_SIZE, total]);
  }

  // ----- the map -----

  /**
   From mount, every operation of every clean run is a step of the map from names to bytes, and every
   node, table, dropped table, context and block map keeps a live block of its own.
   */
  lemma RunRefines(v: Variant, blockSize: nat, start: Fs, live: seq<Block>, stray: multiset<Block>, run: seq<Event>)
    requires Good(start, blockSize) && Owns(start, live, stray) && IsRun(v, blockSize, start, run)
    requires CleanRun(v, blockSize, run, |run|)
    ensures forall i :: 0 <= i < |run| ==>
      MapStep(Abs(run[i].before), run[i].op, run[i].code, run[i].out, Abs(run[i].after))
    ensures forall i :: 0 <= i <= |run| ==>
      Owns(StateAt(start, run, i), LiveAt(v, blockSize, live, run, i), StrayAt(stray, run, i))
  {
    RunOwnsIff(v, blockSize, start, live, stray, run);
    hide Owns, LiveAt, StrayAt;
    forall i | 0 <= i < |run|
      ensures MapStep(Abs(run[i].before), run[i].op, run[i].code, run[i].out, Abs(run[i].after))
    {
      EventRefines(v, blockSize, start, run, i);
    }
  }

  lemma EventRefines(v: Variant, blockSize: nat, start: Fs, run: seq<Event>, i: nat)
    requires Good(start, blockSize) && IsRun(v, blockSize, start, run) && i < |run|
    ensures Good(run[i].before, blockSize)
    ensures MapStep(Abs(run[i].before), run[i].op, run[i].code, run[i].out, Abs(run[i].after))
  {
    RunStaysGood(v, blockSize, start, run, i);
    hide Good, Step, Abs, MapStep, Acceptable;
    assert IsEvent(v, blockSize, run[i]);
    StepOnValues(v, blockSize, run[i].before, run[i].op);
  }

  ghost function PlainRun(m: map<string, seq<byte>>, run: seq<Event>, n: nat): map<string, seq<byte>>
    requires n <= |run|
  {
    if n == 0 then m else PlainNext(PlainRun(m, run, n - 1), run[n - 1].op)
  }

  /**
   With enough room before every create and write, a clean run from mount is a map from names to bytes:
   each read delivers first the bytes last written to its name, and every object keeps its own block.
   */
  lemma {:induction false} RoomyRunIsPlainMap(v: Variant, blockSize: nat, start: Fs, live: seq<Block>,
                                              stray: multiset<Block>, run: seq<Event>, n: nat)
    requires Good(start, blockSize) && Abs(start) == map[] && Owns(start, live, stray)
    requires IsRun(v, blockSize, start, run) && n < |run| && CleanRun(v, blockSize, run, n + 1)
    requires forall i :: 0 <= i <= n ==> EnoughRoom(v, blockSize, run[i].before, run[i].op)
    ensures Owns(run[n].after, LiveAt(v, blockSize, live, run, n + 1), StrayAt(stray, run, n + 1))
    ensures SameMap(PlainRun(map[], run, n), Abs(run[n].before))
    ensures SameMap(PlainRun(map[], run, n + 1), Abs(run[n].after))
    ensures var m := PlainRun(map[], run, n);
      run[n].op.Read? && run[n].op.name in m ==> run[n].code == 0 && m[run[n].op.name] <= run[n].out
  {
    CleanRunOwns(v, blockSize, start, live, stray, run, n + 1);
    RoomyValues(v, blockSize, start, run, n);
  }

  lemma {:induction false} RoomyValues(v: Variant, blockSize: nat, start: Fs, run: seq<Event>, n: nat)
    requires Good(start, blockSize) && Abs(start) == map[] && IsRun(v, blockSize, start, run) && n < |run|
    requires forall i :: 0 <= i <= n ==> EnoughRoom(v, blockSize, run[i].before, run[i].op)
    ensures SameMap(PlainRun(map[], run, n), Abs(run[n].before))
    ensures SameMap(PlainRun(map[], run, n + 1), Abs(run[n].after))
    ensures var m := PlainRun(map[], run, n);
      run[n].op.Read? && run[n].op.name in m ==> run[n].code == 0 && m[run[n].op.name] <= run[n].out
  {
    if n > 0 {
      RoomyValues(v, blockSize, start, run, n - 1);
    }
    EventRefines(v, blockSize, start, run, n);
    var e := run[n];
    assert EnoughRoom(v, blockSize, e.before, e.op);
    assert IsEvent(v, blockSize, e);
    RoomSuffices(v, blockSize, e.before, e.op);
    hide EnoughRoom, Good, Step, Abs, MapStep, IsEvent, PlainNext, SameMap;
    assert SameMap(PlainRun(map[], run, n), Abs(e.before));
    PlainStep(PlainRun(map[], run, n), Abs(e.before), e.op, e.code, e.out, Abs(e.after));
  }

  // ----- leaks -----

  lemma {:induction false} RunLeaksOnValues(v: Variant, blockSize: nat, start: Fs, run: seq<Event>, n: nat, b: nat)
    requires Good(start, blockSize) && IsRun(v, blockSize, start, run) && n < |run|
    ensures Leaked(run[n].after, b) <==>
      Leaked(start, b) || exists i :: 0 <= i <= n && Dropped(run[i].before, run[i].op, b)
  {
    if n > 0 {
      RunLeaksOnValues(v, blockSize, start, run, n - 1, b);
    }
    RunStaysGood(v, blockSize, start, run, n);
    assert IsEvent(v, blockSize, run[n]);
    hide Good, Step, Dropped, Leaked;
    StepLeaksOnValues(v, blockSize, run[n].before, run[n].op, b);
  }

  /**
   Over a clean run the leaked device blocks are exactly those dropped by some write, and the heap blocks
   that belong to no file are those from the start and the tables dropped by the same writes.
   */
  lemma RunLeaks(v: Variant, blockSize: nat, start: Fs, live: seq<Block>, stray: multiset<Block>,
                 run: seq<Event>, n: nat, b: nat)
    requires Good(start, blockSize) && Owns(start, live, stray) && IsRun(v, blockSize, start, run)
    requires n < |run| && CleanRun(v, blockSize, run, n + 1)
    ensures Leaked(run[n].after, b) <==>
      Leaked(start, b) || exists i :: 0 <= i <= n && Dropped(run[i].before, run[i].op, b)
    ensures Owns(run[n].after, LiveAt(v, blockSize, live, run, n + 1), StrayAt(stray, run, n + 1))
  {
    CleanRunOwns(v, blockSize, start, live, stray, run, n + 1);
    hide Owns, CleanRun, LiveAt, StrayAt;
    RunLeaksOnValues(v, blockSize, start, run, n, b);
  }
}

/**
 The heap of kernel/memory/mem_alloc.c as a value: which units are marked used, and the bytes the
 in-band headers live in. The class in heap.dfy is proved to compute exactly these functions.
 */
module HeapModel {
  import opened Words
  import opened Search

  const UNIT: nat := 8
  const HEADER: nat := 4
  const MAGIC: nat := 0xBEEF
  const MAX_UNITS: nat := 65535

  datatype Heap = Heap(used: seq<bool>, mem: seq<byte>)

  ghost predicate WellFormed(h: Heap) {
    |h.used| == |h.mem| / UNIT && |h.used| <= MAX_UNITS
  }

  /** Units asked of the search; both additions wrap as `size_t` does. */
  function UnitsFor(size: uint32): nat {
    ((size + HEADER) % TWO32 + UNIT - 1) % TWO32 / UNIT
  }

  function Word16(mem: seq<byte>, a: nat): nat
    requires a + 2 <= |mem|
  {
    mem[a] as int + 256 * mem[a + 1] as int
  }

  function PutWord16(mem: seq<byte>, a: nat, v: nat): (r: seq<byte>)
    requires a + 2 <= |mem|
    ensures |r| == |mem|
    ensures forall i :: 0 <= i < |mem| && i != a && i != a + 1 ==> r[i] == mem[i]
    ensures Word16(r, a) == v % 65536
  {
    mem[a := v % 256][a + 1 := v / 256 % 256]
  }

  function Mark(used: seq<bool>, start: nat, units: nat, value: bool): (r: seq<bool>)
    ensures |r| == |used|
    ensures forall i :: 0 <= i < |used| ==> r[i] == if start <= i < start + units then value else used[i]
  {
    seq(|used|, i requires 0 <= i < |used| => if start <= i < start + units then value else used[i])
  }

  /** `mem_alloc`: the new heap and the offset of the payload, `None` standing for NULL. */
  function Alloc(v: Variant, h: Heap, size: uint32): (r: (Heap, Option<nat>))
    requires |h.used| == |h.mem| / UNIT
    ensures |r.0.used| == |h.used| && |r.0.mem| == |h.mem|
    ensures r.1.Some? ==> HEADER <= r.1.value <= |h.mem|
  {
    if size == 0 then (h, None)
    else
      var units := UnitsFor(size);
      var start := Find(v, h.used, units);
      if start < 0 then (h, None)
      else
        Window(v, h.used, units);
        var mem := PutWord16(PutWord16(h.mem, UNIT * start, MAGIC), UNIT * start + 2, units);
        (Heap(Mark(h.used, start, units, true), mem), Some(UNIT * start + HEADER))
  }

  /** With the intended search a request is granted exactly when its units fit somewhere. */
  lemma GrantedIff(h: Heap, size: uint32)
    requires WellFormed(h)
    ensures Alloc(WithReset, h, size).1.Some? <==>
      size != 0 && UnitsFor(size) >= 1 && exists s: nat :: Fits(h.used, UnitsFor(size), s)
  {
    var units := UnitsFor(size);
    Window(WithReset, h.used, units);
    if units >= 1 && exists s: nat :: Fits(h.used, units, s) {
      var s: nat :| Fits(h.used, units, s);
      Complete(WithReset, h.used, units, s);
    }
  }

  lemma NothingForZeroBytes(v: Variant, h: Heap)
    requires |h.used| == |h.mem| / UNIT
    ensures Alloc(v, h, 0) == (h, None)
  {
  }

  /** `mem_free`; a pointer outside the heap is not one the source allows, and changes nothing here. */
  function Free(h: Heap, ptr: Option<nat>): (r: Heap)
    ensures |r.used| == |h.used| && |r.mem| == |h.mem|
  {
    if ptr.None? || ptr.value < HEADER || ptr.value > |h.mem| then h
    else
      var a := ptr.value - HEADER;
      if Word16(h.mem, a) != MAGIC then h
      else Heap(Mark(h.used, a / UNIT, Word16(h.mem, a + 2), false), PutWord16(h.mem, a, 0))
  }

  // ----- live blocks -----

  /** A block handed out and not yet returned: its units and the size that was asked for. */
  datatype Block = Block(start: nat, units: nat, size: uint32) {
    function End(): nat { start + units }
    function Ptr(): nat { UNIT * start + HEADER }
    ghost predicate Covers(i: int) { start <= i < End() }
  }

  ghost predicate Apart(b: Block, c: Block) {
    b.End() <= c.start || c.End() <= b.start
  }

  ghost predicate InRange(h: Heap, b: Block) {
    b.units >= 1 && b.End() <= |h.used|
  }

  ghost predicate HeaderIntact(h: Heap, b: Block)
    requires WellFormed(h)
  {
    InRange(h, b) && Word16(h.mem, UNIT * b.start) == MAGIC && Word16(h.mem, UNIT * b.start + 2) == b.units
  }

  datatype Sys = Sys(heap: Heap, live: seq<Block>)

  ghost predicate Sized(s: Sys) {
    WellFormed(s.heap) && forall k :: 0 <= k < |s.live| ==> InRange(s.heap, s.live[k])
  }

  ghost predicate Covered(live: seq<Block>, i: int) {
    exists k :: 0 <= k < |live| && live[k].Covers(i)
  }

  ghost predicate PairwiseApart(live: seq<Block>) {
    forall j, k :: 0 <= j < k < |live| ==> Apart(live[j], live[k])
  }

  /** Used units are exactly the disjoint union of the live blocks. */
  ghost predicate Partition(used: seq<bool>, live: seq<Block>) {
    && (forall k :: 0 <= k < |live| ==> live[k].End() <= |used|)
    && PairwiseApart(live)
    && (forall i :: 0 <= i < |used| ==> (used[i] <==> Covered(live, i)))
  }

  ghost predicate HeadersIntact(s: Sys)
    requires WellFormed(s.heap)
  {
    forall k :: 0 <= k < |s.live| ==> HeaderIntact(s.heap, s.live[k])
  }

  ghost predicate Inv(s: Sys) {
    Sized(s) && Partition(s.heap.used, s.live) && HeadersIntact(s)
  }

  // ----- steps and runs -----

  /** A request, the return of the k-th live block, or a client's write inside its own block. */
  datatype Op = Allocate(size: uint32) | Release(k: nat) | Poke(k: nat, offset: nat, value: byte)

  ghost predicate Enabled(s: Sys, op: Op) {
    match op
    case Allocate(_) => true
    case Release(k) => k < |s.live|
    case Poke(k, offset, _) => k < |s.live| && HEADER + offset < UNIT * s.live[k].units
  }

  ghost function Step(v: Variant, s: Sys, op: Op): Sys
    requires Sized(s) && Enabled(s, op)
  {
    match op
    case Allocate(size) =>
      var (heap, ptr) := Alloc(v, s.heap, size);
      Sys(heap, if ptr.None? then s.live else s.live + [Block((ptr.value - HEADER) / UNIT, UnitsFor(size), size)])
    case Release(k) =>
      Sys(Free(s.heap, Some(s.live[k].Ptr())), Without(s.live, k))
    case Poke(k, offset, value) =>
      Sys(s.heap.(mem := s.heap.mem[s.live[k].Ptr() + offset := value]), s.live)
  }

  /**
   Leaving the full words out of the bitmap does not change where the plain first fit for the request
   lies. This speaks of the bitmap and the request alone; with the reset nothing is asked.
   */
  ghost predicate CleanRequest(v: Variant, used: seq<bool>, size: uint32) {
    v.AsWritten? && size != 0 && UnitsFor(size) >= 1 ==>
      FirstFit(used, UnitsFor(size), 0) == SqueezedFit(used, UnitsFor(size))
  }

  ghost predicate Clean(v: Variant, s: Sys, op: Op) {
    op.Allocate? ==> CleanRequest(v, s.heap.used, op.size)
  }

  ghost predicate IsRun(v: Variant, states: seq<Sys>, ops: seq<Op>) {
    && |states| == |ops| + 1
    && forall i :: 0 <= i < |ops| ==>
      Sized(states[i]) && Enabled(states[i], ops[i]) && states[i + 1] == Step(v, states[i], ops[i])
  }

  /** Requests are clean exactly when the search answers as the intended one does. */
  lemma CleanIffSameAnswer(v: Variant, used: seq<bool>, size: uint32)
    requires size != 0
    ensures CleanRequest(v, used, size) <==> Find(v, used, UnitsFor(size)) == Find(WithReset, used, UnitsFor(size))
  {
    var units := UnitsFor(size);
    if units == 0 {
      NothingForNothing(v, used, 0, 0, -1);
      NothingForNothing(WithReset, used, 0, 0, -1);
    } else {
      WrittenSearchIsSqueezedFit(used, units);
      ResetSearchIsFirstFit(used, units);
    }
  }

  /** A granted request is clean exactly when all units of its window are free. */
  lemma CleanWindowFits(v: Variant, used: seq<bool>, size: uint32)
    requires size != 0 && Find(v, used, UnitsFor(size)) != -1
    ensures CleanRequest(v, used, size) <==> Fits(used, UnitsFor(size), Find(v, used, UnitsFor(size)))
  {
    var units := UnitsFor(size);
    CleanIffSameAnswer(v, used, size);
    Window(v, used, units);
    Window(WithReset, used, units);
    if v.AsWritten? {
      SearchesAgreeIff(used, units);
      WindowFreeIffNoFullWordInside(used, units);
    }
  }

  lemma RefusedIsClean(v: Variant, used: seq<bool>, size: uint32)
    requires size != 0 && Find(v, used, UnitsFor(size)) == -1
    ensures CleanRequest(v, used, size)
  {
    var units := UnitsFor(size);
    CleanIffSameAnswer(v, used, size);
    Window(WithReset, used, units);
    if Find(WithReset, used, units) != -1 {
      Complete(v, used, units, Find(WithReset, used, units));
    }
  }

  /** A granted request writes the header of its own block and of no block apart from it. */
  lemma AllocateHeaders(v: Variant, s: Sys, b: Block)
    requires Sized(s) && b.size != 0 && b.units == UnitsFor(b.size) && b.start == Find(v, s.heap.used, b.units)
    ensures var t := Step(v, s, Allocate(b.size));
            && t.live == s.live + [b]
            && t.heap.used == Mark(s.heap.used, b.start, b.units, true)
            && Sized(t) && HeaderIntact(t.heap, b)
            && (forall c :: Apart(b, c) && HeaderIntact(s.heap, c) ==> HeaderIntact(t.heap, c))
  {
    Window(v, s.heap.used, b.units);
    assert b.units % 65536 == b.units;
  }

  lemma ApartFromFreeWindow(s: Sys, b: Block, k: nat)
    requires Inv(s) && b.units >= 1 && k < |s.live|
    requires Fits(s.heap.used, b.units, b.start)
    ensures Apart(b, s.live[k])
  {
    var c := s.live[k];
    assert c.Covers(b.start) ==> Covered(s.live, b.start);
    assert c.Covers(c.start) && Covered(s.live, c.start);
  }

  lemma AllocateKeepsIff(v: Variant, s: Sys, size: uint32)
    requires Inv(s)
    ensures Inv(Step(v, s, Allocate(size))) <==> Clean(v, s, Allocate(size))
  {
    var units := UnitsFor(size);
    if size != 0 && Find(v, s.heap.used, units) != -1 {
      Window(v, s.heap.used, units);
      var b := Block(Find(v, s.heap.used, units), units, size);
      var t := Step(v, s, Allocate(size));
      AllocateHeaders(v, s, b);
      CleanWindowFits(v, s.heap.used, size);
      if Fits(s.heap.used, units, b.start) {
        FittingBlockJoins(s, b, t);
      } else {
        UsedWindowBreaks(s, b, t);
      }
    } else if size != 0 {
      RefusedIsClean(v, s.heap.used, size);
    }
  }

  lemma FittingBlockJoins(s: Sys, b: Block, t: Sys)
    requires Inv(s) && Sized(t) && t.live == s.live + [b]
    requires t.heap.used == Mark(s.heap.used, b.start, b.units, true)
    requires Fits(s.heap.used, b.units, b.start) && HeaderIntact(t.heap, b)
    requires forall c :: Apart(b, c) && HeaderIntact(s.heap, c) ==> HeaderIntact(t.heap, c)
    ensures Inv(t)
  {
    assert InRange(t.heap, t.live[|s.live|]);
    forall k | 0 <= k < |s.live| ensures Apart(b, s.live[k]) && HeaderIntact(t.heap, s.live[k]) {
      ApartFromFreeWindow(s, b, k);
      assert InRange(s.heap, s.live[k]);
    }
    AddPartition(s.heap.used, s.live, b);
  }

  lemma UsedWindowBreaks(s: Sys, b: Block, t: Sys)
    requires Inv(s) && t.live == s.live + [b] && b.End() <= |s.heap.used|
    requires !Fits(s.heap.used, b.units, b.start)
    ensures !Inv(t)
  {
    var i :| b.start <= i < b.End() && s.heap.used[i];
    assert Covered(s.live, i);
    var k :| 0 <= k < |s.live| && s.live[k].Covers(i);
    assert !Apart(t.live[k], t.live[|s.live|]);
  }

  /** Marking the units of a block apart from all others extends a partition. */
  lemma AddPartition(used: seq<bool>, live: seq<Block>, b: Block)
    requires Partition(used, live) && b.End() <= |used|
    requires forall k :: 0 <= k < |live| ==> Apart(b, live[k])
    ensures Partition(Mark(used, b.start, b.units, true), live + [b])
  {
    var more := live + [b];
    forall i | 0 <= i < |used| ensures Covered(more, i) <==> Covered(live, i) || b.Covers(i) {
      if Covered(live, i) {
        var k :| 0 <= k < |live| && live[k].Covers(i);
        assert more[k].Covers(i);
      }
      assert more[|live|] == b;
    }
  }

  lemma WithoutCovered(live: seq<Block>, k: nat, i: int)
    requires PairwiseApart(live) && k < |live|
    ensures Covered(Without(live, k), i) <==> Covered(live, i) && !live[k].Covers(i)
  {
    var rest := Without(live, k);
    if Covered(live, i) && !live[k].Covers(i) {
      var j :| 0 <= j < |live| && live[j].Covers(i);
      assert rest[if j < k then j else j - 1].Covers(i);
    }
    if Covered(rest, i) {
      var j :| 0 <= j < |rest| && rest[j].Covers(i);
      assert live[if j < k then j else j + 1].Covers(i);
    }
  }

  /** Dropping the k-th block from a partition, with its units cleared, leaves a partition. */
  lemma DropPartition(used: seq<bool>, live: seq<Block>, k: nat)
    requires Partition(used, live) && k < |live|
    ensures Partition(Mark(used, live[k].start, live[k].units, false), Without(live, k))
  {
    forall i | 0 <= i < |used| ensures Covered(Without(live, k), i) <==> used[i] && !live[k].Covers(i) {
      WithoutCovered(live, k, i);
    }
  }

  lemma FreeLive(h: Heap, b: Block)
    requires WellFormed(h) && HeaderIntact(h, b)
    ensures Free(h, Some(b.Ptr())) == Heap(Mark(h.used, b.start, b.units, false), PutWord16(h.mem, UNIT * b.start, 0))
  {
    assert b.Ptr() - HEADER == UNIT * b.start;
  }

  lemma ReleaseHeaders(s: Sys, k: nat)
    requires Sized(s) && HeadersIntact(s) && PairwiseApart(s.live) && k < |s.live|
    ensures var t := Sys(Free(s.heap, Some(s.live[k].Ptr())), Without(s.live, k));
            Sized(t) && HeadersIntact(t)
  {
    var b := s.live[k];
    FreeLive(s.heap, b);
    var rest := Without(s.live, k);
    var heap := Free(s.heap, Some(b.Ptr()));
    forall j | 0 <= j < |rest| ensures InRange(heap, rest[j]) && HeaderIntact(heap, rest[j]) {
      var m := if j < k then j else j + 1;
      assert Apart(s.live[m], b) && HeaderIntact(s.heap, s.live[m]);
    }
  }

  lemma ReleaseKeeps(v: Variant, s: Sys, k: nat)
    requires Inv(s) && k < |s.live|
    ensures Inv(Step(v, s, Release(k)))
    ensures Step(v, s, Release(k)).heap.used == Mark(s.heap.used, s.live[k].start, s.live[k].units, false)
    ensures Step(v, s, Release(k)).live == Without(s.live, k)
  {
    FreeLive(s.heap, s.live[k]);
    ReleaseHeaders(s, k);
    DropPartition(s.heap.used, s.live, k);
  }

  lemma PokeKeeps(v: Variant, s: Sys, k: nat, offset: nat, value: byte)
    requires Inv(s) && Enabled(s, Poke(k, offset, value))
    ensures Inv(Step(v, s, Poke(k, offset, value)))
  {
    var t := Step(v, s, Poke(k, offset, value));
    var b := s.live[k];
    assert InRange(s.heap, b);
    forall j | 0 <= j < |t.live| ensures InRange(t.heap, t.live[j]) && HeaderIntact(t.heap, t.live[j]) {
      assert InRange(s.heap, s.live[j]) && HeaderIntact(s.heap, s.live[j]);
      assert j == k || Apart(s.live[j], b);
    }
  }

  /** One step keeps the invariant exactly when it is clean. */
  lemma StepKeepsIff(v: Variant, s: Sys, op: Op)
    requires Inv(s) && Enabled(s, op)
    ensures Inv(Step(v, s, op)) <==> Clean(v, s, op)
  {
    match op
    case Allocate(size) => AllocateKeepsIff(v, s, size);
    case Release(k) => ReleaseKeeps(v, s, k);
    case Poke(k, offset, value) => PokeKeeps(v, s, k, offset, value);
  }

  lemma CleanRunKeeps(v: Variant, states: seq<Sys>, ops: seq<Op>, n: nat)
    requires IsRun(v, states, ops) && Inv(states[0]) && n <= |ops|
    requires forall i :: 0 <= i < n ==> Clean(v, states[i], ops[i])
    ensures Inv(states[n])
  {
    if n > 0 {
      CleanRunKeeps(v, states, ops, n - 1);
      StepKeepsIff(v, states[n - 1], ops[n - 1]);
    }
  }

  /** Every run, of either search: the invariant holds throughout exactly when every step is clean. */
  lemma RunKeepsIff(v: Variant, states: seq<Sys>, ops: seq<Op>)
    requires IsRun(v, states, ops) && Inv(states[0])
    ensures (forall i :: 0 <= i < |states| ==> Inv(states[i]))
       <==> (forall i :: 0 <= i < |ops| ==> Clean(v, states[i], ops[i]))
  {
    if forall i :: 0 <= i < |ops| ==> Clean(v, states[i], ops[i]) {
      forall i | 0 <= i < |states| ensures Inv(states[i]) {
        CleanRunKeeps(v, states, ops, i);
      }
    } else {
      var i :| 0 <= i < |ops| && !Clean(v, states[i], ops[i]);
      if Inv(states[i]) {
        StepKeepsIff(v, states[i], ops[i]);
        assert !Inv(states[i + 1]);
      }
    }
  }

  /** With the reset, every run of requests, returns and client writes keeps the invariant. */
  lemma ResetRunKeeps(states: seq<Sys>, ops: seq<Op>)
    requires IsRun(WithReset, states, ops) && Inv(states[0])
    ensures forall i :: 0 <= i < |states| ==> Inv(states[i])
  {
    RunKeepsIff(WithReset, states, ops);
  }

  /** After `mem_init` the invariant holds with no live block. */
  lemma InitialInv(h: Heap)
    requires WellFormed(h) && forall i :: 0 <= i < |h.used| ==> !h.used[i]
    ensures Inv(Sys(h, []))
  {
  }

  /**
   The payload promised by a granted request lies inside its block exactly when adding the header
   did not wrap; for the three largest sizes a one-unit block is handed out instead.
   */
  lemma PayloadFits(b: Block)
    requires b.units == UnitsFor(b.size)
    ensures b.units >= 1 ==> (b.Ptr() + b.size <= UNIT * b.End() <==> b.size <= TWO32 - 4)
  {
    var s := b.size;
    if s <= TWO32 - 12 {
      assert UnitsFor(s) == (s + 11) / 8;
    } else if s <= TWO32 - 4 {
      assert UnitsFor(s) == 0;
    } else {
      assert UnitsFor(s) <= 1;
    }
  }

  /** Every live block has the units its request asked for. */
  ghost predicate Genuine(live: seq<Block>) {
    forall k :: 0 <= k < |live| ==> live[k].units == UnitsFor(live[k].size)
  }

  /**
   Over every run of either search that stays clean, starting from an empty heap: the payloads of
   distinct live blocks lie inside the heap and share no byte with each other.
   */
  lemma PayloadsStayApart(v: Variant, states: seq<Sys>, ops: seq<Op>, n: nat, j: nat, k: nat)
    requires IsRun(v, states, ops) && Inv(states[0]) && states[0].live == [] && n <= |ops|
    requires forall i :: 0 <= i < |ops| ==> Clean(v, states[i], ops[i])
    requires j < |states[n].live| && k < |states[n].live| && j != k
    requires states[n].live[j].size <= TWO32 - 4 && states[n].live[k].size <= TWO32 - 4
    ensures var b, c := states[n].live[j], states[n].live[k];
            && b.Ptr() + b.size <= |states[n].heap.mem|
            && (b.Ptr() + b.size <= c.Ptr() - HEADER || c.Ptr() + c.size <= b.Ptr() - HEADER)
  {
    CleanRunKeeps(v, states, ops, n);
    RunKeepsGenuine(v, states, ops, n);
    var b, c := states[n].live[j], states[n].live[k];
    assert HeaderIntact(states[n].heap, b) && HeaderIntact(states[n].heap, c);
    PayloadFits(b);
    PayloadFits(c);
    assert Apart(states[n].live[if j < k then j else k], states[n].live[if j < k then k else j]);
  }

  lemma RunKeepsGenuine(v: Variant, states: seq<Sys>, ops: seq<Op>, n: nat)
    requires IsRun(v, states, ops) && Genuine(states[0].live) && n <= |ops|
    ensures Genuine(states[n].live)
  {
    if n > 0 {
      RunKeepsGenuine(v, states, ops, n - 1);
      assert states[n - 1 + 1] == Step(v, states[n - 1], ops[n - 1]);
    }
  }

  // ----- conservation -----

  lemma {:induction false} CountClearMark(used: seq<bool>, start: nat, units: nat)
    requires start + units <= |used| && forall i :: start <= i < start + units ==> used[i]
    ensures CountClear(Mark(used, start, units, false)) == CountClear(used) + units
    decreases |used|
  {
    var cleared := Mark(used, start, units, false);
    var n := |used| - 1;
    if units == 0 {
      assert cleared == used;
    } else {
      var short := if start + units == |used| then units - 1 else units;
      CountClearMark(used[..n], start, short);
      assert cleared[..n] == Mark(used[..n], start, short, false);
    }
  }

  ghost function LiveUnits(live: seq<Block>): nat {
    if |live| == 0 then 0 else LiveUnits(live[..|live| - 1]) + live[|live| - 1].units
  }

  /** Free units and live units always add up to the whole heap. */
  lemma {:induction false} Conservation(used: seq<bool>, live: seq<Block>)
    requires Partition(used, live)
    ensures CountClear(used) + LiveUnits(live) == |used|
    decreases |live|
  {
    if |live| == 0 {
      AllClear(used);
    } else {
      var k := |live| - 1;
      var b := live[k];
      forall i | b.start <= i < b.End() ensures used[i] {
        assert live[k].Covers(i);
      }
      DropPartition(used, live, k);
      assert Without(live, k) == live[..k];
      CountClearMark(used, b.start, b.units);
      Conservation(Mark(used, b.start, b.units, false), live[..k]);
    }
  }

  /** Returning every live block, in whatever order, leaves no unit used. */
  lemma {:induction false} ReleasingAllEmpties(v: Variant, states: seq<Sys>, ops: seq<Op>)
    requires IsRun(v, states, ops) && Inv(states[0])
    requires (forall op <- ops :: op.Release?) && |ops| == |states[0].live|
    ensures states[|ops|].live == [] && forall i :: 0 <= i < |states[|ops|].heap.used| ==> !states[|ops|].heap.used[i]
    decreases |ops|
  {
    if |ops| > 0 {
      assert ops[0] in ops;
      ReleaseKeeps(v, states[0], ops[0].k);
      ReleasingAllEmpties(v, states[1..], ops[1..]);
    }
  }

  // ----- releasing twice -----

  ghost predicate NoMagicAt(h: Heap, start: nat) {
    UNIT * start + 2 <= |h.mem| && Word16(h.mem, UNIT * start) != MAGIC
  }

  lemma StepKeepsStaleHeader(v: Variant, s: Sys, op: Op, start: nat)
    requires Inv(s) && Enabled(s, op)
    requires start < |s.heap.used| && NoMagicAt(s.heap, start)
    requires !s.heap.used[start] && !Step(v, s, op).heap.used[start]
    ensures NoMagicAt(Step(v, s, op).heap, start)
  {
    match op
    case Allocate(size) =>
      if size != 0 && Find(v, s.heap.used, UnitsFor(size)) != -1 {
        Window(v, s.heap.used, UnitsFor(size));
      }
    case Release(k) =>
      var b := s.live[k];
      assert InRange(s.heap, b) && HeaderIntact(s.heap, b);
      assert b.Covers(b.start) && Covered(s.live, b.start);
    case Poke(k, offset, value) =>
      var b := s.live[k];
      assert InRange(s.heap, b);
      assert b.Covers(start) ==> Covered(s.live, start);
  }

  lemma ReleaseClearsMagic(v: Variant, s: Sys, k: nat)
    requires Inv(s) && k < |s.live|
    ensures NoMagicAt(Step(v, s, Release(k)).heap, s.live[k].start)
  {
    assert InRange(s.heap, s.live[k]) && HeaderIntact(s.heap, s.live[k]);
  }

  lemma RunKeepsStaleHeader(v: Variant, states: seq<Sys>, ops: seq<Op>, start: nat, n: nat)
    requires IsRun(v, states, ops) && n <= |ops|
    requires forall i :: 0 <= i <= n ==>
      Inv(states[i]) && start < |states[i].heap.used| && !states[i].heap.used[start]
    requires NoMagicAt(states[0].heap, start)
    ensures NoMagicAt(states[n].heap, start)
  {
    if n > 0 {
      RunKeepsStaleHeader(v, states, ops, start, n - 1);
      assert !states[n].heap.used[start];
      StepKeepsStaleHeader(v, states[n - 1], ops[n - 1], start);
    }
  }

  /**
   A returned block may be returned again after any further run without effect, as long as the run
   never handed out the unit that held its header.
   */
  lemma SecondReleaseChangesNothing(v: Variant, s: Sys, k: nat, states: seq<Sys>, ops: seq<Op>)
    requires Inv(s) && k < |s.live|
    requires IsRun(v, states, ops) && states[0] == Step(v, s, Release(k))
    requires forall i :: 0 <= i < |ops| ==> Clean(v, states[i], ops[i])
    requires forall i :: 0 <= i < |states| ==>
      s.live[k].start < |states[i].heap.used| && !states[i].heap.used[s.live[k].start]
    ensures var last := states[|ops|].heap;
            s.live[k].Ptr() <= |last.mem| && Free(last, Some(s.live[k].Ptr())) == last
  {
    ReleaseKeeps(v, s, k);
    ReleaseClearsMagic(v, s, k);
    RunKeepsIff(v, states, ops);
    RunKeepsStaleHeader(v, states, ops, s.live[k].start, |ops|);
    assert Inv(states[|ops|]);
  }

  // ----- one block taken and returned -----

  /** Taking a block and returning it at once restores the bitmap exactly when its window was free. */
  lemma TakeAndReturn(v: Variant, h: Heap, size: uint32)
    requires WellFormed(h) && Alloc(v, h, size).1.Some?
    ensures var (h', ptr) := Alloc(v, h, size);
            Free(h', ptr).used == h.used <==> Fits(h.used, UnitsFor(size), Find(v, h.used, UnitsFor(size)))
  {
    var units := UnitsFor(size);
    var start := Find(v, h.used, units);
    var (h', ptr) := Alloc(v, h, size);
    FreshHeader(v, h, size);
    hide Alloc, Free, UnitsFor, Find;
    FreeLive(h', Block(start, units, size));
    var back := Free(h', ptr).used;
    if Fits(h.used, units, start) {
      MarkUndone(h.used, start, units);
    } else {
      var i :| start <= i < start + units && h.used[i];
      assert !back[i];
    }
  }

  /** What `Free` finds at a pointer that `Alloc` has just returned. */
  lemma FreshHeader(v: Variant, h: Heap, size: uint32)
    requires WellFormed(h) && Alloc(v, h, size).1.Some?
    ensures var (h', ptr) := Alloc(v, h, size);
            var start := Find(v, h.used, UnitsFor(size));
      && WellFormed(h') && ptr == Some(UNIT * start + HEADER)
      && start >= 0 && start + UnitsFor(size) <= |h.used| && UnitsFor(size) >= 1
      && h'.used == Mark(h.used, start, UnitsFor(size), true)
      && HeaderIntact(h', Block(start, UnitsFor(size), size))
  {
    Window(v, h.used, UnitsFor(size));
    assert UnitsFor(size) % 65536 == UnitsFor(size);
  }

  /** The units taken are as few as hold header and payload. */
  lemma UnitsAreLeast(size: uint32)
    requires size <= TWO32 - HEADER - UNIT
    ensures UNIT * UnitsFor(size) - UNIT < HEADER + size <= UNIT * UnitsFor(size)
  {
  }

  /**
   The four bytes before a granted pointer are EF BE and the number of units, the lower byte first; no other byte
   changes.
   */
  lemma HeaderWritten(v: Variant, h: Heap, size: uint32)
    requires WellFormed(h) && Alloc(v, h, size).1.Some?
    ensures var (h', ptr) := Alloc(v, h, size);
            var a := ptr.value - 4;
      && ptr.value % 8 == 4 && a + 4 <= |h.mem|
      && h'.mem[a..a + 4] == [0xEF, 0xBE, UnitsFor(size) % 256, UnitsFor(size) / 256]
      && forall k :: 0 <= k < |h.mem| && !(a <= k < a + 4) ==> h'.mem[k] == h.mem[k]
  {
    FreshHeader(v, h, size);
    hide UnitsFor, Find;
    var units := UnitsFor(size);
    assert units / 256 % 256 == units / 256;
  }

  /**
   Taking two blocks and returning them in reverse order restores the bitmap exactly when both windows
   were free before the first was taken.
   */
  lemma TakeTwoAndReturn(v: Variant, h: Heap, first: uint32, second: uint32)
    requires WellFormed(h)
    requires Alloc(v, h, first).1.Some? && Alloc(v, Alloc(v, h, first).0, second).1.Some?
    ensures var (h1, p) := Alloc(v, h, first);
            var (h2, q) := Alloc(v, h1, second);
            Free(Free(h2, q), p).used == h.used <==>
            && Fits(h.used, UnitsFor(first), Find(v, h.used, UnitsFor(first)))
            && Fits(h.used, UnitsFor(second), Find(v, h1.used, UnitsFor(second)))
  {
    TwoReturned(v, h, first, second);
    var h1 := Alloc(v, h, first).0;
    FreshHeader(v, h, first);
    FreshHeader(v, h1, second);
    hide Alloc, Free, UnitsFor, Find, Mark, Fits;
    var a := Block(Find(v, h.used, UnitsFor(first)), UnitsFor(first), first);
    var b := Block(Find(v, h1.used, UnitsFor(second)), UnitsFor(second), second);
    MarkTwoUndoneIff(h.used, a, b);
  }

  lemma TwoReturned(v: Variant, h: Heap, first: uint32, second: uint32)
    requires WellFormed(h)
    requires Alloc(v, h, first).1.Some? && Alloc(v, Alloc(v, h, first).0, second).1.Some?
    ensures var (h1, p) := Alloc(v, h, first);
            var (h2, q) := Alloc(v, h1, second);
            var (a, b) := (Find(v, h.used, UnitsFor(first)), Find(v, h1.used, UnitsFor(second)));
      && a >= 0 && b >= 0
      && Free(Free(h2, q), p).used == Mark(Mark(h2.used, b, UnitsFor(second), false), a, UnitsFor(first), false)
  {
    hide Alloc, Free, UnitsFor, Find, HeaderIntact;
    var (h1, p) := Alloc(v, h, first);
    var (h2, q) := Alloc(v, h1, second);
    FreshHeader(v, h, first);
    FreshHeader(v, h1, second);
    var a := Block(Find(v, h.used, UnitsFor(first)), UnitsFor(first), first);
    var b := Block(Find(v, h1.used, UnitsFor(second)), UnitsFor(second), second);
    NestedHeader(v, h1, a, b);
    hide Mark;
    TwoFreed(h2, a, b);
  }

  lemma TwoFreed(h2: Heap, a: Block, b: Block)
    requires WellFormed(h2) && HeaderIntact(h2, a) && HeaderIntact(h2, b) && a.start != b.start
    ensures Free(Free(h2, Some(b.Ptr())), Some(a.Ptr())).used
         == Mark(Mark(h2.used, b.start, b.units, false), a.start, a.units, false)
  {
    FreeLive(h2, b);
    var h3 := Heap(Mark(h2.used, b.start, b.units, false), PutWord16(h2.mem, UNIT * b.start, 0));
    assert HeaderIntact(h3, a);
    FreeLive(h3, a);
  }

  lemma MarkTwoUndoneIff(used: seq<bool>, a: Block, b: Block)
    requires a.End() <= |used| && b.End() <= |used|
    ensures var taken := Mark(Mark(used, a.start, a.units, true), b.start, b.units, true);
      Mark(Mark(taken, b.start, b.units, false), a.start, a.units, false) == used <==>
      Fits(used, a.units, a.start) && Fits(used, b.units, b.start)
  {
    var taken := Mark(Mark(used, a.start, a.units, true), b.start, b.units, true);
    var back := Mark(Mark(taken, b.start, b.units, false), a.start, a.units, false);
    assert forall i :: 0 <= i < |used| ==> (back[i] <==> used[i] && !a.Covers(i) && !b.Covers(i));
    if !Fits(used, a.units, a.start) {
      var i :| a.start <= i < a.End() && used[i];
      assert !back[i];
    }
    if !Fits(used, b.units, b.start) {
      var i :| b.start <= i < b.End() && used[i];
      assert !back[i];
    }
  }

  lemma MarkUndone(used: seq<bool>, start: nat, units: nat)
    requires Fits(used, units, start)
    ensures Mark(Mark(used, start, units, true), start, units, false) == used
  {
  }

  /** A header survives the taking of a later block, even of one laid over its units. */
  lemma NestedHeader(v: Variant, h1: Heap, a: Block, b: Block)
    requires WellFormed(h1) && HeaderIntact(h1, a) && h1.used[a.start]
    requires b.units == UnitsFor(b.size) && Alloc(v, h1, b.size).1.Some?
    requires b.start == Find(v, h1.used, b.units)
    ensures HeaderIntact(Alloc(v, h1, b.size).0, a) && a.start != b.start
  {
    FreshHeader(v, h1, b.size);
    Window(v, h1.used, b.units);
  }

  /** The header slot of unit `q`, if it holds a valid header, names units of the heap. */
  ghost predicate SafeUnit(h: Heap, q: nat) {
    && UNIT * q + HEADER <= |h.mem|
    && (Word16(h.mem, UNIT * q) == MAGIC ==> q + Word16(h.mem, UNIT * q + 2) <= |h.used|)
  }

  /** A block-aligned pointer that `mem_free` can take. */
  ghost predicate Freeable(h: Heap, ptr: nat) {
    exists q: nat :: ptr == UNIT * q + HEADER && SafeUnit(h, q)
  }

  lemma AllocFreeable(v: Variant, h: Heap, size: uint32)
    requires WellFormed(h)
    ensures WellFormed(Alloc(v, h, size).0)
    ensures Alloc(v, h, size).1.Some? ==> Freeable(Alloc(v, h, size).0, Alloc(v, h, size).1.value)
    ensures forall p :: Freeable(h, p) ==> Freeable(Alloc(v, h, size).0, p)
  {
    if Alloc(v, h, size).1.Some? {
      FreshHeader(v, h, size);
      var start := Find(v, h.used, UnitsFor(size));
      assert SafeUnit(Alloc(v, h, size).0, start);
      forall q: nat | SafeUnit(h, q) ensures SafeUnit(Alloc(v, h, size).0, q) {
        AllocSafeUnit(v, h, size, q);
      }
    }
  }

  lemma AllocSafeUnit(v: Variant, h: Heap, size: uint32, q: nat)
    requires WellFormed(h) && Alloc(v, h, size).1.Some? && SafeUnit(h, q)
    ensures SafeUnit(Alloc(v, h, size).0, q)
  {
    FreshHeader(v, h, size);
  }

  lemma FreeFreeable(h: Heap, ptr: Option<nat>)
    requires WellFormed(h) && (ptr.Some? ==> Freeable(h, ptr.value))
    ensures WellFormed(Free(h, ptr))
    ensures forall p :: Freeable(h, p) ==> Freeable(Free(h, ptr), p)
  {
    if ptr.Some? {
      var s: nat :| ptr.value == UNIT * s + HEADER && SafeUnit(h, s);
      forall q: nat | SafeUnit(h, q) ensures SafeUnit(Free(h, ptr), q) {
      }
    }
  }

  /** What `mem_free` demands of a pointer: a header inside the heap that, if valid, names units of the heap. */
  ghost predicate Returnable(h: Heap, ptr: nat) {
    && HEADER <= ptr <= |h.mem|
    && (Word16(h.mem, ptr - HEADER) == MAGIC ==>
          (ptr - HEADER) / UNIT + Word16(h.mem, ptr - HEADER + 2) <= |h.used|)
  }

  lemma FreeableBounds(h: Heap, ptr: nat)
    requires Freeable(h, ptr)
    ensures Returnable(h, ptr)
  {
  }

  // ----- the overlap is reachable -----

  /** Exactly the first `k` units are used. */
  ghost predicate Prefix(used: seq<bool>, k: nat) {
    forall i :: 0 <= i < |used| ==> (used[i] <==> i < k)
  }

  /** While the used units are a prefix, a request is given the units right after it. */
  lemma AllocateNext(s: Sys, size: uint32, units: nat, k: nat)
    requires Inv(s) && Prefix(s.heap.used, k) && k + units <= |s.heap.used|
    requires size != 0 && units == UnitsFor(size) >= 1
    ensures var t := Step(AsWritten, s, Allocate(size));
            && Inv(t) && Sized(t) && t.live == s.live + [Block(k, units, size)]
            && |t.heap.used| == |s.heap.used| && Prefix(t.heap.used, k + units)
  {
    Complete(AsWritten, s.heap.used, units, k);
    Window(AsWritten, s.heap.used, units);
    AllocateHeaders(AsWritten, s, Block(k, units, size));
    CleanWindowFits(AsWritten, s.heap.used, size);
    StepKeepsIff(AsWritten, s, Allocate(size));
  }

  /** Runs of the search as written that start from an empty heap, by their last state. */
  ghost predicate Reaches(h: Heap, states: seq<Sys>, ops: seq<Op>, last: Sys) {
    && IsRun(AsWritten, states, ops)
    && states[0] == Sys(h, []) && states[|ops|] == last && Sized(last)
  }

  lemma ExtendRun(h: Heap, states: seq<Sys>, ops: seq<Op>, last: Sys, op: Op)
    requires Reaches(h, states, ops, last) && Enabled(last, op) && Sized(Step(AsWritten, last, op))
    ensures Reaches(h, states + [Step(AsWritten, last, op)], ops + [op], Step(AsWritten, last, op))
  {
    hide Step, Sized, Enabled;
    var states', ops' := states + [Step(AsWritten, last, op)], ops + [op];
    forall i | 0 <= i < |ops'|
      ensures Sized(states'[i]) && Enabled(states'[i], ops'[i])
      ensures states'[i + 1] == Step(AsWritten, states'[i], ops'[i])
    {
      if i < |ops| {
        assert states'[i] == states[i] && states'[i + 1] == states[i + 1];
      }
    }
  }

  lemma TakeNext(h: Heap, states: seq<Sys>, ops: seq<Op>, last: Sys, size: uint32, units: nat, k: nat)
    returns (states': seq<Sys>, ops': seq<Op>, last': Sys)
    requires Reaches(h, states, ops, last) && Inv(last)
    requires Prefix(last.heap.used, k) && k + units <= |last.heap.used|
    requires size != 0 && units == UnitsFor(size) >= 1
    ensures Reaches(h, states', ops', last') && |ops'| == |ops| + 1 && Inv(last')
    ensures last'.live == last.live + [Block(k, units, size)]
    ensures |last'.heap.used| == |last.heap.used| && Prefix(last'.heap.used, k + units)
  {
    AllocateNext(last, size, units, k);
    ExtendRun(h, states, ops, last, Allocate(size));
    last' := Step(AsWritten, last, Allocate(size));
    states', ops' := states + [last'], ops + [Allocate(size)];
  }

  /** Units 0..31, 31..32 and 32..64 taken. */
  lemma ThreeBlocks(h: Heap) returns (states: seq<Sys>, ops: seq<Op>, last: Sys)
    requires WellFormed(h) && |h.used| >= 96 && Prefix(h.used, 0)
    ensures Reaches(h, states, ops, last) && |ops| == 3 && Inv(last)
    ensures |last.live| == 3 && last.live[1] == Block(31, 1, 4) && last.live[2] == Block(32, 32, 252)
    ensures |last.heap.used| == |h.used| && Prefix(last.heap.used, 64)
  {
    assert UnitsFor(244) == 31 && UnitsFor(4) == 1 && UnitsFor(252) == 32;
    InitialInv(h);
    states, ops, last := [Sys(h, [])], [], Sys(h, []);
    assert Reaches(h, states, ops, last);
    hide UnitsFor, Inv, Prefix, Reaches;
    states, ops, last := TakeNext(h, states, ops, last, 244, 31, 0);
    states, ops, last := TakeNext(h, states, ops, last, 4, 1, 31);
    states, ops, last := TakeNext(h, states, ops, last, 252, 32, 32);
  }

  /** The 1-unit block returned again: one free unit before a full word. */
  lemma HoleBeforeFullWord(s3: Sys)
    requires Inv(s3) && |s3.heap.used| >= 96 && Prefix(s3.heap.used, 64)
    requires |s3.live| == 3 && s3.live[1] == Block(31, 1, 4) && s3.live[2] == Block(32, 32, 252)
    ensures var s4 := Step(AsWritten, s3, Release(1));
            && Sized(s4) && |s4.live| == 2 && s4.live[1] == Block(32, 32, 252)
            && Find(AsWritten, s4.heap.used, 2) == 31
  {
    ReleaseKeeps(AsWritten, s3, 1);
    CountsAcross(Step(AsWritten, s3, Release(1)).heap.used, 2);
  }

  lemma TwoUnitsOverHole(s4: Sys)
    requires Sized(s4) && Find(AsWritten, s4.heap.used, 2) == 31
    ensures var s5 := Step(AsWritten, s4, Allocate(12));
            Sized(s5) && s5.live == s4.live + [Block(31, 2, 12)]
  {
    AllocateHeaders(AsWritten, s4, Block(31, 2, 12));
  }

  /**
   Five calls from `mem_init` on any heap of at least 96 units after which, as written, two live
   blocks share a unit: take 31 units, 1 unit and 32 units, return the 1-unit block, take 2 units.
   */
  lemma OverlapReachable(h: Heap) returns (states: seq<Sys>, ops: seq<Op>, last: Sys)
    requires WellFormed(h) && |h.used| >= 96 && Prefix(h.used, 0)
    ensures Reaches(h, states, ops, last) && |ops| == 5
    ensures |last.live| == 3 && last.live[1].Covers(32) && last.live[2].Covers(32)
  {
    states, ops, last := ThreeBlocks(h);
    HoleBeforeFullWord(last);
    hide Inv, Reaches, Step, Find, Sized;
    ExtendRun(h, states, ops, last, Release(1));
    var s4 := Step(AsWritten, last, Release(1));
    TwoUnitsOverHole(s4);
    ExtendRun(h, states + [s4], ops + [Release(1)], s4, Allocate(12));
    last := Step(AsWritten, s4, Allocate(12));
    states, ops := states + [s4] + [last], ops + [Release(1)] + [Allocate(12)];
  }
}

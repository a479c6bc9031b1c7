/**
 What clients of the heap rely on: the blocks behind their pointers stay live and apart, and several
 requests made one after the other are served from the free units that a first fit leaves.
 */
module HeapClients {
  import opened Words
  import opened Search
  import opened HeapModel

  // ----- one block of a client -----

  /** The block behind a pointer that a request of this size was answered with. */
  function BlockAt(ptr: nat, size: uint32): Block {
    Block(if ptr < HEADER then 0 else (ptr - HEADER) / UNIT, UnitsFor(size), size)
  }

  /** The live blocks after this one has been returned. */
  function Taken(live: seq<Block>, b: Block): (r: seq<Block>)
    ensures multiset(r) == multiset(live) - multiset{b}
  {
    var k := IndexOf(live, b, 0);
    if k == |live| then live
    else
      assert live == live[..k] + [b] + live[k + 1..];
      Without(live, k)
  }

  /** A granted request keeps the invariant, with its block among the live ones, exactly when it is clean. */
  lemma GrantKeepsIff(v: Variant, h: Heap, live: seq<Block>, size: uint32)
    requires Inv(Sys(h, live)) && Alloc(v, h, size).1.Some?
    ensures var (h', p) := Alloc(v, h, size);
      && BlockAt(p.value, size).Ptr() == p.value
      && (Inv(Sys(h', live + [BlockAt(p.value, size)])) <==> CleanRequest(v, h.used, size))
  {
    hide Alloc, Inv, CleanRequest, UnitsFor, Find, Sized;
    InvSized(h, live);
    FreshHeader(v, h, size);
    AllocateKeepsIff(v, Sys(h, live), size);
  }

  lemma InvSized(h: Heap, live: seq<Block>)
    requires Inv(Sys(h, live))
    ensures WellFormed(h) && Sized(Sys(h, live))
  {
  }

  /** A request that is granted but not clean gets units of a block that is still live. */
  lemma UncleanGrantOverlaps(v: Variant, h: Heap, live: seq<Block>, size: uint32) returns (c: Block)
    requires Inv(Sys(h, live)) && Alloc(v, h, size).1.Some? && !CleanRequest(v, h.used, size)
    ensures c in live && !Apart(BlockAt(Alloc(v, h, size).1.value, size), c)
  {
    FreshHeader(v, h, size);
    CleanWindowFits(v, h.used, size);
    var b := BlockAt(Alloc(v, h, size).1.value, size);
    var i :| b.start <= i < b.End() && h.used[i];
    assert Covered(live, i);
    var k :| 0 <= k < |live| && live[k].Covers(i);
    c := live[k];
  }

  lemma RefusedRequestIsClean(v: Variant, h: Heap, size: uint32)
    requires WellFormed(h) && Alloc(v, h, size).1.None?
    ensures CleanRequest(v, h.used, size) && Alloc(v, h, size).0 == h
  {
    if size != 0 {
      if Find(v, h.used, UnitsFor(size)) == -1 {
        RefusedIsClean(v, h.used, size);
      } else {
        Window(v, h.used, UnitsFor(size));
      }
    }
  }

  lemma ReturnKeeps(h: Heap, live: seq<Block>, b: Block)
    requires Inv(Sys(h, live)) && b in live
    ensures Inv(Sys(Free(h, Some(b.Ptr())), Taken(live, b)))
  {
    ReleaseKeeps(WithReset, Sys(h, live), IndexOf(live, b, 0));
  }

  /** A client may write any byte of its own payload. */
  lemma WriteKeeps(h: Heap, live: seq<Block>, b: Block, offset: nat, value: byte)
    requires Inv(Sys(h, live)) && b in live && HEADER + offset < UNIT * b.units
    ensures b.Ptr() + offset < |h.mem|
    ensures Inv(Sys(h.(mem := h.mem[b.Ptr() + offset := value]), live))
  {
    var k := IndexOf(live, b, 0);
    assert HeaderIntact(h, live[k]);
    PokeKeeps(WithReset, Sys(h, live), k, offset, value);
  }

  /** The bytes a client asked for. */
  ghost predicate InPayload(b: Block, a: nat) {
    b.Ptr() <= a < b.Ptr() + b.size
  }

  /** The headers of a block. */
  ghost predicate InHeader(b: Block, a: nat) {
    b.Ptr() - HEADER <= a < b.Ptr()
  }

  /** Payloads of two live blocks share no byte with each other nor with a header. */
  lemma PayloadsApart(h: Heap, live: seq<Block>, b: Block, c: Block, a: nat)
    requires Inv(Sys(h, live)) && multiset{b, c} <= multiset(live)
    requires b.units == UnitsFor(b.size) && c.units == UnitsFor(c.size)
    requires b.size <= TWO32 - 4 && c.size <= TWO32 - 4 && InPayload(b, a)
    ensures a < |h.mem| && !InPayload(c, a) && !InHeader(c, a) && !InHeader(b, a)
  {
    var j, k := TwoPlaces(live, b, c);
    assert HeaderIntact(h, live[j]) && HeaderIntact(h, live[k]);
    PayloadFits(b);
    PayloadFits(c);
    assert Apart(live[if j < k then j else k], live[if j < k then k else j]);
  }

  lemma TwoPlaces(live: seq<Block>, b: Block, c: Block) returns (j: nat, k: nat)
    requires multiset{b, c} <= multiset(live)
    ensures j < |live| && k < |live| && j != k && live[j] == b && live[k] == c
  {
    assert multiset{b, c}[b] >= 1;
    assert b in multiset(live);
    j := IndexOf(live, b, 0);
    var rest := Taken(live, b);
    assert multiset{b, c} - multiset{b} == multiset{c};
    assert c in multiset(rest);
    var m := IndexOf(rest, c, 0);
    k := if m < j then m else m + 1;
  }

  // ----- requests one after the other -----

  /** The intended search has room for the request. */
  ghost predicate Granted(used: seq<bool>, size: uint32) {
    size != 0 && UnitsFor(size) >= 1 && exists s: nat :: Fits(used, UnitsFor(size), s)
  }

  /** The bitmap after a granted request has been given its first fit. */
  ghost function Filled(used: seq<bool>, size: uint32): (r: seq<bool>)
    requires Granted(used, size)
    ensures |r| == |used| && (exists i :: 0 <= i < |used| && !used[i] && r[i])
    ensures forall i :: 0 <= i < |used| ==> used[i] ==> r[i]
  {
    var units := UnitsFor(size);
    FirstFitIsLeast(used, units, 0);
    var start := FirstFit(used, units, 0);
    assert !used[start] && Mark(used, start, units, true)[start];
    Mark(used, start, units, true)
  }

  /** How many of the requests are granted before one is refused. */
  ghost function Room(used: seq<bool>, sizes: seq<uint32>): (n: nat)
    ensures n <= |sizes|
    decreases |sizes|
  {
    if |sizes| == 0 || !Granted(used, sizes[0]) then 0
    else 1 + Room(Filled(used, sizes[0]), sizes[1..])
  }

  /** The bitmap after the first `n` requests, all granted. */
  ghost function FilledBy(used: seq<bool>, sizes: seq<uint32>, n: nat): (r: seq<bool>)
    requires n <= Room(used, sizes)
    ensures |r| == |used| && forall i :: 0 <= i < |used| ==> used[i] ==> r[i]
    decreases n
  {
    if n == 0 then used else FilledBy(Filled(used, sizes[0]), sizes[1..], n - 1)
  }

  /** Every request that is reached is clean. */
  ghost predicate CleanRequests(v: Variant, used: seq<bool>, sizes: seq<uint32>)
    decreases |sizes|
  {
    |sizes| == 0
    || (CleanRequest(v, used, sizes[0])
        && (Granted(used, sizes[0]) ==> CleanRequests(v, Filled(used, sizes[0]), sizes[1..])))
  }

  /** With the reset nothing is asked. */
  lemma {:induction false} ResetRequestsAreClean(used: seq<bool>, sizes: seq<uint32>)
    ensures CleanRequests(WithReset, used, sizes)
    decreases |sizes|
  {
    if |sizes| > 0 && Granted(used, sizes[0]) {
      ResetRequestsAreClean(Filled(used, sizes[0]), sizes[1..]);
    }
  }

  /** A clean request is granted when there is room for it, and then takes the first fit. */
  lemma CleanGrant(v: Variant, h: Heap, size: uint32)
    requires WellFormed(h) && CleanRequest(v, h.used, size)
    ensures Alloc(v, h, size) == Alloc(WithReset, h, size)
    ensures Alloc(v, h, size).1.Some? <==> Granted(h.used, size)
    ensures Granted(h.used, size) ==>
      WellFormed(Alloc(v, h, size).0) && Alloc(v, h, size).0.used == Filled(h.used, size)
    ensures !Granted(h.used, size) ==> Alloc(v, h, size).0 == h
  {
    GrantedIff(h, size);
    if size != 0 {
      CleanIffSameAnswer(v, h.used, size);
      if Granted(h.used, size) {
        FreshHeader(WithReset, h, size);
        ResetSearchIsFirstFit(h.used, UnitsFor(size));
      }
    }
  }

  /** The requests one after the other, up to the first that is refused, and the blocks granted. */
  ghost function Serve(v: Variant, h: Heap, sizes: seq<uint32>): (Heap, seq<Block>)
    requires |h.used| == |h.mem| / UNIT
    decreases |sizes|
  {
    if |sizes| == 0 then (h, [])
    else
      var (h1, p) := Alloc(v, h, sizes[0]);
      if p.None? then (h1, [])
      else
        var (h2, rest) := Serve(v, h1, sizes[1..]);
        (h2, [BlockAt(p.value, sizes[0])] + rest)
  }

  /** Clean requests are granted as long as there is room, each at its first fit. */
  lemma {:induction false} ServeFills(v: Variant, h: Heap, sizes: seq<uint32>)
    requires WellFormed(h) && CleanRequests(v, h.used, sizes)
    ensures var (h', blocks) := Serve(v, h, sizes);
      WellFormed(h') && |blocks| == Room(h.used, sizes) && h'.used == FilledBy(h.used, sizes, |blocks|)
    decreases |sizes|
  {
    hide Alloc, CleanRequest, Granted, Filled;
    if |sizes| > 0 {
      CleanGrant(v, h, sizes[0]);
      var (h1, p) := Alloc(v, h, sizes[0]);
      if p.Some? {
        ServeFills(v, h1, sizes[1..]);
      }
    }
  }

  /** Granted requests that are not returned change the bitmap. */
  lemma FilledByDiffersIff(used: seq<bool>, sizes: seq<uint32>, n: nat)
    requires n <= Room(used, sizes)
    ensures FilledBy(used, sizes, n) == used <==> n == 0
  {
    if n > 0 {
      var once := Filled(used, sizes[0]);
      var i :| 0 <= i < |used| && !used[i] && once[i];
      assert FilledBy(once, sizes[1..], n - 1)[i];
    }
  }

  /** Requests one after the other, with nothing returned, leave the bitmap alone exactly when the first is refused. */
  lemma ServeRestoresIff(v: Variant, h: Heap, sizes: seq<uint32>)
    requires WellFormed(h) && |sizes| > 0 && CleanRequests(v, h.used, sizes)
    ensures Serve(v, h, sizes).0.used == h.used <==> !Granted(h.used, sizes[0])
  {
    ServeFills(v, h, sizes);
    FilledByDiffersIff(h.used, sizes, Room(h.used, sizes));
  }

  /** Clean requests are granted as long as there is room, and their blocks join the live ones. */
  lemma {:induction false} ServeKeeps(v: Variant, h: Heap, live: seq<Block>, sizes: seq<uint32>)
    requires Inv(Sys(h, live)) && CleanRequests(v, h.used, sizes)
    ensures var (h', blocks) := Serve(v, h, sizes);
      && |blocks| == Room(h.used, sizes) && h'.used == FilledBy(h.used, sizes, |blocks|)
      && Inv(Sys(h', live + blocks))
    decreases |sizes|
  {
    hide Inv, Alloc, CleanRequest, Granted, Filled, Sized;
    InvSized(h, live);
    if |sizes| > 0 {
      CleanGrant(v, h, sizes[0]);
      var (h1, p) := Alloc(v, h, sizes[0]);
      if p.Some? {
        GrantKeepsIff(v, h, live, sizes[0]);
        var b := BlockAt(p.value, sizes[0]);
        ServeKeeps(v, h1, live + [b], sizes[1..]);
        var rest := Serve(v, h1, sizes[1..]).1;
        assert live + [b] + rest == live + ([b] + rest);
      } else {
        assert live + [] == live;
      }
    } else {
      assert live + [] == live;
    }
  }

  lemma ServeOne(v: Variant, h: Heap, a: uint32)
    requires |h.used| == |h.mem| / UNIT
    ensures var (h1, p) := Alloc(v, h, a);
      Serve(v, h, [a]) == (h1, if p.None? then [] else [BlockAt(p.value, a)])
  {
    hide Alloc;
    var (h1, p) := Alloc(v, h, a);
    assert [a][1..] == [];
    assert p.Some? ==> [BlockAt(p.value, a)] + [] == [BlockAt(p.value, a)];
  }

  lemma ServeTwo(v: Variant, h: Heap, a: uint32, b: uint32)
    requires |h.used| == |h.mem| / UNIT
    ensures var (h1, p) := Alloc(v, h, a);
            var (h2, q) := Alloc(v, h1, b);
      Serve(v, h, [a, b]) ==
        if p.None? then (h1, [])
        else (h2, [BlockAt(p.value, a)] + if q.None? then [] else [BlockAt(q.value, b)])
  {
    hide Alloc;
    var (h1, p) := Alloc(v, h, a);
    assert [a, b][1..] == [b];
    ServeOne(v, h1, b);
  }

  lemma ServeThree(v: Variant, h: Heap, a: uint32, b: uint32, c: uint32)
    requires |h.used| == |h.mem| / UNIT
    ensures var (h1, p) := Alloc(v, h, a);
            var (h2, q) := Alloc(v, h1, b);
            var (h3, r) := Alloc(v, h2, c);
            var (h', blocks) := Serve(v, h, [a, b, c]);
      && (|blocks| == 3 <==> p.Some? && q.Some? && r.Some?)
      && (|blocks| == 3 ==> h' == h3 && blocks == [BlockAt(p.value, a), BlockAt(q.value, b), BlockAt(r.value, c)])
  {
    hide Alloc;
    var (h1, p) := Alloc(v, h, a);
    assert [a, b, c][1..] == [b, c];
    ServeTwo(v, h1, b, c);
  }

  /** A clean request that is taken and returned at once leaves the bitmap as it was. */
  lemma CleanTakeAndReturn(v: Variant, h: Heap, size: uint32)
    requires WellFormed(h) && Alloc(v, h, size).1.Some? && CleanRequest(v, h.used, size)
    ensures Free(Alloc(v, h, size).0, Alloc(v, h, size).1).used == h.used
  {
    CleanWindowFits(v, h.used, size);
    TakeAndReturn(v, h, size);
  }

  lemma CleanTakeTwoAndReturn(v: Variant, h: Heap, first: uint32, second: uint32)
    requires WellFormed(h) && CleanRequest(v, h.used, first) && Alloc(v, h, first).1.Some?
    requires var h1 := Alloc(v, h, first).0;
      CleanRequest(v, h1.used, second) && Alloc(v, h1, second).1.Some?
    ensures var (h1, p) := Alloc(v, h, first);
            var (h2, q) := Alloc(v, h1, second);
      Free(Free(h2, q), p).used == h.used
  {
    var h1 := Alloc(v, h, first).0;
    CleanWindowFits(v, h.used, first);
    FreshHeader(v, h, first);
    CleanWindowFits(v, h1.used, second);
    TakeTwoAndReturn(v, h, first, second);
    hide Alloc, Free, CleanRequest, UnitsFor, Find;
  }
}

/** kernel/memory/mem_pool.c: a pool of equal-sized objects on top of the heap. */
module PoolModel {
  import opened Words

  /** `memory` is the address of object 0; `live` has one entry per object. */
  datatype Pool = Pool(memory: nat, objectSize: nat, live: seq<bool>) {
    function Capacity(): nat { |live| }

    function Address(i: nat): nat { memory + i * objectSize }

    /** What a successful `mem_pool_init` leaves behind when `capacity * object_size` did not wrap. */
    ghost predicate Valid() {
      && 0 < memory && 0 < objectSize
      && 0 < Capacity() < 0x8000_0000
      && Address(Capacity()) <= TWO32
    }

    ghost predicate InObject(i: nat, ptr: nat) {
      Address(i) <= ptr < Address(i) + objectSize
    }
  }

  /** `mem_pool_alloc`. */
  function Alloc(p: Pool): (Pool, Option<nat>) {
    var i := IndexOf(p.live, false, 0);
    if i == |p.live| then (p, None)
    else (p.(live := p.live[i := true]), Some(p.Address(i) % TWO32))
  }

  /** The index computed by `mem_pool_free`: 32-bit pointer difference, unsigned division, back to `int`. */
  function FreeIndex(p: Pool, ptr: uint32): int
    requires p.objectSize > 0
  {
    var q := (ptr - p.memory) % TWO32 / p.objectSize;
    if q < 0x8000_0000 then q else q - TWO32
  }

  /** `mem_pool_free`; address 0 is NULL. */
  function Free(p: Pool, ptr: uint32): Pool
    requires p.objectSize > 0
  {
    if ptr == 0 then p
    else
      var i := FreeIndex(p, ptr);
      if i < 0 || i >= p.Capacity() then p else p.(live := p.live[i := false])
  }

  lemma DivisionIs(d: nat, size: nat, i: nat)
    requires size > 0 && i * size <= d < i * size + size
    ensures d / size == i
  {
    var q := d / size;
    assert q * size <= d < q * size + size;
    if q < i { MulOrder(q, i, size); }
    if i < q { MulOrder(i, q, size); }
  }

  /** Objects are pairwise apart and lie inside the pool's memory. */
  lemma ObjectsApart(p: Pool, i: nat, j: nat)
    requires i < j < p.Capacity()
    ensures p.Address(i) + p.objectSize <= p.Address(j)
    ensures p.Address(j) + p.objectSize <= p.Address(p.Capacity())
  {
    MulOrder(i, j, p.objectSize);
    MulOrder(j, p.Capacity(), p.objectSize);
  }

  /**
   With the object memory sized by the 32-bit product, every object lies inside what was asked of
   the heap exactly when the product did not wrap.
   */
  lemma ObjectsInsideIffNoWrap(p: Pool)
    requires p.Capacity() > 0
    ensures (forall i :: 0 <= i < p.Capacity() ==>
               p.Address(i) + p.objectSize <= p.memory + p.Capacity() * p.objectSize % TWO32)
       <==> p.Capacity() * p.objectSize < TWO32
  {
    var n := p.Capacity();
    var total := n * p.objectSize;
    if total < TWO32 {
      forall i | 0 <= i < n ensures p.Address(i) + p.objectSize <= p.memory + total {
        MulOrder(i, n, p.objectSize);
      }
    } else {
      assert p.Address(n - 1) + p.objectSize == p.memory + total by {
        assert (n - 1) * p.objectSize + p.objectSize == total;
      }
    }
  }

  lemma FreeIndexInside(p: Pool, i: nat, ptr: uint32)
    requires p.Valid() && i < p.Capacity() && p.InObject(i, ptr)
    ensures FreeIndex(p, ptr) == i
  {
    DivisionIs(ptr - p.memory, p.objectSize, i);
  }

  /** A pointer outside the pool, on either side, is recognised although the difference is unsigned. */
  lemma FreeIndexOutside(p: Pool, ptr: uint32)
    requires p.Valid() && !(p.memory <= ptr < p.Address(p.Capacity()))
    ensures FreeIndex(p, ptr) < 0 || FreeIndex(p, ptr) >= p.Capacity()
  {
    var d := (ptr - p.memory) % TWO32;
    var q := d / p.objectSize;
    assert d >= p.Capacity() * p.objectSize;
    assert d < q * p.objectSize + p.objectSize;
    if q < p.Capacity() {
      MulOrder(q, p.Capacity(), p.objectSize);
    }
  }

  lemma ObjectOf(p: Pool, ptr: uint32) returns (k: nat)
    requires p.Valid() && p.memory <= ptr < p.Address(p.Capacity())
    ensures k < p.Capacity() && p.InObject(k, ptr)
  {
    k := (ptr - p.memory) / p.objectSize;
    assert k * p.objectSize <= ptr - p.memory < k * p.objectSize + p.objectSize;
    if p.Capacity() <= k { MulOrder(p.Capacity(), k, p.objectSize); }
  }

  lemma OutsideEveryObject(p: Pool, ptr: uint32, i: nat)
    requires p.Valid() && !(p.memory <= ptr < p.Address(p.Capacity())) && i < p.Capacity()
    ensures !p.InObject(i, ptr)
  {
    MulOrder(i, p.Capacity(), p.objectSize);
  }

  /** Returning any pointer into an object frees that object; any other pointer changes nothing. */
  lemma FreeExactly(p: Pool, ptr: uint32)
    requires p.Valid()
    ensures forall i :: 0 <= i < p.Capacity() ==>
      (Free(p, ptr).live[i] <==> p.live[i] && !p.InObject(i, ptr))
    ensures Free(p, ptr) == p.(live := Free(p, ptr).live) && |Free(p, ptr).live| == |p.live|
  {
    if p.memory <= ptr < p.Address(p.Capacity()) {
      var k := ObjectOf(p, ptr);
      FreeIndexInside(p, k, ptr);
      forall i | 0 <= i < p.Capacity() ensures p.InObject(i, ptr) <==> i == k {
        if p.InObject(i, ptr) { FreeIndexInside(p, i, ptr); }
      }
    } else {
      FreeIndexOutside(p, ptr);
      forall i | 0 <= i < p.Capacity() ensures !p.InObject(i, ptr) {
        OutsideEveryObject(p, ptr, i);
      }
    }
  }

  /** NULL exactly when every object is live; otherwise the first dead object becomes live and no other changes. */
  lemma AllocExactly(p: Pool)
    requires p.Valid()
    ensures var (q, ptr) := Alloc(p);
      && (ptr.None? <==> forall i :: 0 <= i < p.Capacity() ==> p.live[i])
      && (ptr.None? ==> q == p)
      && (ptr.Some? ==> exists i ::
            && 0 <= i < p.Capacity() && !p.live[i] && ptr.value == p.Address(i)
            && (forall k :: 0 <= k < i ==> p.live[k])
            && q == p.(live := p.live[i := true]))
  {
    var i := IndexOf(p.live, false, 0);
    if i < p.Capacity() {
      MulOrder(i, p.Capacity(), p.objectSize);
      assert p.Address(i) < TWO32;
    }
  }

  /** Freeing through any pointer into the object just obtained restores the pool. */
  lemma FreeUndoesAlloc(p: Pool, ptr: uint32)
    requires p.Valid() && Alloc(p).1.Some?
    requires Alloc(p).1.value <= ptr < Alloc(p).1.value + p.objectSize
    ensures Free(Alloc(p).0, ptr) == p
  {
    var i := IndexOf(p.live, false, 0);
    MulOrder(i, p.Capacity(), p.objectSize);
    assert p.Address(i) < TWO32;
    FreeIndexInside(Alloc(p).0, i, ptr);
    assert p.live[i := true][i := false] == p.live;
  }

  // ----- runs -----

  datatype Op = Take | Return(ptr: uint32)

  /** The pool and the indices of the objects its clients hold. */
  datatype Sys = Sys(pool: Pool, held: set<nat>)

  ghost function Step(s: Sys, op: Op): Sys
    requires s.pool.objectSize > 0
  {
    match op
    case Take =>
      var (pool, ptr) := Alloc(s.pool);
      Sys(pool, if ptr.None? then s.held else s.held + {IndexOf(s.pool.live, false, 0)})
    case Return(ptr) =>
      Sys(Free(s.pool, ptr), set i | i in s.held && !s.pool.InObject(i, ptr))
  }

  ghost predicate IsRun(states: seq<Sys>, ops: seq<Op>) {
    && |states| == |ops| + 1
    && forall i :: 0 <= i < |ops| ==>
      states[i].pool.objectSize > 0 && states[i + 1] == Step(states[i], ops[i])
  }

  ghost predicate Inv(s: Sys) {
    && s.pool.Valid()
    && (forall i <- s.held :: i < s.pool.Capacity())
    && (forall i :: 0 <= i < s.pool.Capacity() ==> (s.pool.live[i] <==> i in s.held))
  }

  /** The count of free objects and the number of held ones add up to the capacity. */
  lemma {:induction false} CountsAddUp(s: Sys)
    requires Inv(s)
    ensures CountClear(s.pool.live) + |s.held| == s.pool.Capacity()
    decreases |s.held|
  {
    if s.held == {} {
      AllClear(s.pool.live);
    } else {
      var i :| i in s.held;
      var p := s.pool.(live := s.pool.live[i := false]);
      CountsAddUp(Sys(p, s.held - {i}));
      CountClearUpdate(s.pool.live, i, false);
    }
  }

  lemma StepKeeps(s: Sys, op: Op)
    requires Inv(s)
    ensures Inv(Step(s, op)) && Step(s, op).pool == s.pool.(live := Step(s, op).pool.live)
    ensures Step(s, op).pool.Capacity() == s.pool.Capacity()
  {
    match op {
      case Take => AllocExactly(s.pool);
      case Return(ptr) => FreeExactly(s.pool, ptr);
    }
  }

  /** Set bits are exactly the held objects, after any run of requests and returns of arbitrary pointers. */
  lemma {:induction false} RunKeeps(states: seq<Sys>, ops: seq<Op>, n: nat)
    requires IsRun(states, ops) && Inv(states[0]) && n <= |ops|
    ensures Inv(states[n]) && states[n].pool == states[0].pool.(live := states[n].pool.live)
    ensures states[n].pool.Capacity() == states[0].pool.Capacity()
    ensures CountClear(states[n].pool.live) + |states[n].held| == states[0].pool.Capacity()
  {
    if n > 0 {
      RunKeeps(states, ops, n - 1);
      StepKeeps(states[n - 1], ops[n - 1]);
      assert states[n - 1 + 1] == Step(states[n - 1], ops[n - 1]);
    }
    CountsAddUp(states[n]);
  }

  /** The bytes asked of the heap for the objects: a 32-bit product. */
  function ObjectBytes(count: nat, size: uint32): uint32 {
    count * size % TWO32
  }

  lemma NoBytesForEmptyObjects(count: nat)
    ensures ObjectBytes(count, 0) == 0
  {
  }

  lemma BytesExact(count: nat, size: uint32)
    requires count * size < TWO32
    ensures ObjectBytes(count, size) == count * size
  {
  }

  /** The bytes asked of the heap for the bitmap. */
  function BitmapBytes(count: nat): uint32
    requires count < 0x8000_0000
  {
    (count + 31) / 32 * 4
  }
}

module MemPool {
  import opened Words
  import opened Bitmap
  import opened Search
  import H = HeapModel
  import opened MemAlloc
  import opened HeapClients
  import P = PoolModel

  /** The two requests made of the heap, the second only if the first is granted. */
  ghost function Requests(v: Variant, h: H.Heap, objectBytes: uint32, bitmapBytes: uint32)
    : (H.Heap, Option<nat>, Option<nat>)
    requires |h.used| == |h.mem| / H.UNIT
  {
    var (h1, objects) := H.Alloc(v, h, objectBytes);
    if objects.None? then (h1, None, None)
    else
      var (h2, words) := H.Alloc(v, h1, bitmapBytes);
      (h2, objects, words)
  }

  lemma PayloadInside(v: Variant, h: H.Heap, bytes: uint32)
    requires H.WellFormed(h) && H.Alloc(v, h, bytes).1.Some? && bytes <= TWO32 - 4
    ensures H.Alloc(v, h, bytes).1.value + bytes <= |h.mem|
  {
    H.FreshHeader(v, h, bytes);
    var units := H.UnitsFor(bytes);
    var start := Find(v, h.used, units);
    hide H.Alloc, H.UnitsFor;
    H.PayloadFits(H.Block(start, units, bytes));
  }

  /** The heap side of a pool's creation is its two requests one after the other. */
  lemma RequestsServe(v: Variant, h: H.Heap, objectBytes: uint32, bitmapBytes: uint32)
    requires |h.used| == |h.mem| / H.UNIT
    ensures var (h', objects, words) := Requests(v, h, objectBytes, bitmapBytes);
      && Serve(v, h, [objectBytes, bitmapBytes]).0 == h'
      && (objects.Some? && words.Some? <==> |Serve(v, h, [objectBytes, bitmapBytes]).1| == 2)
  {
    ServeTwo(v, h, objectBytes, bitmapBytes);
    hide H.Alloc, Serve;
  }

  /**
   A failed initialisation gives the heap back exactly when its first request is the refused one; when
   only the bitmap is refused, the objects stay taken.
   */
  lemma FailedInitRestoresIff(v: Variant, h: H.Heap, objectBytes: uint32, bitmapBytes: uint32)
    requires H.WellFormed(h) && CleanRequests(v, h.used, [objectBytes, bitmapBytes])
    ensures var (h', objects, words) := Requests(v, h, objectBytes, bitmapBytes);
      && (objects.Some? && words.Some? <==> Room(h.used, [objectBytes, bitmapBytes]) == 2)
      && (h'.used == h.used <==> !Granted(h.used, objectBytes))
  {
    RequestsServe(v, h, objectBytes, bitmapBytes);
    hide Requests, Serve, Granted, CleanRequests;
    ServeFills(v, h, [objectBytes, bitmapBytes]);
    ServeRestoresIff(v, h, [objectBytes, bitmapBytes]);
  }

  /** A granted pool lies inside the heap exactly when neither the product nor the header's addition wrapped. */
  lemma GrantedPoolInsideIff(v: Variant, h: H.Heap, heapBase: nat, count: nat, size: uint32)
    requires H.WellFormed(h) && 0 < heapBase && heapBase + |h.mem| <= TWO32 && 0 < count < 0x8000_0000
    requires H.Alloc(v, h, P.ObjectBytes(count, size)).1.Some?
    ensures var ptr := H.Alloc(v, h, P.ObjectBytes(count, size)).1.value;
      && (ptr + count * size <= |h.mem| <==> count * size <= TWO32 - 4)
      && (count * size <= TWO32 - 4 ==> P.Pool(heapBase + ptr, size, seq(count, i => false)).Valid())
  {
    hide H.Alloc, P.ObjectBytes;
    if count * size <= TWO32 - 4 {
      InitGivesValidPool(v, h, heapBase, count, size);
    }
  }

  /** The memory asked for the bitmap is four bytes for every 32 objects begun, so each object has its bit. */
  lemma BitmapHoldsObjects(count: nat, i: nat)
    requires 0 < count < 0x8000_0000 && i < count
    ensures 0 < P.BitmapBytes(count) <= TWO32 - 4 && 4 * (i / 32) + 4 <= P.BitmapBytes(count)
    ensures P.BitmapBytes(count) - 4 < 4 * count
    ensures P.BitmapBytes(count) == 4 * ((count + 31) / 32)
  {
  }

  /** The blocks of the objects and of the bitmap, at the addresses given. */
  function PoolBlocks(count: nat, size: uint32, objects: nat, words: nat): seq<H.Block>
    requires count < 0x8000_0000
  {
    [BlockAt(objects, P.ObjectBytes(count, size)), BlockAt(words, P.BitmapBytes(count))]
  }

  /** Both requests of a pool are clean and are granted the addresses `objects` and `words`. */
  ghost predicate PoolGranted(v: Variant, h: H.Heap, live: seq<H.Block>, count: nat, size: uint32,
                              h': H.Heap, objects: nat, words: nat) {
    && H.Inv(H.Sys(h, live)) && 0 < count < 0x8000_0000
    && CleanRequests(v, h.used, [P.ObjectBytes(count, size), P.BitmapBytes(count)])
    && Requests(v, h, P.ObjectBytes(count, size), P.BitmapBytes(count)) == (h', Some(objects), Some(words))
  }

  /** After clean requests the objects and the bitmap are two live blocks of their own, large enough for both. */
  lemma PoolOwns(v: Variant, h: H.Heap, live: seq<H.Block>, count: nat, size: uint32,
                 h': H.Heap, objects: nat, words: nat)
    requires PoolGranted(v, h, live, count, size, h', objects, words)
    ensures var blocks := PoolBlocks(count, size, objects, words);
      && H.Inv(H.Sys(h', live + blocks))
      && blocks[0].Ptr() == objects && blocks[1].Ptr() == words
      && words + 4 * ((count + 31) / 32) <= H.UNIT * blocks[1].End()
      && (count * size <= TWO32 - 4 ==> objects + count * size <= H.UNIT * blocks[0].End())
  {
    var a, b := P.ObjectBytes(count, size), P.BitmapBytes(count);
    BitmapHoldsObjects(count, 0);
    if count * size < TWO32 { P.BytesExact(count, size); }
    InvSized(h, live);
    ServeKeeps(v, h, live, [a, b]);
    ServeTwo(v, h, a, b);
    AllocPointers(v, h, a);
    AllocPointers(v, H.Alloc(v, h, a).0, b);
    hide H.Alloc, H.Inv, Serve, P.ObjectBytes, P.BitmapBytes, H.UnitsFor, CleanRequests;
    assert PoolBlocks(count, size, objects, words) == Serve(v, h, [a, b]).1;
  }

  /** The pointer of a granted request leads to its block, and a size that the header does not wrap fits. */
  lemma AllocPointers(v: Variant, h: H.Heap, size: uint32)
    requires H.WellFormed(h)
    ensures H.WellFormed(H.Alloc(v, h, size).0)
    ensures H.Alloc(v, h, size).1.Some? ==>
      var b := BlockAt(H.Alloc(v, h, size).1.value, size);
      && b.Ptr() == H.Alloc(v, h, size).1.value
      && (size <= TWO32 - 4 ==> b.Ptr() + size <= H.UNIT * b.End())
  {
    H.AllocFreeable(v, h, size);
    if H.Alloc(v, h, size).1.Some? {
      H.FreshHeader(v, h, size);
      hide H.Alloc, H.UnitsFor;
      H.PayloadFits(BlockAt(H.Alloc(v, h, size).1.value, size));
    }
  }

  lemma BothLive(live: seq<H.Block>, b: H.Block, c: H.Block)
    ensures multiset{b, c} <= multiset(live + [b, c]) && multiset{c, b} <= multiset(live + [b, c])
  {
    assert multiset(live + [b, c]) == multiset(live) + multiset{b, c};
  }

  /** Byte `at` belongs to the first block's payload, the word at `word` to the second's, and neither to a header. */
  ghost predicate ByteAndWordApart(h: H.Heap, b: H.Block, c: H.Block, at: nat, word: nat) {
    && InPayload(b, at) && InPayload(c, word) && InPayload(c, word + 3)
    && at < |h.mem| && word + 3 < |h.mem| && !(word <= at < word + 4)
    && !InHeader(b, at) && !InHeader(c, at)
    && forall k :: word <= k < word + 4 ==> !InHeader(b, k) && !InHeader(c, k)
  }

  lemma PayloadsAreApart(h: H.Heap, live: seq<H.Block>, b: H.Block, c: H.Block, at: nat, word: nat)
    requires H.Inv(H.Sys(h, live + [b, c]))
    requires b.units == H.UnitsFor(b.size) && c.units == H.UnitsFor(c.size)
    requires b.size <= TWO32 - 4 && c.size <= TWO32 - 4
    requires InPayload(b, at) && InPayload(c, word) && InPayload(c, word + 3)
    ensures ByteAndWordApart(h, b, c, at, word)
  {
    hide H.Inv, H.UnitsFor;
    BothLive(live, b, c);
    PayloadsApart(h, live + [b, c], b, c, at);
    forall k: nat | word <= k < word + 4
      ensures k < |h.mem| && !InPayload(b, k) && !InHeader(b, k) && !InHeader(c, k)
    {
      PayloadsApart(h, live + [b, c], c, b, k);
    }
    PayloadsApart(h, live + [b, c], c, b, word + 3);
  }

  /** Then no byte of the objects lies in the bitmap or a header, and no word of the bitmap in an object or a header. */
  lemma ObjectsAndBitmapApart(v: Variant, h: H.Heap, live: seq<H.Block>, count: nat, size: uint32,
                              h': H.Heap, objects: nat, words: nat, at: nat, j: nat)
    requires PoolGranted(v, h, live, count, size, h', objects, words)
    requires count * size <= TWO32 - 4 && objects <= at < objects + count * size && j < count
    ensures var blocks := PoolBlocks(count, size, objects, words);
      ByteAndWordApart(h', blocks[0], blocks[1], at, words + 4 * (j / 32))
  {
    hide H.Inv, Requests, P.ObjectBytes, P.BitmapBytes, CleanRequests, H.UnitsFor, ByteAndWordApart;
    var blocks := PoolBlocks(count, size, objects, words);
    P.BytesExact(count, size);
    PoolOwns(v, h, live, count, size, h', objects, words);
    BitmapHoldsObjects(count, j);
    assert blocks == [blocks[0], blocks[1]];
    PayloadsAreApart(h', live, blocks[0], blocks[1], at, words + 4 * (j / 32));
  }

  /** The 32-bit object size does not wrap, so a successful `Init` leaves a pool inside its heap block. */
  lemma InitGivesValidPool(v: Variant, h: H.Heap, heapBase: nat, count: nat, size: uint32)
    requires H.WellFormed(h) && 0 < heapBase && heapBase + |h.mem| <= TWO32
    requires 0 < count < 0x8000_0000 && count * size <= TWO32 - 4
    requires H.Alloc(v, h, P.ObjectBytes(count, size)).1.Some?
    ensures var ptr := H.Alloc(v, h, P.ObjectBytes(count, size)).1.value;
      && P.Pool(heapBase + ptr, size, seq(count, i => false)).Valid()
      && ptr + count * size <= |h.mem|
  {
    hide H.Alloc, P.ObjectBytes;
    var bytes := P.ObjectBytes(count, size);
    P.NoBytesForEmptyObjects(count);
    P.BytesExact(count, size);
    H.NothingForZeroBytes(v, h);
    PayloadInside(v, h, bytes);
    var ptr := H.Alloc(v, h, bytes).1.value;
    var pool := P.Pool(heapBase + ptr, size, seq(count, i => false));
    assert size > 0;
    assert pool.Address(pool.Capacity()) == heapBase + ptr + bytes;
  }

  class Pool {
    var memory: nat
    var bitmapAt: nat
    var bitmap: array?<uint32>
    var objectSize: nat
    var capacity: nat

    constructor ()
      ensures bitmap == null
    {
      memory, bitmapAt, bitmap, objectSize, capacity := 0, 0, null, 0, 0;
    }

    /** The pool after a successful `Init`. */
    ghost predicate Ready()
      reads this, bitmap
    {
      bitmap != null && capacity <= 32 * bitmap.Length && objectSize > 0
    }

    ghost function State(): P.Pool
      requires Ready()
      reads this, bitmap
    {
      P.Pool(memory, objectSize, Bits(bitmap[..], capacity))
    }

    /**
     `heapBase` is the address of the heap array. On failure of the second request the object
     memory stays allocated, as in the source.
     */
    method Init(h: MemHeap, heapBase: nat, count: int, size: uint32) returns (code: int)
      requires h.Valid() && 0 < heapBase && heapBase + h.heap.Length <= TWO32
      requires count < 0x8000_0000
      modifies this, h.heap, h.bitmap
      ensures h.Valid()
      ensures code == 0 || code == -1
      ensures count <= 0 ==> code == -1 && h.State() == old(h.State())
      ensures count > 0 ==>
        var (heap', objects, words) := Requests(h.search, old(h.State()), P.ObjectBytes(count, size), P.BitmapBytes(count));
        && h.State() == heap'
        && (code == 0 <==> objects.Some? && words.Some?)
        && (code == 0 ==>
              && Ready() && fresh(bitmap)
              && 4 * bitmap.Length == P.BitmapBytes(count) && bitmapAt == heapBase + words.value
              && State() == P.Pool(heapBase + objects.value, size, seq(count, i => false)))
    {
      if count <= 0 {
        return -1;
      }
      objectSize, capacity := size, count;
      hide H.Alloc, Requests, P.ObjectBytes, P.BitmapBytes, MemHeap.State, MemHeap.Valid, Pool.State;
      P.NoBytesForEmptyObjects(count);
      var granted := TakeMemory(h, heapBase, P.ObjectBytes(count, size), P.BitmapBytes(count));
      if !granted {
        return -1;
      }
      ClearObjects();
      BitmapHoldsObjects(count, 0);
      return 0;
    }

    method TakeMemory(h: MemHeap, heapBase: nat, objectBytes: uint32, bitmapBytes: uint32) returns (granted: bool)
      requires h.Valid()
      modifies this`memory, this`bitmapAt, this`bitmap, h.heap, h.bitmap
      ensures h.Valid()
      ensures var (heap', objects, words) := Requests(h.search, old(h.State()), objectBytes, bitmapBytes);
        && h.State() == heap'
        && (granted <==> objects.Some? && words.Some?)
        && (granted ==> memory == heapBase + objects.value && bitmapAt == heapBase + words.value && objectBytes > 0)
    {
      H.NothingForZeroBytes(h.search, h.State());
      hide H.Alloc, MemHeap.State, MemHeap.Valid;
      var objects := h.MemAlloc(objectBytes);
      if objects.None? {
        memory := 0;
        return false;
      }
      memory := heapBase + objects.value;
      var room := h.MemAlloc(bitmapBytes);
      if room.None? {
        bitmap := null;
        return false;
      }
      bitmapAt := heapBase + room.value;
      return true;
    }

    /** The bitmap, all clear. */
    method ClearObjects()
      requires capacity > 0 && objectSize > 0
      modifies this`bitmap
      ensures Ready() && fresh(bitmap) && bitmap.Length == (capacity + 31) / 32
      ensures State() == P.Pool(memory, objectSize, seq(capacity, i => false))
    {
      bitmap := ZeroedWords((capacity + 31) / 32);
      assert State().live == seq(capacity, i => false);
    }

    method ZeroedWords(words: nat) returns (map': array<uint32>)
      ensures fresh(map') && map'.Length == words
      ensures forall i :: 0 <= i < 32 * words ==> !BitAt(map'[..], i)
    {
      map' := new uint32[words];
      for i := 0 to words
        invariant forall k :: 0 <= k < i ==> map'[k] == 0
      {
        map'[i] := 0;
      }
      ZeroBits();
      assert forall i :: 0 <= i < 32 * words ==> map'[..][i / 32] == 0;
    }

    method Alloc() returns (ptr: Option<nat>)
      requires Ready()
      modifies bitmap
      ensures Ready() && (State(), ptr) == P.Alloc(old(State()))
    {
      ghost var live := State().live;
      for i := 0 to capacity
        invariant bitmap[..] == old(bitmap[..])
        invariant IndexOf(live, false, 0) == IndexOf(live, false, i)
      {
        var taken := BitGet(bitmap, i);
        if !taken {
          BitSet(bitmap, i);
          assert State().live == live[i := true];
          return Some((memory + i * objectSize) % TWO32);
        }
      }
      return None;
    }

    method Free(ptr: uint32)
      requires Ready()
      modifies bitmap
      ensures Ready() && State() == P.Free(old(State()), ptr)
    {
      if ptr == 0 {
        return;
      }
      var q := (ptr - memory) % TWO32 / objectSize;
      var index := if q < 0x8000_0000 then q else q - TWO32;
      if index < 0 || index >= capacity {
        return;
      }
      ghost var live := State().live;
      BitClear(bitmap, index);
      assert State().live == live[index := false];
    }

    method FreeCount() returns (free: nat)
      requires Ready()
      ensures free == CountClear(State().live)
    {
      ghost var live := State().live;
      free := 0;
      for i := 0 to capacity
        invariant free == CountClear(live[..i])
      {
        var taken := BitGet(bitmap, i);
        if !taken {
          free := free + 1;
        }
        assert live[..i + 1][..i] == live[..i];
      }
      assert live[..capacity] == live;
    }
  }
}

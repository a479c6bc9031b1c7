/** kernel/memory/mem_alloc.c: the word bitmap and the byte array, changed in place. */
module MemAlloc {
  import opened Words
  import opened Bitmap
  import opened Search
  import opened HeapModel

  class MemHeap {
    const search: Variant
    const heap: array<byte>
    const bitmap: array<uint32>

    /** `NUM_UNITS`. */
    function Units(): nat
      reads this
    {
      heap.Length / UNIT
    }

    /** Bits of the last word beyond `NUM_UNITS` stay clear, so that word is never full by accident. */
    ghost predicate Valid()
      reads this, heap, bitmap
    {
      && Units() <= MAX_UNITS
      && bitmap.Length == (Units() + 31) / 32
      && forall i :: Units() <= i < 32 * bitmap.Length ==> !BitAt(bitmap[..], i)
    }

    ghost function State(): (h: Heap)
      requires Valid()
      reads this, heap, bitmap
      ensures WellFormed(h)
    {
      Heap(Bits(bitmap[..], Units()), heap[..])
    }

    /** The static arrays of a given size, after `mem_init`. */
    constructor (search: Variant, size: nat)
      requires size / UNIT <= MAX_UNITS
      ensures Valid() && fresh(heap) && fresh(bitmap) && this.search == search
      ensures heap.Length == size
      ensures State().used == seq(size / UNIT, i => false)
    {
      this.search := search;
      heap := new byte[size](_ => 0);
      bitmap := new uint32[(size / UNIT + 31) / 32](_ => 0);
      new;
      ZeroBits();
      assert forall i :: 0 <= i < 32 * bitmap.Length ==> bitmap[..][i / 32] == 0;
      assert State().used == seq(size / UNIT, i => false);
    }

    method MemInit()
      requires bitmap.Length == (Units() + 31) / 32 && Units() <= MAX_UNITS
      modifies bitmap
      ensures Valid()
      ensures State() == Heap(seq(Units(), i => false), old(heap[..]))
    {
      for i := 0 to bitmap.Length
        invariant forall k :: 0 <= k < i ==> bitmap[k] == 0
      {
        bitmap[i] := 0;
      }
      ZeroBits();
      assert forall i :: 0 <= i < 32 * bitmap.Length ==> bitmap[..][i / 32] == 0;
      assert State().used == seq(Units(), i => false);
    }

    method WordIsFull(w: nat) returns (full: bool)
      requires Valid() && w < bitmap.Length
      ensures full <==> FullWord(State().used, w)
    {
      full := bitmap[w] == 0xFFFF_FFFF;
      FullWordAt(bitmap[..], w);
      if 32 * w + 32 > Units() {
        assert !BitAt(bitmap[..], 32 * w + 31);
      }
    }

    method UnitIsUsed(i: nat) returns (used: bool)
      requires Valid() && i < Units()
      ensures used == State().used[i]
    {
      used := BitGet(bitmap, i);
    }

    /** The word-skipping loops compute the unit-by-unit search. */
    method FindFreeUnits(needed: nat) returns (r: int)
      requires Valid()
      ensures r == Find(search, State().used, needed)
    {
      var count: nat := 0;
      var start: int := -1;
      ghost var used := State().used;
      ghost var result := ScanAt(search, used, needed, 0, 0, -1);
      for w := 0 to bitmap.Length
        invariant result == ScanAt(search, used, needed, 32 * w, count, start)
      {
        var full := WordIsFull(w);
        if full {
          ScanOneFullWord(search, used, needed, w, count, start);
          if search.WithReset? {
            count := 0;
          }
        } else {
          var done;
          done, r, count, start := ScanWord(w, needed, count, start);
          if done {
            return r;
          }
        }
      }
      return -1;
    }

    /** The inner loop, over the 32 bits of one word; `done` when it returns from the search. */
    method ScanWord(w: nat, needed: nat, count0: nat, start0: int)
      returns (done: bool, r: int, count: nat, start: int)
      requires Valid() && w < bitmap.Length && !FullWord(State().used, w)
      ensures done ==> r == ScanAt(search, State().used, needed, 32 * w, count0, start0)
      ensures !done ==>
        ScanAt(search, State().used, needed, 32 * w + 32, count, start)
        == ScanAt(search, State().used, needed, 32 * w, count0, start0)
    {
      ghost var used := State().used;
      ghost var result := ScanAt(search, used, needed, 32 * w, count0, start0);
      count, start := count0, start0;
      for b := 0 to 32
        invariant result == ScanAt(search, used, needed, 32 * w + b, count, start)
      {
        var index := 32 * w + b;
        if index >= Units() {
          return true, -1, count, start;
        }
        ScanOneUnit(search, used, needed, w, index, count, start);
        var taken := UnitIsUsed(index);
        if !taken {
          if count == 0 {
            start := index;
          }
          count := count + 1;
          if count == needed {
            return true, start, count, start;
          }
        } else {
          count := 0;
        }
      }
      return false, -1, count, start;
    }

    method SetUnits(start: nat, units: nat)
      requires Valid() && start + units <= Units()
      modifies bitmap
      ensures Valid() && State() == old(State()).(used := Mark(old(State()).used, start, units, true))
    {
      ghost var used := State().used;
      for i := 0 to units
        invariant Valid() && State().used == Mark(used, start, i, true)
      {
        BitSet(bitmap, start + i);
        assert State().used == Mark(used, start, i + 1, true);
      }
    }

    method ClearUnits(start: nat, units: nat)
      requires Valid() && start + units <= Units()
      modifies bitmap
      ensures Valid() && State() == old(State()).(used := Mark(old(State()).used, start, units, false))
    {
      ghost var used := State().used;
      for i := 0 to units
        invariant Valid() && State().used == Mark(used, start, i, false)
      {
        BitClear(bitmap, start + i);
        assert State().used == Mark(used, start, i + 1, false);
      }
    }

    method MemAlloc(size: uint32) returns (ptr: Option<nat>)
      requires Valid()
      modifies heap, bitmap
      ensures Valid()
      ensures (State(), ptr) == Alloc(search, old(State()), size)
    {
      if size == 0 {
        return None;
      }
      var units := UnitsFor(size);
      var start := FindFreeUnits(units);
      if start < 0 {
        return None;
      }
      Window(search, State().used, units);
      SetUnits(start, units);
      StoreWord16(UNIT * start, MAGIC);
      StoreWord16(UNIT * start + 2, units);
      return Some(UNIT * start + HEADER);
    }

    method StoreWord16(a: nat, v: nat)
      requires a + 2 <= heap.Length
      modifies heap
      ensures heap[..] == PutWord16(old(heap[..]), a, v)
    {
      heap[a] := v % 256;
      heap[a + 1] := v / 256 % 256;
    }

    method MemFree(ptr: Option<nat>)
      requires Valid()
      requires ptr.Some? ==> Returnable(State(), ptr.value)
      modifies heap, bitmap
      ensures Valid()
      ensures State() == Free(old(State()), ptr)
    {
      if ptr.None? {
        return;
      }
      var h := ptr.value - HEADER;
      if heap[h] as int + 256 * heap[h + 1] as int != MAGIC {
        return;
      }
      var start := h / UNIT;
      var units := heap[h + 2] as int + 256 * heap[h + 3] as int;
      ClearUnits(start, units);
      StoreWord16(h, 0);
    }

    method MemFreeSpace() returns (space: nat)
      requires Valid()
      ensures space == CountClear(State().used) * UNIT
    {
      ghost var used := State().used;
      var free := 0;
      for i := 0 to Units()
        invariant free == CountClear(used[..i])
      {
        var taken := UnitIsUsed(i);
        if !taken {
          free := free + 1;
        }
        assert used[..i + 1][..i] == used[..i];
      }
      assert used[..Units()] == used;
      space := free * UNIT;
    }
  }

  /** The scan at any unit, failed once it has passed the last one. */
  ghost function ScanAt(v: Variant, used: seq<bool>, needed: nat, i: nat, count: nat, start: int): int {
    if i < |used| then FindFrom(v, used, needed, i, count, start) else -1
  }

  lemma ScanOneFullWord(v: Variant, used: seq<bool>, needed: nat, w: nat, count: nat, start: int)
    requires FullWord(used, w)
    ensures ScanAt(v, used, needed, 32 * w, count, start)
         == ScanAt(v, used, needed, 32 * w + 32, if v.WithReset? then 0 else count, start)
  {
    ScanOverFullWord(v, used, needed, w, 32 * w, count, start);
  }

  lemma ScanOneUnit(v: Variant, used: seq<bool>, needed: nat, w: nat, i: nat, count: nat, start: int)
    requires 32 * w <= i < 32 * w + 32 && i < |used| && !FullWord(used, w)
    ensures ScanAt(v, used, needed, i, count, start) ==
      if used[i] then ScanAt(v, used, needed, i + 1, 0, start)
      else
        var s := if count == 0 then i else start;
        if count + 1 == needed then s else ScanAt(v, used, needed, i + 1, count + 1, s)
  {
    assert i / 32 == w;
  }

  lemma ZeroBits()
    ensures forall n: nat :: !Bit(0, n)
  {
    forall n: nat ensures !Bit(0, n) {
      ZeroHasNoBits(n);
    }
  }
}

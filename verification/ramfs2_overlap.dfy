/**
 With the search as written, seven calls after mount lay the node of a new file over the node of a
 live one, although every call succeeds and there is room for each.
 */
module Ramfs2Overlap {
  import opened Words
  import opened Search
  import opened DiskModel
  import opened Ramfs2Model
  import opened Ramfs2Refinement
  import opened Ramfs2Runs
  import opened Ramfs2Heap
  import opened Ramfs2System
  import H = HeapModel

  // ----- the bitmap on the way -----

  /** The first `k` units are used, but for those from `lo` to `hi`. */
  ghost predicate Layout(h: H.Heap, k: nat, lo: nat, hi: nat) {
    && H.WellFormed(h) && |h.used| >= 72
    && forall i :: 0 <= i < |h.used| ==> (h.used[i] <==> i < k && !(lo <= i < hi))
  }

  /** A request answered with these units, as far as other headers are concerned. */
  ghost predicate Took(h: H.Heap, size: uint32, units: nat, start: nat)
    requires H.WellFormed(h)
  {
    var (h', p) := H.Alloc(AsWritten, h, size);
    && p == Some(H.UNIT * start + H.HEADER) && H.WellFormed(h')
    && h'.used == H.Mark(h.used, start, units, true)
    && H.HeaderIntact(h', H.Block(start, units, size))
    && (forall c: H.Block {:trigger H.HeaderIntact(h', c)} ::
         c.start != start && H.HeaderIntact(h, c) ==> H.HeaderIntact(h', c))
  }

  lemma TookAt(h: H.Heap, size: uint32, units: nat, start: nat)
    requires H.WellFormed(h) && size != 0 && units == H.UnitsFor(size) >= 1
    requires Find(AsWritten, h.used, units) == start
    ensures Took(h, size, units, start)
  {
    Window(AsWritten, h.used, units);
    H.FreshHeader(AsWritten, h, size);
  }

  lemma TakeNext(h: H.Heap, size: uint32, units: nat, k: nat)
    requires Layout(h, k, 0, 0) && size != 0 && units == H.UnitsFor(size) >= 1 && k + units <= |h.used|
    ensures Took(h, size, units, k) && Layout(H.Alloc(AsWritten, h, size).0, k + units, 0, 0)
  {
    Search.Complete(AsWritten, h.used, units, k);
    Window(AsWritten, h.used, units);
    TookAt(h, size, units, k);
  }

  lemma TakeHole(h: H.Heap, size: uint32, units: nat, k: nat, lo: nat, hi: nat)
    requires Layout(h, k, lo, hi) && hi <= k <= |h.used|
    requires size != 0 && units == H.UnitsFor(size) >= 1 && lo + units <= hi
    ensures Took(h, size, units, lo) && Layout(H.Alloc(AsWritten, h, size).0, k, lo + units, hi)
  {
    Search.Complete(AsWritten, h.used, units, lo);
    Window(AsWritten, h.used, units);
    TookAt(h, size, units, lo);
  }

  /** One free unit before a full word: seven units are counted from it on. */
  lemma TakeAcross(h: H.Heap, size: uint32)
    requires Layout(h, 64, 31, 32) && H.UnitsFor(size) == 7 && size != 0
    ensures Took(h, size, 7, 31)
  {
    CountsAcross(h.used, 7);
    TookAt(h, size, 7, 31);
  }

  /** Returning the last block before the hole, or the first one, widens the hole to its left. */
  lemma WidenHole(h: H.Heap, b: H.Block, k: nat, lo: nat, hi: nat)
    requires Layout(h, k, lo, hi) && H.HeaderIntact(h, b) && b.End() <= k
    requires lo == hi || (b.End() == lo && lo < hi)
    ensures var h' := H.Free(h, Some(b.Ptr()));
      && Layout(h', k, b.start, if lo == hi then b.End() else hi)
      && (forall c: H.Block {:trigger H.HeaderIntact(h', c)} ::
           c.start != b.start && H.HeaderIntact(h, c) ==> H.HeaderIntact(h', c))
  {
    H.FreeLive(h, b);
  }

  // ----- runs without a failing call -----

  ghost predicate Reached(start: Fs, run: seq<Event>, fs: Fs) {
    && Good(start, 4) && Good(fs, 4) && IsRun(AsWritten, 4, start, run) && StateAt(start, run, |run|) == fs
    && forall i :: 0 <= i < |run| ==> run[i].code == 0
  }

  lemma Extend(start: Fs, run: seq<Event>, fs: Fs, op: Op) returns (run': seq<Event>)
    requires Reached(start, run, fs) && Acceptable(fs, 4, op) && Step(AsWritten, 4, fs, op).1 == 0
    ensures Reached(start, run', Step(AsWritten, 4, fs, op).0)
    ensures |run'| == |run| + 1 && run'[..|run|] == run && run'[|run|].op == op && run'[|run|].before == fs
  {
    StepOnValues(AsWritten, 4, fs, op);
    assert WellFormed(fs, 4);
    hide Good, Step, MapStep, Abs, Acceptable, WellFormed;
    var (fs', code, out) := Step(AsWritten, 4, fs, op);
    run' := run + [Event(fs, op, code, out, fs')];
    AddEvent(start, run, Event(fs, op, code, out, fs'));
  }

  lemma AddEvent(start: Fs, run: seq<Event>, e: Event)
    requires IsRun(AsWritten, 4, start, run) && IsEvent(AsWritten, 4, e) && e.before == StateAt(start, run, |run|)
    ensures IsRun(AsWritten, 4, start, run + [e]) && StateAt(start, run + [e], |run| + 1) == e.after
  {
    hide IsEvent;
    var run' := run + [e];
    forall i | 0 <= i < |run'| ensures IsEvent(AsWritten, 4, run'[i]) {
      if i < |run| { assert run'[i] == run[i]; }
    }
  }

  /** A fresh name whose node is granted. */
  lemma CreateGoes(fs: Fs, name: string, start: nat)
    requires WellFormed(fs, 4) && FindFile(fs.files, name) == |fs.files| && Took(fs.heap, NODE_SIZE, 7, start)
    ensures var (fs', code, _) := Step(AsWritten, 4, fs, Create(name));
      && code == 0 && fs'.heap == H.Alloc(AsWritten, fs.heap, NODE_SIZE).0 && fs'.map' == fs.map'
      && fs'.files == [File(name, 0, [], 0, H.UNIT * start + H.HEADER, None)] + fs.files
  {
    hide H.Alloc, H.Mark, H.HeaderIntact;
  }

  /** The first file now has `needed` blocks and its table at `start`; nothing else has changed. */
  ghost predicate WroteFirst(fs: Fs, fs': Fs, needed: nat, start: nat) {
    && |fs'.files| == |fs.files| > 0 && fs'.files[1..] == fs.files[1..]
    && fs'.files[0].name == fs.files[0].name && fs'.files[0].node == fs.files[0].node && fs'.files[0].Intact()
    && fs'.files[0].table == Some(H.UNIT * start + H.HEADER)
    && |FreeBlocks(fs'.map')| + needed == |FreeBlocks(fs.map')|
  }

  /** A write to the first file whose table is granted, on a device with enough blocks. */
  lemma WriteGoes(fs: Fs, data: seq<byte>, len: uint32, needed: nat, units: nat, start: nat)
    requires WellFormed(fs, 4) && |fs.files| > 0 && needed == Needed(len, 4) && 4 * needed < TWO32
    requires Took(fs.heap, 4 * needed, units, start) && needed <= |FreeBlocks(fs.map')|
    ensures var (fs', code, _) := Step(AsWritten, 4, fs, Write(fs.files[0].name, data, len));
      code == 0 && fs'.heap == H.Alloc(AsWritten, fs.heap, 4 * needed).0 && WroteFirst(fs, fs', needed, start)
  {
    var name := fs.files[0].name;
    assert FindFile(fs.files, name) == 0 && TableSize(4, len) == 4 * needed;
    assert H.WellFormed(fs.heap) && H.Alloc(AsWritten, fs.heap, 4 * needed).1 == Some(H.UNIT * start + H.HEADER);
    hide Took, H.Alloc, H.WellFormed, Fill, FreeBlocks, Ramfs2Model.Write, FindFile, Needed, TableSize, WellFormed;
    WriteHeap(AsWritten, 4, fs, name, data, len);
    WriteFills(AsWritten, fs, name, data, len);
    FillCount(fs.map', fs.disk, 4, data, needed);
  }

  lemma WriteFills(v: Variant, fs: Fs, name: string, data: seq<byte>, len: uint32)
    requires H.WellFormed(fs.heap) && FindFile(fs.files, name) < |fs.files|
    requires H.Alloc(v, fs.heap, TableSize(4, len)).1.Some?
    ensures var (fs', code) := Ramfs2Model.Write(v, fs, 4, name, data, len);
            var i := FindFile(fs.files, name);
            var w := Fill(fs.map', fs.disk, 4, data, Needed(len, 4));
      && fs'.map' == w.map' && |fs'.files| == |fs.files| && fs'.files[i].blocks == w.blocks
      && fs'.files[i].count == Needed(len, 4) && fs'.files[i].name == fs.files[i].name
      && code == if |w.blocks| == Needed(len, 4) then 0 else -1
  {
    hide H.Alloc, Fill, Needed, FindFile;
  }

  /** The last of two files is removed. */
  lemma RemoveGoes(fs: Fs)
    requires WellFormed(fs, 4) && |fs.files| == 2 && fs.files[0].name != fs.files[1].name
    ensures var (fs', code, _) := Step(AsWritten, 4, fs, Remove(fs.files[1].name));
      && code == 0 && fs'.files == [fs.files[0]]
      && fs'.heap == H.Free(H.Free(fs.heap, fs.files[1].table), Some(fs.files[1].node))
  {
    assert FindFile(fs.files, fs.files[1].name) == 1;
    hide H.Free, ClearAll;
  }

  lemma {:induction false} AllBlocksFree(map': seq<byte>)
    requires forall b :: 0 <= b < |map'| ==> map'[b] == 0
    ensures |FreeBlocks(map')| == |map'|
  {
    if |map'| > 0 {
      var n := |map'| - 1;
      AllBlocksFree(map'[..n]);
      assert FreeBlocks(map') == FreeBlocks(map'[..n]) + {n};
    }
  }

  // ----- the seven calls -----

  const NODE_A: H.Block := H.Block(24, 7, 48)
  const TABLE_A: H.Block := H.Block(31, 1, 4)

  ghost predicate IsFile(f: File, name: string, start: nat) {
    f.name == name && f.node == H.UNIT * start + H.HEADER
  }

  ghost predicate HasTable(f: File) {
    f.table == Some(TABLE_A.Ptr()) && f.Intact()
  }

  /** `a` has its node at unit 24 and, once written, its table at unit 31. */
  ghost predicate OnlyA(fs: Fs, written: bool) {
    && |fs.files| == 1 && IsFile(fs.files[0], "a", 24) && (if written then HasTable(fs.files[0]) else fs.files[0].table.None?)
    && Layout(fs.heap, if written then 32 else 31, 0, 0) && H.HeaderIntact(fs.heap, NODE_A)
    && (written ==> H.HeaderIntact(fs.heap, TABLE_A))
    && |FreeBlocks(fs.map')| == if written then 167 else 168
  }

  /** `b` has its node at unit 32 and, once written, its table up to unit 64. */
  ghost predicate BothAB(fs: Fs, written: bool) {
    && |fs.files| == 2 && IsFile(fs.files[0], "b", 32) && IsFile(fs.files[1], "a", 24) && HasTable(fs.files[1])
    && Layout(fs.heap, if written then 64 else 39, 0, 0)
    && H.HeaderIntact(fs.heap, NODE_A) && H.HeaderIntact(fs.heap, TABLE_A)
    && (!written ==> |FreeBlocks(fs.map')| == 167)
  }

  ghost predicate OnlyB(fs: Fs) {
    |fs.files| == 1 && IsFile(fs.files[0], "b", 32) && Layout(fs.heap, 64, 24, 32)
  }

  ghost predicate BothCB(fs: Fs) {
    && |fs.files| == 2 && IsFile(fs.files[0], "c", 24) && IsFile(fs.files[1], "b", 32)
    && Layout(fs.heap, 64, 31, 32)
  }

  /** Where a node keeps the pointer to its block table and the link to the next node. */
  const TABLE_OFFSET: nat := 36
  const LINK_OFFSET: nat := 44

  lemma Sizes()
    ensures H.UnitsFor(12) == 2 && H.UnitsFor(168) == 22 && H.UnitsFor(NODE_SIZE) == 7
    ensures H.UnitsFor(4) == 1 && H.UnitsFor(192) == 25 && Needed(4, 4) == 1 && Needed(192, 4) == 48
  {
    UnitsAre(12);
    UnitsAre(168);
    UnitsAre(NODE_SIZE);
    UnitsAre(4);
    UnitsAre(192);
    hide H.UnitsFor;
    NeededIs(4);
    NeededIs(192);
  }

  lemma UnitsAre(size: uint32)
    requires size < 1000
    ensures H.UnitsFor(size) == (size + 11) / 8
  {
  }

  lemma NeededIs(len: uint32)
    requires len < 1000
    ensures Needed(len, 4) == (len + 3) / 4
  {
  }

  /** Mounting a device of 168 blocks on an empty heap takes the first 24 units. */
  lemma MountTakes(h: H.Heap, disk: Disk)
    requires Layout(h, 0, 0, 0) && |disk| == 168 && DiskModel.Sized(disk, 4)
    ensures var (h', granted) := MountHeap(AsWritten, h, 168);
      && granted.Some? && Layout(h', 24, 0, 0)
      && Good(Mounted(disk, h'), 4) && |FreeBlocks(Mounted(disk, h').map')| == 168
  {
    Sizes();
    TakeNext(h, CTX_SIZE, 2, 0);
    var h1 := H.Alloc(AsWritten, h, CTX_SIZE).0;
    TakeNext(h1, 168, 22, 2);
    MountIsGood(disk, MountHeap(AsWritten, h, 168).0, 4);
    AllBlocksFree(Mounted(disk, h).map');
    hide H.Alloc, H.UnitsFor, FreeBlocks;
  }

  lemma CreateA(start: Fs, run: seq<Event>, fs: Fs) returns (run': seq<Event>, fs': Fs)
    requires Reached(start, run, fs) && fs.files == [] && Layout(fs.heap, 24, 0, 0) && |FreeBlocks(fs.map')| == 168
    ensures Reached(start, run', fs') && |run'| == |run| + 1 && OnlyA(fs', false)
  {
    Sizes();
    hide H.UnitsFor, FreeBlocks, H.HeaderIntact, Step;
    TakeNext(fs.heap, NODE_SIZE, 7, 24);
    CreateGoes(fs, "a", 24);
    run' := Extend(start, run, fs, Create("a"));
    fs' := Step(AsWritten, 4, fs, Create("a")).0;
  }

  lemma WriteA(start: Fs, run: seq<Event>, fs: Fs) returns (run': seq<Event>, fs': Fs)
    requires Reached(start, run, fs) && OnlyA(fs, false)
    ensures Reached(start, run', fs') && |run'| == |run| + 1 && OnlyA(fs', true)
  {
    Sizes();
    hide H.UnitsFor, FreeBlocks, H.HeaderIntact, Step, Needed;
    var data: seq<byte> := seq(4, _ => 0);
    TakeNext(fs.heap, 4, 1, 31);
    WriteGoes(fs, data, 4, 1, 1, 31);
    run' := Extend(start, run, fs, Write("a", data, 4));
    fs' := Step(AsWritten, 4, fs, Write("a", data, 4)).0;
  }

  lemma CreateB(start: Fs, run: seq<Event>, fs: Fs) returns (run': seq<Event>, fs': Fs)
    requires Reached(start, run, fs) && OnlyA(fs, true)
    ensures Reached(start, run', fs') && |run'| == |run| + 1 && BothAB(fs', false)
  {
    Sizes();
    hide H.UnitsFor, FreeBlocks, H.HeaderIntact, Step;
    TakeNext(fs.heap, NODE_SIZE, 7, 32);
    CreateGoes(fs, "b", 32);
    run' := Extend(start, run, fs, Create("b"));
    fs' := Step(AsWritten, 4, fs, Create("b")).0;
  }

  lemma WriteB(start: Fs, run: seq<Event>, fs: Fs) returns (run': seq<Event>, fs': Fs)
    requires Reached(start, run, fs) && BothAB(fs, false)
    ensures Reached(start, run', fs') && |run'| == |run| + 1 && BothAB(fs', true)
  {
    Sizes();
    hide H.UnitsFor, FreeBlocks, H.HeaderIntact, Step, Needed;
    var data: seq<byte> := seq(192, _ => 0);
    TakeNext(fs.heap, 192, 25, 39);
    WriteGoes(fs, data, 192, 48, 25, 39);
    run' := Extend(start, run, fs, Write("b", data, 192));
    fs' := Step(AsWritten, 4, fs, Write("b", data, 192)).0;
    assert fs'.files[1] == fs'.files[1..][0] == fs.files[1];
  }

  lemma RemoveA(start: Fs, run: seq<Event>, fs: Fs) returns (run': seq<Event>, fs': Fs)
    requires Reached(start, run, fs) && BothAB(fs, true)
    ensures Reached(start, run', fs') && |run'| == |run| + 1 && OnlyB(fs')
  {
    assert FindFile(fs.files, "a") == 1;
    RemoveGoes(fs);
    WidenHole(fs.heap, TABLE_A, 64, 64, 64);
    hide H.HeaderIntact, Step, H.Free;
    WidenHole(H.Free(fs.heap, fs.files[1].table), NODE_A, 64, 31, 32);
    run' := Extend(start, run, fs, Remove("a"));
    fs' := Step(AsWritten, 4, fs, Remove("a")).0;
  }

  lemma CreateC(start: Fs, run: seq<Event>, fs: Fs) returns (run': seq<Event>, fs': Fs)
    requires Reached(start, run, fs) && OnlyB(fs)
    ensures Reached(start, run', fs') && |run'| == |run| + 1 && BothCB(fs')
  {
    Sizes();
    hide H.UnitsFor, H.HeaderIntact, Step;
    TakeHole(fs.heap, NODE_SIZE, 7, 64, 24, 32);
    CreateGoes(fs, "c", 24);
    run' := Extend(start, run, fs, Create("c"));
    fs' := Step(AsWritten, 4, fs, Create("c")).0;
  }

  lemma CreateD(start: Fs, run: seq<Event>, fs: Fs) returns (run': seq<Event>, fs': Fs)
    requires Reached(start, run, fs) && BothCB(fs)
    ensures Reached(start, run', fs') && |run'| == |run| + 1
    ensures |fs'.files| == 3 && IsFile(fs'.files[0], "d", 31) && IsFile(fs'.files[2], "b", 32)
    ensures run'[..|run|] == run && !CleanOp(AsWritten, 4, fs, run'[|run|].op) && run'[|run|].before == fs
  {
    Sizes();
    TakeAcross(fs.heap, NODE_SIZE);
    OverHole(fs.heap);
    hide H.UnitsFor, H.HeaderIntact, Step, H.CleanRequest;
    CreateGoes(fs, "d", 31);
    run' := Extend(start, run, fs, Create("d"));
    fs' := Step(AsWritten, 4, fs, Create("d")).0;
  }

  lemma OverHole(h: H.Heap)
    requires Layout(h, 64, 31, 32) && Took(h, NODE_SIZE, 7, 31) && H.UnitsFor(NODE_SIZE) == 7
    ensures !H.CleanRequest(AsWritten, h.used, NODE_SIZE)
  {
    H.FreshHeader(AsWritten, h, NODE_SIZE);
    H.CleanWindowFits(AsWritten, h.used, NODE_SIZE);
    assert h.used[32];
  }

  /**
   Mount, create a, write a, create b, write b, remove a, create c, create d: every call succeeds, and
   the node of `d` (48 bytes from byte 252) lies over the node of `b` (48 bytes from byte 260), which
   is still in the list: the link of `d` and the table pointer of `b` are the same four bytes. Only the
   last request is unclean.
   */
  lemma NodeOverNode(h: H.Heap, disk: Disk) returns (run: seq<Event>, last: Fs)
    requires Layout(h, 0, 0, 0) && |disk| == 168 && DiskModel.Sized(disk, 4)
    ensures MountHeap(AsWritten, h, 168).1.Some?
    ensures Reached(Mounted(disk, MountHeap(AsWritten, h, 168).0), run, last) && |run| == 7
    ensures !CleanEvent(AsWritten, 4, run[6])
    ensures |last.files| == 3 && last.files[0].name == "d" && last.files[2].name == "b"
    ensures last.files[0].node == 252 && last.files[2].node == 260
    ensures last.files[0].node + LINK_OFFSET == last.files[2].node + TABLE_OFFSET
  {
    MountTakes(h, disk);
    hide MountHeap, Layout, FreeBlocks, Good, OnlyA, BothAB, OnlyB, BothCB, Mounted;
    var start := Mounted(disk, MountHeap(AsWritten, h, 168).0);
    MountReached(disk, MountHeap(AsWritten, h, 168).0);
    run, last := CreateA(start, [], start);
    run, last := WriteA(start, run, last);
    run, last := CreateB(start, run, last);
    run, last := WriteB(start, run, last);
    run, last := RemoveA(start, run, last);
    run, last := CreateC(start, run, last);
    run, last := CreateD(start, run, last);
  }

  lemma MountReached(disk: Disk, heap: H.Heap)
    requires Good(Mounted(disk, heap), 4)
    ensures Reached(Mounted(disk, heap), [], Mounted(disk, heap)) && Mounted(disk, heap).files == []
    ensures Mounted(disk, heap).heap == heap
  {
  }
}

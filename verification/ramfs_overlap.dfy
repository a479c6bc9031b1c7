/**
 With the search as written, two creates in a row lay the node of the second file over the node of the first,
 although both succeed: the run satisfies every hypothesis of the extent law but that it is clean.
 */
module RamfsOverlap {
  import opened Words
  import opened Search
  import opened DiskModel
  import opened FileList
  import opened RamfsModel
  import opened RamfsRuns
  import opened HeapClients
  import opened RamfsHeap
  import H = HeapModel

  /** Used are units 0 to 30, 32, and 39 to 63. */
  ghost predicate Board(used: seq<bool>) {
    |used| >= 96 && forall i :: 0 <= i < |used| ==> (used[i] <==> i < 31 || i == 32 || 39 <= i < 64)
  }

  /** Six requests in a row: units 0-1 (the context of a mount), 2-30, 31, 32, 33-38 and 39-63. */
  lemma SixBlocks(h: H.Heap) returns (states: seq<H.Sys>, ops: seq<H.Op>, last: H.Sys)
    requires H.WellFormed(h) && |h.used| >= 96 && H.Prefix(h.used, 0)
    ensures H.Reaches(h, states, ops, last) && |ops| == 6 && H.Inv(last)
    ensures |last.live| == 6 && last.live[0] == BlockAt(4, CTX_SIZE)
    ensures last.live[2] == H.Block(31, 1, 4) && last.live[4] == H.Block(33, 6, 44)
    ensures |last.heap.used| == |h.used| && H.Prefix(last.heap.used, 64)
  {
    UnitsAre();
    H.InitialInv(h);
    states, ops, last := [H.Sys(h, [])], [], H.Sys(h, []);
    assert H.Reaches(h, states, ops, last);
    hide H.UnitsFor, H.Inv, H.Prefix, H.Reaches;
    states, ops, last := H.TakeNext(h, states, ops, last, CTX_SIZE, 2, 0);
    states, ops, last := H.TakeNext(h, states, ops, last, 228, 29, 2);
    states, ops, last := H.TakeNext(h, states, ops, last, 4, 1, 31);
    states, ops, last := H.TakeNext(h, states, ops, last, 4, 1, 32);
    states, ops, last := H.TakeNext(h, states, ops, last, 44, 6, 33);
    states, ops, last := H.TakeNext(h, states, ops, last, 196, 25, 39);
  }

  lemma UnitsAre()
    ensures H.UnitsFor(CTX_SIZE) == 2 && H.UnitsFor(228) == 29 && H.UnitsFor(4) == 1
    ensures H.UnitsFor(NODE_SIZE) == 6 && H.UnitsFor(196) == 25
  {
  }

  lemma Return(h: H.Heap, states: seq<H.Sys>, ops: seq<H.Op>, last: H.Sys, k: nat)
    returns (states': seq<H.Sys>, ops': seq<H.Op>, last': H.Sys)
    requires H.Reaches(h, states, ops, last) && H.Inv(last) && k < |last.live|
    ensures H.Reaches(h, states', ops', last') && |ops'| == |ops| + 1 && H.Inv(last')
    ensures last'.live == Without(last.live, k)
    ensures last'.heap.used == H.Mark(last.heap.used, last.live[k].start, last.live[k].units, false)
  {
    H.ReleaseKeeps(AsWritten, last, k);
    last' := H.Step(AsWritten, last, H.Release(k));
    InvIsSized(last');
    hide H.Inv, H.Step, H.Sized;
    H.ExtendRun(h, states, ops, last, H.Release(k));
    states', ops' := states + [last'], ops + [H.Release(k)];
  }

  lemma InvIsSized(s: H.Sys)
    requires H.Inv(s)
    ensures H.Sized(s)
  {
  }

  /** Eight calls from `mem_init`, the first one the request of a mount, lead to the board, with no node yet. */
  lemma BoardReached(h: H.Heap, disk: Disk) returns (states: seq<H.Sys>, ops: seq<H.Op>, last: H.Sys)
    requires H.WellFormed(h) && |h.used| >= 96 && H.Prefix(h.used, 0)
    ensures H.Reaches(h, states, ops, last) && |ops| == 8
    ensures H.Inv(last) && |last.live| == 4 && last.live[0] == BlockAt(4, CTX_SIZE) && Board(last.heap.used)
    ensures Owns(Fs([], 0, disk, last.heap), last.live, multiset(last.live))
  {
    states, ops, last := SixBlocks(h);
    hide H.Inv, H.Reaches;
    states, ops, last := Return(h, states, ops, last, 2);
    states, ops, last := Return(h, states, ops, last, 3);
    assert Nodes([]) == [];
    assert multiset(Nodes([])) + multiset(last.live) == multiset(last.live);
  }

  /**
   On that board, with no file yet: creating `a` takes units 33 to 38, which fills word 1, and creating `b` takes
   31 to 36. The name field of the second node, 32 bytes from byte 252, reaches into the name of the first, from
   byte 268, which is still in the list. Only the second request is unclean.
   */
  lemma NameOverName(blockSize: nat, fs: Fs, a: string, b: string, live: seq<Block>, stray: multiset<Block>)
    requires 0 < blockSize && Owns(fs, live, stray) && fs.files == [] && fs.next < TWO32 && Board(fs.heap.used)
    requires a != b
    ensures HeapSized(fs) && HeapSized(RamfsModel.Create(AsWritten, fs, a).0)
    ensures var one := RamfsModel.Create(AsWritten, fs, a).0;
            var two := RamfsModel.Create(AsWritten, one, b).0;
      && CreatedInOrder(AsWritten, blockSize, [fs, one, two], [Create(a), Create(b)], a, b, 1)
      && CleanOp(AsWritten, fs, Create(a)) && !CleanOp(AsWritten, one, Create(b))
      && |two.files| == 2 && two.files[0].0 == b && two.files[1].0 == a
      && two.files[0].1.node == 252 && two.files[1].1.node == 268 < 252 + NAME_FIELD
  {
    UnitsAre();
    FirstTakes(fs, a, live, stray);
    var one := RamfsModel.Create(AsWritten, fs, a).0;
    SecondTakes(one, b);
    TwoCreatesInOrder(AsWritten, blockSize, fs, a, b);
  }

  lemma TwoCreatesInOrder(v: Variant, blockSize: nat, fs: Fs, a: string, b: string)
    requires 0 < blockSize && fs.next < TWO32 && HeapSized(fs) && HeapSized(RamfsModel.Create(v, fs, a).0)
    requires RamfsModel.Create(v, fs, a).1 == 0 && RamfsModel.Create(v, RamfsModel.Create(v, fs, a).0, b).1 == 0
    ensures var one := RamfsModel.Create(v, fs, a).0;
            var two := RamfsModel.Create(v, one, b).0;
      CreatedInOrder(v, blockSize, [fs, one, two], [Create(a), Create(b)], a, b, 1)
  {
    hide RamfsModel.Create;
  }

  const NAME_FIELD: nat := 32

  lemma FirstTakes(fs: Fs, a: string, live: seq<Block>, stray: multiset<Block>)
    requires Owns(fs, live, stray) && fs.files == [] && Board(fs.heap.used)
    ensures HeapSized(fs) && H.WellFormed(fs.heap) && CleanOp(AsWritten, fs, Create(a))
    ensures var (one, code) := RamfsModel.Create(AsWritten, fs, a);
      && code == 0 && one.files == [(a, Info(0, fs.next, 268))] && one.next == fs.next && H.WellFormed(one.heap)
      && |one.heap.used| >= 96 && forall i :: 0 <= i < |one.heap.used| ==> (one.heap.used[i] <==> i < 64 && i != 31)
  {
    UnitsAre();
    HeapClients.InvSized(fs.heap, live);
    var used := fs.heap.used;
    Search.Complete(AsWritten, used, 6, 33);
    Window(AsWritten, used, 6);
    assert !InFullWord(used, 32) by {
      assert !FullWord(used, 1) by { assert !used[32 * 1 + 1]; }
    }
    assert Find(AsWritten, used, 6) == 33;
    H.CleanWindowFits(AsWritten, used, NODE_SIZE);
    assert H.Alloc(AsWritten, fs.heap, NODE_SIZE).1.Some?;
    H.FreshHeader(AsWritten, fs.heap, NODE_SIZE);
  }

  lemma SecondTakes(one: Fs, b: string)
    requires H.WellFormed(one.heap) && |one.files| == 1 && one.files[0].0 != b
    requires |one.heap.used| >= 96 && forall i :: 0 <= i < |one.heap.used| ==> (one.heap.used[i] <==> i < 64 && i != 31)
    ensures HeapSized(one) && !CleanOp(AsWritten, one, Create(b))
    ensures var (two, code) := RamfsModel.Create(AsWritten, one, b);
      code == 0 && two.files == [(b, Info(0, one.next, 252))] + one.files && two.next == one.next
  {
    UnitsAre();
    var used := one.heap.used;
    CountsAcross(used, 6);
    H.CleanWindowFits(AsWritten, used, NODE_SIZE);
    assert used[32];
    assert H.Alloc(AsWritten, one.heap, NODE_SIZE).1.Some?;
    H.FreshHeader(AsWritten, one.heap, NODE_SIZE);
  }
}

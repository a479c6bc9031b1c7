/**
 The extents of ramfs over clean runs, in which every file node keeps its own bytes: what the counter is, where a
 file starts, and when two files share a block.
 */
module RamfsExtents {
  import opened Words
  import opened Search
  import opened DiskModel
  import opened FileList
  import opened RamfsModel
  import opened RamfsRuns
  import opened RamfsHeap
  import H = HeapModel

  /** A run from a state that owns its nodes, the first `n` operations of which are clean. */
  ghost predicate CleanRun(v: Variant, blockSize: nat, states: seq<Fs>, ops: seq<Op>,
                           live: seq<Block>, stray: multiset<Block>, n: nat) {
    && IsRun(v, blockSize, states, ops) && n <= |ops| && Owns(states[0], live, stray)
    && forall i {:trigger ops[i]} :: 0 <= i < n ==> CleanOp(v, states[i], ops[i])
  }

  /** Without a format the counter is the sum of everything written, modulo its 32 bits. */
  lemma CounterIsSum(v: Variant, blockSize: nat, states: seq<Fs>, ops: seq<Op>,
                     live: seq<Block>, stray: multiset<Block>, n: nat)
    requires CleanRun(v, blockSize, states, ops, live, stray, n) && states[0].next < TWO32
    requires forall i :: 0 <= i < n ==> !ops[i].Format?
    ensures states[n].next == Wrap32(states[0].next + Written(blockSize, states, ops, n))
    ensures OwnsAt(v, blockSize, states, ops, live, stray, n)
  {
    CleanRunOwns(v, blockSize, states, ops, live, stray, n);
    CounterOnValues(v, blockSize, states, ops, n);
  }

  /** With formats it is the sum of what was written since the last one. */
  lemma CounterSinceFormat(v: Variant, blockSize: nat, states: seq<Fs>, ops: seq<Op>,
                           live: seq<Block>, stray: multiset<Block>, n: nat)
    requires CleanRun(v, blockSize, states, ops, live, stray, n) && states[0].next < TWO32
    ensures states[n].next == Wrap32(SinceFormat(blockSize, states, ops, n))
    ensures OwnsAt(v, blockSize, states, ops, live, stray, n)
  {
    CleanRunOwns(v, blockSize, states, ops, live, stray, n);
    SinceFormatOnValues(v, blockSize, states, ops, n);
  }

  /** A file keeps its first block for as long as it keeps its name. */
  lemma StartStaysInRun(v: Variant, blockSize: nat, states: seq<Fs>, ops: seq<Op>,
                        live: seq<Block>, stray: multiset<Block>, name: string, start: nat, from: nat, n: nat)
    requires CleanRun(v, blockSize, states, ops, live, stray, n) && from <= n && StartsAt(states[from], name, start)
    requires forall i :: from <= i < n ==> LeavesName(ops[i], name)
    ensures StartsAt(states[n], name, start) && OwnsAt(v, blockSize, states, ops, live, stray, n)
  {
    CleanRunOwns(v, blockSize, states, ops, live, stray, n);
    StartOnValues(v, blockSize, states, ops, name, start, from, n);
  }

  /** The extent law: B starts exactly as many blocks after A as were written between the two creates. */
  lemma ExtentLaw(v: Variant, blockSize: nat, states: seq<Fs>, ops: seq<Op>,
                  live: seq<Block>, stray: multiset<Block>, a: string, b: string, m: nat)
    requires CleanRun(v, blockSize, states, ops, live, stray, |ops|)
    requires CreatedInOrder(v, blockSize, states, ops, a, b, m)
    ensures StartsAt(states[|ops|], a, states[0].next)
    ensures StartsAt(states[|ops|], b, Wrap32(states[0].next + Written(blockSize, states, ops, m)))
    ensures OwnsAt(v, blockSize, states, ops, live, stray, |ops|)
  {
    CleanRunOwns(v, blockSize, states, ops, live, stray, |ops|);
    ExtentOnValues(v, blockSize, states, ops, a, b, m);
  }

  /**
   At the end of such a run two non-empty files share no block exactly when the writes between their
   creates took at least as many blocks as the older file has now.
   */
  lemma ExtentsDisjointIff(v: Variant, blockSize: nat, states: seq<Fs>, ops: seq<Op>,
                           live: seq<Block>, stray: multiset<Block>, a: string, b: string, m: nat)
    requires CleanRun(v, blockSize, states, ops, live, stray, |ops|)
    requires CreatedInOrder(v, blockSize, states, ops, a, b, m)
    requires states[0].next + Written(blockSize, states, ops, m) < TWO32
    requires BlockCount(states[|ops|], blockSize, a) > 0 && BlockCount(states[|ops|], blockSize, b) > 0
    ensures var fs := states[|ops|];
      (forall k :: !(InFile(fs, blockSize, a, k) && InFile(fs, blockSize, b, k)))
      <==> Written(blockSize, states, ops, m) >= BlockCount(fs, blockSize, a)
    ensures OwnsAt(v, blockSize, states, ops, live, stray, |ops|)
  {
    CleanRunOwns(v, blockSize, states, ops, live, stray, |ops|);
    DisjointOnValues(v, blockSize, states, ops, a, b, m);
  }

  /** With two files created before the first is written, writing A and then B leaves B's bytes in A. */
  lemma LaterWriteShowsThrough(v: Variant, blockSize: nat, states: seq<Fs>, live: seq<Block>, stray: multiset<Block>,
                               a: string, b: string, dataA: Buffer, dataB: Buffer)
    requires var ops := [Create(a), Create(b), Write(a, dataA), Write(b, dataB)];
      CleanRun(v, blockSize, states, ops, live, stray, 4)
    requires a != b && |states[1].files| == |states[0].files| + 1 && |states[2].files| == |states[1].files| + 1
    requires DiskModel.Sized(states[0].disk, blockSize) && |states[0].disk| < TWO32
    requires |dataB| + blockSize - 1 < TWO32
    requires states[0].next + Needed(|dataB|, blockSize) <= |states[0].disk|
    ensures StartsAt(states[4], a, states[0].next) && StartsAt(states[4], b, states[0].next)
    ensures Holds(states[4].disk, blockSize, states[0].next, dataB)
    ensures OwnsAt(v, blockSize, states, [Create(a), Create(b), Write(a, dataA), Write(b, dataB)], live, stray, 4)
  {
    var ops := [Create(a), Create(b), Write(a, dataA), Write(b, dataB)];
    CleanRunOwns(v, blockSize, states, ops, live, stray, 4);
    hide CleanOp, Owns, OwnsAt;
    LaterWriteOnValues(v, blockSize, states, a, b, dataA, dataB);
  }
}

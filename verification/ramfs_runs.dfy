/**
 Runs of ramfs: where extents lie, when they overlap, and the discipline under which files are safe.
 Nodes are values here; ramfs_heap.dfy shows when they are apart in the heap.
 */
module RamfsRuns {
  import opened Words
  import opened Search
  import opened DiskModel
  import opened FileList
  import opened RamfsModel
  import H = HeapModel

  /** What a 32-bit `size_t` can measure. */
  type Buffer = b: seq<byte> | |b| < TWO32 witness []

  datatype Op =
    | Format
    | Create(name: string)
    | Write(name: string, data: Buffer)
    | Read(name: string)
    | Remove(name: string)
    | Rename(name: string, newName: string)

  ghost predicate HeapSized(fs: Fs) {
    |fs.heap.used| == |fs.heap.mem| / H.UNIT
  }

  /** The new state and the return value; a read changes neither the state nor the device. */
  ghost function Step(v: Variant, blockSize: nat, fs: Fs, op: Op): (Fs, int)
    requires 0 < blockSize && HeapSized(fs)
  {
    match op
    case Format => (RamfsModel.Format(fs), 0)
    case Create(name) => RamfsModel.Create(v, fs, name)
    case Write(name, data) => RamfsModel.Write(fs, blockSize, name, data)
    case Read(name) => (fs, if FindName(fs.files, name) < |fs.files| then 0 else -1)
    case Remove(name) => RamfsModel.Remove(fs, name)
    case Rename(name, newName) => RamfsModel.Rename(fs, name, newName)
  }

  ghost predicate IsRun(v: Variant, blockSize: nat, states: seq<Fs>, ops: seq<Op>) {
    && 0 < blockSize && |states| == |ops| + 1
    && forall i {:trigger ops[i]} :: 0 <= i < |ops| ==>
      HeapSized(states[i]) && states[i + 1] == Step(v, blockSize, states[i], ops[i]).0
  }

  /** Blocks by which one operation moves the counter. */
  ghost function Advance(blockSize: nat, fs: Fs, op: Op): nat
    requires 0 < blockSize
  {
    if op.Write? && FindName(fs.files, op.name) < |fs.files| then Needed(|op.data|, blockSize) else 0
  }

  /** Total blocks of the successful writes among the first `n` operations. */
  ghost function Written(blockSize: nat, states: seq<Fs>, ops: seq<Op>, n: nat): nat
    requires 0 < blockSize && n <= |ops| && n <= |states|
  {
    if n == 0 then 0
    else Written(blockSize, states, ops, n - 1) + Advance(blockSize, states[n - 1], ops[n - 1])
  }

  lemma StepAdvances(v: Variant, blockSize: nat, fs: Fs, op: Op)
    requires 0 < blockSize && HeapSized(fs) && fs.next < TWO32 && !op.Format?
    ensures Step(v, blockSize, fs, op).0.next == Wrap32(fs.next + Advance(blockSize, fs, op))
  {
    WrapSmall(fs.next);
    hide Wrap32, H.Alloc, WriteLoop, Needed;
  }

  /** Without a format the counter is the sum of everything written, modulo its 32 bits. */
  lemma {:induction false} CounterOnValues(v: Variant, blockSize: nat, states: seq<Fs>, ops: seq<Op>, n: nat)
    requires IsRun(v, blockSize, states, ops) && n <= |ops| && states[0].next < TWO32
    requires forall i :: 0 <= i < n ==> !ops[i].Format?
    ensures states[n].next == Wrap32(states[0].next + Written(blockSize, states, ops, n))
  {
    if n > 0 {
      CounterOnValues(v, blockSize, states, ops, n - 1);
      StepAdvances(v, blockSize, states[n - 1], ops[n - 1]);
      var w, a := Written(blockSize, states, ops, n - 1), Advance(blockSize, states[n - 1], ops[n - 1]);
      WrapAdd(states[0].next + w, a);
      hide Step, Advance, Wrap32;
      assert states[n - 1 + 1] == Step(v, blockSize, states[n - 1], ops[n - 1]).0;
      assert states[0].next + w + a == states[0].next + Written(blockSize, states, ops, n);
    } else {
      WrapSmall(states[0].next);
    }
  }

  /** Where the counter stood at the start, or 0 after a format, plus the blocks written since. */
  ghost function SinceFormat(blockSize: nat, states: seq<Fs>, ops: seq<Op>, n: nat): nat
    requires 0 < blockSize && n <= |ops| && n < |states|
  {
    if n == 0 then states[0].next
    else if ops[n - 1].Format? then 0
    else SinceFormat(blockSize, states, ops, n - 1) + Advance(blockSize, states[n - 1], ops[n - 1])
  }

  lemma {:induction false} SinceFormatOnValues(v: Variant, blockSize: nat, states: seq<Fs>, ops: seq<Op>, n: nat)
    requires IsRun(v, blockSize, states, ops) && n <= |ops| && states[0].next < TWO32
    ensures states[n].next == Wrap32(SinceFormat(blockSize, states, ops, n))
  {
    if n == 0 {
      WrapSmall(states[0].next);
    } else {
      SinceFormatOnValues(v, blockSize, states, ops, n - 1);
      var fs, op := states[n - 1], ops[n - 1];
      assert states[n - 1 + 1] == Step(v, blockSize, fs, op).0;
      if !op.Format? {
        StepAdvances(v, blockSize, fs, op);
        var s, a := SinceFormat(blockSize, states, ops, n - 1), Advance(blockSize, fs, op);
        hide Step, Advance, Wrap32;
        WrapAdd(s, a);
      }
    }
  }

  /** The first file created after a format starts at block 0. */
  lemma FirstAfterFormat(v: Variant, fs: Fs, name: string)
    requires HeapSized(fs) && RamfsModel.Create(v, RamfsModel.Format(fs), name).1 == 0
    ensures var fs' := RamfsModel.Create(v, RamfsModel.Format(fs), name).0;
      |fs'.files| == 1 && StartsAt(fs', name, 0)
  {
    hide H.Alloc;
  }

  ghost predicate StartsAt(fs: Fs, name: string, start: nat) {
    var i := FindName(fs.files, name);
    i < |fs.files| && fs.files[i].1.start == start
  }

  /** The operation neither formats nor takes this name away nor gives it to another file. */
  ghost predicate LeavesName(op: Op, name: string) {
    match op
    case Format => false
    case Remove(n) => n != name
    case Rename(n, m) => n != name && m != name
    case _ => true
  }

  lemma StartStaysAfterCreate(v: Variant, fs: Fs, name: string, start: nat, other: string)
    requires HeapSized(fs) && StartsAt(fs, name, start)
    ensures StartsAt(RamfsModel.Create(v, fs, other).0, name, start)
  {
    hide H.Alloc;
    var fs' := RamfsModel.Create(v, fs, other).0;
    if |fs'.files| > |fs.files| { FindNameIs(fs'.files, name, FindName(fs.files, name) + 1); }
  }

  lemma StartStaysAfterRemove(fs: Fs, name: string, start: nat, other: string)
    requires StartsAt(fs, name, start) && other != name
    ensures StartsAt(RamfsModel.Remove(fs, other).0, name, start)
  {
    hide H.Free;
    var i, k := FindName(fs.files, name), FindName(fs.files, other);
    if k < |fs.files| { FindNameIs(Without(fs.files, k), name, if i < k then i else i - 1); }
  }

  /** A file keeps its first block for as long as it keeps its name. */
  lemma StartStays(v: Variant, blockSize: nat, fs: Fs, op: Op, name: string, start: nat)
    requires 0 < blockSize && HeapSized(fs) && StartsAt(fs, name, start) && LeavesName(op, name)
    ensures StartsAt(Step(v, blockSize, fs, op).0, name, start)
  {
    match op
    case Create(n) => StartStaysAfterCreate(v, fs, name, start, n);
    case Write(n, data) =>
      hide WriteLoop, Needed, Wrap32;
      FindNameIs(Step(v, blockSize, fs, op).0.files, name, FindName(fs.files, name));
    case Read(_) =>
    case Remove(n) => StartStaysAfterRemove(fs, name, start, n);
    case Rename(n, m) =>
      FindNameIs(Step(v, blockSize, fs, op).0.files, name, FindName(fs.files, name));
  }

  lemma {:induction false} StartOnValues(v: Variant, blockSize: nat, states: seq<Fs>, ops: seq<Op>,
                                           name: string, start: nat, from: nat, n: nat)
    requires IsRun(v, blockSize, states, ops) && from <= n <= |ops| && StartsAt(states[from], name, start)
    requires forall i :: from <= i < n ==> LeavesName(ops[i], name)
    ensures StartsAt(states[n], name, start)
  {
    if from < n {
      StartOnValues(v, blockSize, states, ops, name, start, from, n - 1);
      StartStays(v, blockSize, states[n - 1], ops[n - 1], name, start);
      assert states[n - 1 + 1] == Step(v, blockSize, states[n - 1], ops[n - 1]).0;
    }
  }

  /** A is created first, B at step `m`, and both keep their names to the end of the run. */
  ghost predicate CreatedInOrder(v: Variant, blockSize: nat, states: seq<Fs>, ops: seq<Op>, a: string, b: string, m: nat) {
    && IsRun(v, blockSize, states, ops) && 0 < m < |ops| && states[0].next < TWO32
    && ops[0] == Create(a) && Step(v, blockSize, states[0], ops[0]).1 == 0
    && ops[m] == Create(b) && Step(v, blockSize, states[m], ops[m]).1 == 0
    && (forall i {:trigger ops[i]} :: 0 < i < |ops| ==> LeavesName(ops[i], a))
    && (forall i {:trigger ops[i]} :: m < i < |ops| ==> LeavesName(ops[i], b))
  }

  /** The extent law: B starts exactly as many blocks after A as were written between the two creates. */
  lemma ExtentOnValues(v: Variant, blockSize: nat, states: seq<Fs>, ops: seq<Op>, a: string, b: string, m: nat)
    requires CreatedInOrder(v, blockSize, states, ops, a, b, m)
    ensures StartsAt(states[|ops|], a, states[0].next)
    ensures StartsAt(states[|ops|], b, Wrap32(states[0].next + Written(blockSize, states, ops, m)))
  {
    assert states[0 + 1] == Step(v, blockSize, states[0], ops[0]).0;
    assert states[m + 1] == Step(v, blockSize, states[m], ops[m]).0;
    CreateStarts(v, blockSize, states[0], a);
    CreateStarts(v, blockSize, states[m], b);
    hide Step, StartsAt, Wrap32;
    StartOnValues(v, blockSize, states, ops, a, states[0].next, 1, |ops|);
    CounterOnValues(v, blockSize, states, ops, m);
    StartOnValues(v, blockSize, states, ops, b, states[m].next, m + 1, |ops|);
  }

  lemma CreateStarts(v: Variant, blockSize: nat, fs: Fs, name: string)
    requires 0 < blockSize && HeapSized(fs) && Step(v, blockSize, fs, Create(name)).1 == 0
    ensures StartsAt(Step(v, blockSize, fs, Create(name)).0, name, fs.next)
  {
  }

  ghost predicate InExtent(start: nat, count: nat, block: nat) {
    start <= block < start + count
  }

  /** Blocks the file now needs. */
  ghost function BlockCount(fs: Fs, blockSize: nat, name: string): nat
    requires 0 < blockSize
  {
    var i := FindName(fs.files, name);
    if i < |fs.files| && fs.files[i].1.size < TWO32 then Needed(fs.files[i].1.size, blockSize) else 0
  }

  ghost predicate InFile(fs: Fs, blockSize: nat, name: string, block: nat)
    requires 0 < blockSize
  {
    var i := FindName(fs.files, name);
    i < |fs.files| && InExtent(fs.files[i].1.start, BlockCount(fs, blockSize, name), block)
  }

  /**
   At the end of such a run two non-empty files share no block exactly when the writes between their
   creates took at least as many blocks as the older file has now.
   */
  lemma DisjointOnValues(v: Variant, blockSize: nat, states: seq<Fs>, ops: seq<Op>, a: string, b: string, m: nat)
    requires CreatedInOrder(v, blockSize, states, ops, a, b, m)
    requires states[0].next + Written(blockSize, states, ops, m) < TWO32
    requires BlockCount(states[|ops|], blockSize, a) > 0 && BlockCount(states[|ops|], blockSize, b) > 0
    ensures var fs := states[|ops|];
      (forall k :: !(InFile(fs, blockSize, a, k) && InFile(fs, blockSize, b, k)))
      <==> Written(blockSize, states, ops, m) >= BlockCount(fs, blockSize, a)
  {
    var fs := states[|ops|];
    var startA, written := states[0].next, Written(blockSize, states, ops, m);
    ExtentOnValues(v, blockSize, states, ops, a, b, m);
    WrapSmall(startA + written);
    hide IsRun, Written, Wrap32, Needed, FindName, BlockCount;
    if written < BlockCount(fs, blockSize, a) {
      assert InFile(fs, blockSize, a, startA + written) && InFile(fs, blockSize, b, startA + written);
    }
  }

  /** With two files created before the first is written, writing A and then B leaves B's bytes in A. */
  lemma LaterWriteOnValues(v: Variant, blockSize: nat, states: seq<Fs>, a: string, b: string,
                               dataA: Buffer, dataB: Buffer)
    requires IsRun(v, blockSize, states, [Create(a), Create(b), Write(a, dataA), Write(b, dataB)]) && a != b
    requires |states[1].files| == |states[0].files| + 1 && |states[2].files| == |states[1].files| + 1
    requires DiskModel.Sized(states[0].disk, blockSize) && |states[0].disk| < TWO32
    requires |dataB| + blockSize - 1 < TWO32
    requires states[0].next + Needed(|dataB|, blockSize) <= |states[0].disk|
    ensures StartsAt(states[4], a, states[0].next) && StartsAt(states[4], b, states[0].next)
    ensures Holds(states[4].disk, blockSize, states[0].next, dataB)
  {
    var ops := [Create(a), Create(b), Write(a, dataA), Write(b, dataB)];
    assert states[0 + 1] == Step(v, blockSize, states[0], ops[0]).0;
    assert states[1 + 1] == Step(v, blockSize, states[1], ops[1]).0;
    assert states[2 + 1] == Step(v, blockSize, states[2], ops[2]).0;
    assert states[3 + 1] == Step(v, blockSize, states[3], ops[3]).0;
    var s := states[0].next;
    CreateFrame(v, blockSize, states[0], a);
    CreateFrame(v, blockSize, states[1], b);
    WriteKeepsSizes(v, blockSize, states[2], a, dataA);
    hide Step, StartsAt;
    StartOnValues(v, blockSize, states, ops, a, s, 1, 4);
    StartOnValues(v, blockSize, states, ops, b, s, 2, 4);
    StartOnValues(v, blockSize, states, ops, b, s, 2, 3);
    hide IsRun, Needed;
    WriteStep(v, blockSize, states[3], b, dataB);
    WriteLands(states[3], blockSize, b, dataB, s);
  }

  /** A create that adds a file starts it at the counter and touches nothing else. */
  lemma CreateFrame(v: Variant, blockSize: nat, fs: Fs, name: string)
    requires 0 < blockSize && HeapSized(fs)
    ensures var fs' := Step(v, blockSize, fs, Create(name)).0;
      && fs'.next == fs.next && fs'.disk == fs.disk
      && (|fs'.files| == |fs.files| + 1 ==> StartsAt(fs', name, fs.next))
  {
    hide H.Alloc;
  }

  lemma WriteKeepsSizes(v: Variant, blockSize: nat, fs: Fs, name: string, data: Buffer)
    requires 0 < blockSize && HeapSized(fs) && DiskModel.Sized(fs.disk, blockSize)
    ensures var fs' := Step(v, blockSize, fs, Write(name, data)).0;
      |fs'.disk| == |fs.disk| && DiskModel.Sized(fs'.disk, blockSize)
  {
    hide WriteLoop, Needed;
  }

  lemma WriteStep(v: Variant, blockSize: nat, fs: Fs, name: string, data: Buffer)
    requires 0 < blockSize && HeapSized(fs)
    ensures Step(v, blockSize, fs, Write(name, data)).0 == RamfsModel.Write(fs, blockSize, name, data).0
  {
  }

  /** A write that fits the device leaves its bytes there, wherever the file starts. */
  lemma WriteLands(fs: Fs, blockSize: nat, name: string, data: Buffer, start: nat)
    requires 0 < blockSize && StartsAt(fs, name, start) && |data| + blockSize - 1 < TWO32
    requires DiskModel.Sized(fs.disk, blockSize) && start + Needed(|data|, blockSize) <= |fs.disk| < TWO32
    ensures Holds(RamfsModel.Write(fs, blockSize, name, data).0.disk, blockSize, start, data)
  {
    NeededBounds(|data|, blockSize);
    WriteLoopHolds(fs.disk, blockSize, start, data, Needed(|data|, blockSize));
    hide WriteLoop, Needed, Holds;
  }

  /** Data that is written is on the device exactly when its last block is; the write returns 0 in either case. */
  lemma WriteLandsIff(fs: Fs, blockSize: nat, name: string, data: Buffer, start: nat)
    requires 0 < blockSize && StartsAt(fs, name, start) && 0 < |data| && |data| + blockSize - 1 < TWO32
    requires DiskModel.Sized(fs.disk, blockSize) && |fs.disk| < TWO32
    ensures var (fs', code) := RamfsModel.Write(fs, blockSize, name, data);
      && code == 0
      && (Holds(fs'.disk, blockSize, start, data) <==> start + Needed(|data|, blockSize) <= |fs.disk|)
  {
    if start + Needed(|data|, blockSize) <= |fs.disk| {
      WriteLands(fs, blockSize, name, data, start);
    } else {
      LastBlock(|data|, blockSize);
      hide Needed, WriteLoop;
      var d := RamfsModel.Write(fs, blockSize, name, data).0.disk;
      assert !ByteAt(d, start + BlockOf(|data| - 1, blockSize), PlaceOf(|data| - 1, blockSize), data[|data| - 1]);
    }
  }

  /** The last byte stands in the last of the blocks needed. */
  lemma LastBlock(len: nat, blockSize: nat)
    requires 0 < len && 0 < blockSize && len + blockSize - 1 < TWO32
    ensures BlockOf(len - 1, blockSize) + 1 == Needed(len, blockSize)
  {
    NextQuotient(len - 1, blockSize);
  }

  lemma NextQuotient(x: nat, n: nat)
    requires 0 < n
    ensures (x + n) / n == x / n + 1
  {
    var q, r := x / n, x % n;
    assert x + n == n * (q + 1) + r;
    DivModOf(q + 1, n, r);
  }

  // ----- the discipline -----

  /** A file made by a create and one write right after it, a read, a removal, or a change of name. */
  datatype Deed =
    | Put(name: string, data: seq<byte>)
    | Get(name: string, len: uint32, buffer: seq<byte>)
    | Drop(name: string)
    | Move(name: string, newName: string)

  ghost function Reach(info: Info, blockSize: nat): nat
    requires 0 < blockSize
  {
    if info.size < TWO32 then info.start + Needed(info.size, blockSize) else info.start
  }

  ghost predicate FileSafe(fs: Fs, blockSize: nat, m: map<string, seq<byte>>, f: (string, Info))
    requires 0 < blockSize
  {
    && f.0 in m && f.1.size == |m[f.0]| && f.1.size + blockSize - 1 < TWO32
    && Reach(f.1, blockSize) <= fs.next
    && Holds(fs.disk, blockSize, f.1.start, m[f.0])
  }

  ghost predicate ExtentsApart(f: Info, g: Info, blockSize: nat)
    requires 0 < blockSize
  {
    Reach(f, blockSize) <= g.start || Reach(g, blockSize) <= f.start
  }

  /** Every live file reads back what was put, and extents are pairwise disjoint and below the counter. */
  ghost predicate Safe(fs: Fs, blockSize: nat, m: map<string, seq<byte>>) {
    && 0 < blockSize && DiskModel.Sized(fs.disk, blockSize)
    && fs.next <= |fs.disk| < TWO32
    && HeapSized(fs)
    && (forall i :: 0 <= i < |fs.files| ==> FileSafe(fs, blockSize, m, fs.files[i]))
    && AllApart(fs.files, blockSize)
    && (forall n <- m :: FindName(fs.files, n) < |fs.files|)
  }

  /** A put of a fresh name that finds heap for its node and room on the device; a move to a name that is free. */
  ghost predicate Possible(v: Variant, fs: Fs, blockSize: nat, d: Deed)
    requires 0 < blockSize && HeapSized(fs)
  {
    && (d.Put? ==>
          && FindName(fs.files, d.name) == |fs.files| && H.Alloc(v, fs.heap, NODE_SIZE).1.Some?
          && |d.data| + blockSize - 1 < TWO32
          && fs.next + Needed(|d.data|, blockSize) <= |fs.disk|)
    && (d.Move? ==> d.newName == d.name || FindName(fs.files, d.newName) == |fs.files|)
  }

  ghost function Do(v: Variant, fs: Fs, blockSize: nat, d: Deed): Fs
    requires 0 < blockSize && HeapSized(fs) && Possible(v, fs, blockSize, d)
  {
    match d
    case Put(name, data) => RamfsModel.Write(RamfsModel.Create(v, fs, name).0, blockSize, name, data).0
    case Get(_, _, _) => fs
    case Drop(name) => RamfsModel.Remove(fs, name).0
    case Move(name, newName) => RamfsModel.Rename(fs, name, newName).0
  }

  function DoMap(m: map<string, seq<byte>>, d: Deed): map<string, seq<byte>> {
    match d
    case Put(name, data) => m[name := data]
    case Get(_, _, _) => m
    case Drop(name) => m - {name}
    case Move(name, newName) => if name in m then (m - {name})[newName := m[name]] else m
  }

  /** Bytes below the counter survive a write that starts at the counter. */
  lemma HoldsFrame(d: Disk, d': Disk, blockSize: nat, info: Info, data: seq<byte>)
    requires 0 < blockSize && Holds(d, blockSize, info.start, data) && |d'| == |d|
    requires |data| == info.size && info.size + blockSize - 1 < TWO32
    requires forall b :: info.start <= b < Reach(info, blockSize) && b < |d| ==> d'[b] == d[b]
    ensures Holds(d', blockSize, info.start, data)
  {
    NeededBounds(|data|, blockSize);
    hide BlockOf, PlaceOf, Needed;
    forall j | 0 <= j < |data|
      ensures ByteAt(d', info.start + BlockOf(j, blockSize), PlaceOf(j, blockSize), data[j])
    {
      assert ByteAt(d, info.start + BlockOf(j, blockSize), PlaceOf(j, blockSize), data[j]);
      BlockBelow(j, Needed(|data|, blockSize), blockSize);
    }
  }

  /** A put adds one file at the head, above every other extent. */
  lemma PutState(v: Variant, fs: Fs, blockSize: nat, name: string, data: seq<byte>)
    requires 0 < blockSize && HeapSized(fs) && Possible(v, fs, blockSize, Put(name, data))
    requires fs.next <= |fs.disk| < TWO32
    ensures var fs' := Do(v, fs, blockSize, Put(name, data));
      && |fs'.files| == |fs.files| + 1 && fs'.files[0].0 == name
      && fs'.files[0].1.start == fs.next && fs'.files[0].1.size == |data|
      && (forall i :: 0 < i < |fs'.files| ==> fs'.files[i] == fs.files[i - 1])
      && fs'.next == fs.next + Needed(|data|, blockSize)
      && fs'.disk == WriteLoop(fs.disk, blockSize, fs.next, data, Needed(|data|, blockSize))
      && HeapSized(fs')
  {
    hide H.Alloc, WriteLoop, Needed, Wrap32;
    var fs1 := RamfsModel.Create(v, fs, name).0;
    WrapSmall(fs.next + Needed(|data|, blockSize));
    FindNameIs(fs1.files, name, 0);
  }

  lemma PutFileSafe(v: Variant, fs: Fs, blockSize: nat, m: map<string, seq<byte>>, name: string, data: seq<byte>, i: nat)
    requires Safe(fs, blockSize, m) && Possible(v, fs, blockSize, Put(name, data)) && i <= |fs.files|
    ensures var fs' := Do(v, fs, blockSize, Put(name, data));
      i < |fs'.files| && FileSafe(fs', blockSize, m[name := data], fs'.files[i])
  {
    PutState(v, fs, blockSize, name, data);
    var fs' := Do(v, fs, blockSize, Put(name, data));
    var n := Needed(|data|, blockSize);
    hide Do, Possible, Needed;
    if i == 0 {
      NeededBounds(|data|, blockSize);
      WriteLoopHolds(fs.disk, blockSize, fs.next, data, n);
    } else {
      var f := fs.files[i - 1];
      assert FileSafe(fs, blockSize, m, f);
      forall b | f.1.start <= b < Reach(f.1, blockSize) && b < |fs.disk| ensures fs'.disk[b] == fs.disk[b] {
        WriteLoopElsewhere(fs.disk, blockSize, fs.next, data, n, b);
      }
      HoldsFrame(fs.disk, fs'.disk, blockSize, f.1, m[f.0]);
    }
  }

  lemma PutOnValues(v: Variant, fs: Fs, blockSize: nat, m: map<string, seq<byte>>, name: string, data: seq<byte>)
    requires Safe(fs, blockSize, m) && Possible(v, fs, blockSize, Put(name, data))
    ensures Safe(Do(v, fs, blockSize, Put(name, data)), blockSize, m[name := data])
  {
    PutState(v, fs, blockSize, name, data);
    var fs' := Do(v, fs, blockSize, Put(name, data));
    forall i | 0 <= i < |fs'.files| ensures FileSafe(fs', blockSize, m[name := data], fs'.files[i]) {
      PutFileSafe(v, fs, blockSize, m, name, data, i);
    }
    hide Do, Possible, Needed, Holds;
    forall i, j | 0 <= i < |fs'.files| && 0 <= j < |fs'.files| && i != j
      ensures fs'.files[i].0 != fs'.files[j].0 && ExtentsApart(fs'.files[i].1, fs'.files[j].1, blockSize)
    {
      if i > 0 { assert FileSafe(fs, blockSize, m, fs.files[i - 1]); }
      if j > 0 { assert FileSafe(fs, blockSize, m, fs.files[j - 1]); }
    }
    forall n <- m[name := data] ensures FindName(fs'.files, n) < |fs'.files| {
      var k := FindName(fs.files, n);
      assert n != name ==> fs'.files[k + 1].0 == n;
    }
  }

  lemma DropFileSafe(fs: Fs, blockSize: nat, m: map<string, seq<byte>>, name: string, j: nat)
    requires 0 < blockSize && j < |fs.files| && FileSafe(fs, blockSize, m, fs.files[j]) && fs.files[j].0 != name
    ensures FileSafe(RamfsModel.Remove(fs, name).0, blockSize, m - {name}, fs.files[j])
  {
    hide Holds, Needed, H.Free, FindName;
  }

  ghost predicate AllApart(files: seq<(string, Info)>, blockSize: nat)
    requires 0 < blockSize
  {
    forall i, j :: 0 <= i < |files| && 0 <= j < |files| && i != j ==>
      files[i].0 != files[j].0 && ExtentsApart(files[i].1, files[j].1, blockSize)
  }

  lemma DropApart(files: seq<(string, Info)>, blockSize: nat, k: nat)
    requires 0 < blockSize && AllApart(files, blockSize) && k < |files|
    ensures AllApart(Without(files, k), blockSize)
  {
    hide ExtentsApart;
  }

  lemma DropFinds(files: seq<(string, Info)>, k: nat, n: string)
    requires FindName(files, n) < |files| && k < |files| && files[k].0 != n
    ensures FindName(Without(files, k), n) < |files| - 1
  {
    var j := FindName(files, n);
    assert Without(files, k)[if j < k then j else j - 1].0 == n;
  }

  lemma DropOnValues(fs: Fs, blockSize: nat, m: map<string, seq<byte>>, name: string)
    requires Safe(fs, blockSize, m)
    ensures Safe(RamfsModel.Remove(fs, name).0, blockSize, m - {name})
  {
    var fs' := RamfsModel.Remove(fs, name).0;
    var k := FindName(fs.files, name);
    if k < |fs.files| {
      hide ExtentsApart, H.Free;
      DropApart(fs.files, blockSize, k);
      forall i | 0 <= i < |fs'.files| ensures FileSafe(fs', blockSize, m - {name}, fs'.files[i]) {
        var j := if i < k then i else i + 1;
        assert fs'.files[i] == fs.files[j] && fs.files[j].0 != fs.files[k].0;
        DropFileSafe(fs, blockSize, m, name, j);
      }
      forall n <- m - {name} ensures FindName(fs'.files, n) < |fs'.files| {
        DropFinds(fs.files, k, n);
      }
      hide FileSafe, AllApart, FindName;
    } else {
      assert m - {name} == m;
    }
  }

  lemma MovedFileSafe(fs: Fs, blockSize: nat, m: map<string, seq<byte>>, k: nat, newName: string, i: nat)
    requires Safe(fs, blockSize, m) && k < |fs.files| && i < |fs.files|
    requires FindName(fs.files, newName) == |fs.files| || newName == fs.files[k].0
    ensures FileSafe(fs, blockSize, m, fs.files[k])
    ensures var files := fs.files[k := (newName, fs.files[k].1)];
      FileSafe(fs.(files := files), blockSize, DoMap(m, Move(fs.files[k].0, newName)), files[i])
  {
    assert FileSafe(fs, blockSize, m, fs.files[k]) && FileSafe(fs, blockSize, m, fs.files[i]);
    assert i != k ==> fs.files[i].0 != fs.files[k].0;
    hide ExtentsApart, Holds, Needed, Reach;
  }

  lemma MovedApart(files: seq<(string, Info)>, blockSize: nat, k: nat, newName: string)
    requires 0 < blockSize && AllApart(files, blockSize) && k < |files|
    requires FindName(files, newName) == |files| || newName == files[k].0
    ensures AllApart(files[k := (newName, files[k].1)], blockSize)
  {
    hide ExtentsApart;
  }

  lemma MovedFinds(files: seq<(string, Info)>, k: nat, newName: string, n: string)
    requires k < |files| && (n == newName || (n != files[k].0 && FindName(files, n) < |files|))
    ensures FindName(files[k := (newName, files[k].1)], n) < |files|
  {
    var files' := files[k := (newName, files[k].1)];
    assert files'[if n == newName then k else FindName(files, n)].0 == n;
  }

  /** The renamed file keeps its place, its size and its extent. */
  lemma MoveOnValues(fs: Fs, blockSize: nat, m: map<string, seq<byte>>, name: string, newName: string)
    requires Safe(fs, blockSize, m) && (newName == name || FindName(fs.files, newName) == |fs.files|)
    ensures Safe(RamfsModel.Rename(fs, name, newName).0, blockSize, DoMap(m, Move(name, newName)))
  {
    var fs', k := RamfsModel.Rename(fs, name, newName).0, FindName(fs.files, name);
    var m' := DoMap(m, Move(name, newName));
    hide FileSafe, AllApart, ExtentsApart, Holds, Needed;
    if k < |fs.files| {
      MovedApart(fs.files, blockSize, k, newName);
      forall i | 0 <= i < |fs'.files| ensures FileSafe(fs', blockSize, m', fs'.files[i]) {
        MovedFileSafe(fs, blockSize, m, k, newName, i);
      }
      forall n <- m' ensures FindName(fs'.files, n) < |fs'.files| {
        MovedFinds(fs.files, k, newName, n);
      }
    } else {
      assert name !in m;
    }
  }

  /** A read returns 0 and the first bytes of what was put; the rest of the buffer keeps its bytes. */
  lemma GetDelivers(fs: Fs, blockSize: nat, m: map<string, seq<byte>>, name: string, len: uint32, buffer: seq<byte>)
    requires Safe(fs, blockSize, m) && name in m
    requires (if len < |m[name]| then len else |m[name]|) <= |buffer|
    ensures var toRead := if len < |m[name]| then len else |m[name]|;
            var (code, out) := RamfsModel.Read(fs, blockSize, name, len, buffer);
      code == 0 && out == m[name][..toRead] + buffer[toRead..]
  {
    var i := FindName(fs.files, name);
    assert FileSafe(fs, blockSize, m, fs.files[i]);
    var info := fs.files[i].1;
    var toRead := if len < |m[name]| then len else |m[name]|;
    hide Needed, Holds, ReadLoop;
    ReadDelivers(fs.disk, blockSize, info.start, m[name], toRead, buffer);
  }

  ghost predicate IsDisciplined(v: Variant, blockSize: nat, states: seq<Fs>, deeds: seq<Deed>) {
    && 0 < blockSize && |states| == |deeds| + 1
    && forall i {:trigger deeds[i]} :: 0 <= i < |deeds| ==>
      && HeapSized(states[i]) && Possible(v, states[i], blockSize, deeds[i])
      && states[i + 1] == Do(v, states[i], blockSize, deeds[i])
  }

  function MapAfter(m: map<string, seq<byte>>, deeds: seq<Deed>, n: nat): map<string, seq<byte>>
    requires n <= |deeds|
  {
    if n == 0 then m else DoMap(MapAfter(m, deeds, n - 1), deeds[n - 1])
  }

  lemma MountIsSafe(disk: Disk, heap: H.Heap, blockSize: nat)
    requires 0 < blockSize && DiskModel.Sized(disk, blockSize) && |disk| < TWO32
    requires |heap.used| == |heap.mem| / H.UNIT
    ensures Safe(Fs([], 0, disk, heap), blockSize, map[])
  {
  }
}

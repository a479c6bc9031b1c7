/**
 The file nodes of ramfs as live blocks of the heap: what each operation leaves behind there, when the
 nodes keep their own bytes, and what disciplined runs keep.
 */
module RamfsHeap {
  import opened Words
  import opened Search
  import opened DiskModel
  import opened FileList
  import opened RamfsModel
  import opened RamfsRuns
  import opened HeapClients
  import H = HeapModel

  type Block = H.Block

  function NodeBlock(f: (string, Info)): Block {
    BlockAt(f.1.node, NODE_SIZE)
  }

  function Nodes(files: seq<(string, Info)>): (r: seq<Block>)
    ensures |r| == |files| && forall i :: 0 <= i < |r| ==> r[i] == NodeBlock(files[i])
  {
    seq(|files|, i requires 0 <= i < |files| => NodeBlock(files[i]))
  }

  ghost predicate Aligned(files: seq<(string, Info)>) {
    forall i :: 0 <= i < |files| ==> NodeBlock(files[i]).Ptr() == files[i].1.node
  }

  /** The live blocks of the heap are exactly the nodes of the files and the `stray` ones, and are apart. */
  ghost predicate Owns(fs: Fs, live: seq<Block>, stray: multiset<Block>) {
    && H.Inv(H.Sys(fs.heap, live))
    && multiset(live) == multiset(Nodes(fs.files)) + stray
    && Aligned(fs.files)
  }

  /** The heap answers the request of this operation, if it makes one, with free units only. */
  ghost predicate CleanOp(v: Variant, fs: Fs, op: Op) {
    op.Create? && FindName(fs.files, op.name) == |fs.files| ==> H.CleanRequest(v, fs.heap.used, NODE_SIZE)
  }

  ghost function LiveAfter(v: Variant, fs: Fs, op: Op, live: seq<Block>): seq<Block>
    requires HeapSized(fs)
  {
    match op
    case Create(name) =>
      var p := H.Alloc(v, fs.heap, NODE_SIZE).1;
      if FindName(fs.files, name) == |fs.files| && p.Some? then live + [BlockAt(p.value, NODE_SIZE)] else live
    case Remove(name) =>
      var i := FindName(fs.files, name);
      if i < |fs.files| then Taken(live, NodeBlock(fs.files[i])) else live
    case _ => live
  }

  /** A format forgets every node without returning it. */
  ghost function Dropped(fs: Fs, op: Op): multiset<Block> {
    if op.Format? then multiset(Nodes(fs.files)) else multiset{}
  }

  /** Every node stays a live block of its own, and only a format's nodes go astray, exactly when the operation is clean. */
  lemma StepOwnsIff(v: Variant, blockSize: nat, fs: Fs, op: Op, live: seq<Block>, stray: multiset<Block>)
    requires 0 < blockSize && HeapSized(fs) && Owns(fs, live, stray)
    ensures Owns(Step(v, blockSize, fs, op).0, LiveAfter(v, fs, op, live), stray + Dropped(fs, op))
      <==> CleanOp(v, fs, op)
  {
    assert stray + multiset{} == stray;
    hide Owns, CleanOp, H.Alloc, WriteLoop, Needed, Wrap32, H.CleanRequest, FindName;
    match op
    case Format => FormatOwns(fs, live, stray);
    case Create(name) => CreateOwnsIff(v, fs, name, live, stray);
    case Write(name, data) =>
      WriteKeepsNodes(fs, blockSize, name, data);
      SameNodes(fs, RamfsModel.Write(fs, blockSize, name, data).0, live, stray);
      OthersAreClean(v, fs, op);
    case Read(_) => OthersAreClean(v, fs, op);
    case Remove(name) =>
      OthersAreClean(v, fs, op);
      DropOwns(v, fs, name, live, stray);
    case Rename(oldName, newName) =>
      SameNodes(fs, RamfsModel.Rename(fs, oldName, newName).0, live, stray);
      OthersAreClean(v, fs, op);
  }

  const CTX_SIZE: uint32 := 8

  /** A clean mount adds its context to the live blocks; the file system owns no node yet. */
  lemma MountOwns(v: Variant, h: H.Heap, live: seq<Block>, disk: Disk)
    requires H.Inv(H.Sys(h, live)) && CleanRequests(v, h.used, [CTX_SIZE])
    ensures var (h', more) := Serve(v, h, [CTX_SIZE]);
      Owns(Fs([], 0, disk, h'), live + more, multiset(live + more))
  {
    ServeKeeps(v, h, live, [CTX_SIZE]);
    hide H.Inv, Serve;
    assert Nodes([]) == [];
    assert multiset(Nodes([])) + multiset(live + Serve(v, h, [CTX_SIZE]).1) == multiset(live + Serve(v, h, [CTX_SIZE]).1);
  }

  lemma OthersAreClean(v: Variant, fs: Fs, op: Op)
    requires !op.Create?
    ensures CleanOp(v, fs, op)
  {
  }

  lemma FormatOwns(fs: Fs, live: seq<Block>, stray: multiset<Block>)
    requires Owns(fs, live, stray)
    ensures Owns(RamfsModel.Format(fs), live, stray + multiset(Nodes(fs.files)))
    ensures forall v :: CleanOp(v, fs, Op.Format)
  {
    assert Nodes([]) == [];
    assert multiset(Nodes([])) + (stray + multiset(Nodes(fs.files))) == multiset(Nodes(fs.files)) + stray;
  }

  lemma SameNodes(fs: Fs, fs': Fs, live: seq<Block>, stray: multiset<Block>)
    requires Owns(fs, live, stray) && fs'.heap == fs.heap && |fs'.files| == |fs.files|
    requires forall i :: 0 <= i < |fs.files| ==> fs'.files[i].1.node == fs.files[i].1.node
    ensures Owns(fs', live, stray)
  {
    assert Nodes(fs'.files) == Nodes(fs.files);
  }

  lemma CreateOwnsIff(v: Variant, fs: Fs, name: string, live: seq<Block>, stray: multiset<Block>)
    requires HeapSized(fs) && Owns(fs, live, stray)
    ensures Owns(RamfsModel.Create(v, fs, name).0, LiveAfter(v, fs, Create(name), live), stray)
      <==> CleanOp(v, fs, Create(name))
  {
    if FindName(fs.files, name) == |fs.files| {
      var p := H.Alloc(v, fs.heap, NODE_SIZE).1;
      if p.Some? {
        hide H.Alloc, H.Inv, H.CleanRequest, FindName;
        var f := (name, Info(0, fs.next, p.value));
        assert Nodes([f] + fs.files) == [NodeBlock(f)] + Nodes(fs.files);
        assert multiset(live + [NodeBlock(f)]) == multiset(live) + multiset{NodeBlock(f)};
        assert multiset([NodeBlock(f)] + Nodes(fs.files)) == multiset{NodeBlock(f)} + multiset(Nodes(fs.files));
        GrantKeepsIff(v, fs.heap, live, NODE_SIZE);
        AlignedFront(f, fs.files);
      } else {
        RefusedRequestIsClean(v, fs.heap, NODE_SIZE);
      }
    }
  }

  lemma AlignedFront(f: (string, Info), files: seq<(string, Info)>)
    requires NodeBlock(f).Ptr() == f.1.node
    ensures Aligned([f] + files) <==> Aligned(files)
  {
    if Aligned([f] + files) {
      forall i | 0 <= i < |files| ensures NodeBlock(files[i]).Ptr() == files[i].1.node {
        assert ([f] + files)[i + 1] == files[i];
      }
    }
  }

  lemma RemoveOwns(fs: Fs, name: string, live: seq<Block>, stray: multiset<Block>)
    requires Owns(fs, live, stray) && FindName(fs.files, name) < |fs.files|
    ensures Owns(RamfsModel.Remove(fs, name).0, Taken(live, NodeBlock(fs.files[FindName(fs.files, name)])), stray)
  {
    var i := FindName(fs.files, name);
    var b := NodeBlock(fs.files[i]);
    assert RamfsModel.Remove(fs, name).0.files == Without(fs.files, i);
    hide H.Inv, H.Free, FindName, RamfsModel.Remove, Taken, NodeBlock;
    NodesWithout(fs.files, i);
    LedgerWithout(multiset(live), multiset(Nodes(fs.files)), stray, b);
    ReturnKeeps(fs.heap, live, b);
    RemovedHeap(fs, name);
  }

  lemma RemovedHeap(fs: Fs, name: string)
    requires FindName(fs.files, name) < |fs.files|
    ensures RamfsModel.Remove(fs, name).0.heap == H.Free(fs.heap, Some(fs.files[FindName(fs.files, name)].1.node))
  {
  }

  lemma NodesWithout(files: seq<(string, Info)>, i: nat)
    requires i < |files|
    ensures NodeBlock(files[i]) in multiset(Nodes(files))
    ensures multiset(Nodes(Without(files, i))) == multiset(Nodes(files)) - multiset{NodeBlock(files[i])}
  {
    assert Nodes(files)[i] == NodeBlock(files[i]);
    assert Nodes(Without(files, i)) == Without(Nodes(files), i);
    MultisetWithout(Nodes(files), i);
  }

  lemma LedgerWithout(l: multiset<Block>, o: multiset<Block>, s: multiset<Block>, b: Block)
    requires l == o + s && b in o
    ensures b in l && l - multiset{b} == (o - multiset{b}) + s
  {
    forall x ensures (l - multiset{b})[x] == ((o - multiset{b}) + s)[x] {
    }
  }

  lemma MultisetWithout<T>(xs: seq<T>, i: nat)
    requires i < |xs|
    ensures multiset(Without(xs, i)) == multiset(xs) - multiset{xs[i]}
  {
    assert xs == xs[..i] + [xs[i]] + xs[i + 1..];
  }

  // ----- runs -----

  ghost function LiveAt(v: Variant, blockSize: nat, states: seq<Fs>, ops: seq<Op>, live: seq<Block>, n: nat): seq<Block>
    requires IsRun(v, blockSize, states, ops) && n <= |ops|
  {
    if n == 0 then live
    else
      assert HeapSized(states[n - 1]) by { var _ := ops[n - 1]; }
      LiveAfter(v, states[n - 1], ops[n - 1], LiveAt(v, blockSize, states, ops, live, n - 1))
  }

  ghost function StrayAt(states: seq<Fs>, ops: seq<Op>, stray: multiset<Block>, n: nat): multiset<Block>
    requires n <= |ops| && n <= |states|
  {
    if n == 0 then stray else StrayAt(states, ops, stray, n - 1) + Dropped(states[n - 1], ops[n - 1])
  }

  ghost predicate OwnsAt(v: Variant, blockSize: nat, states: seq<Fs>, ops: seq<Op>,
                         live: seq<Block>, stray: multiset<Block>, n: nat)
    requires IsRun(v, blockSize, states, ops) && n <= |ops|
  {
    Owns(states[n], LiveAt(v, blockSize, states, ops, live, n), StrayAt(states, ops, stray, n))
  }

  lemma EventOwnsIff(v: Variant, blockSize: nat, states: seq<Fs>, ops: seq<Op>,
                     live: seq<Block>, stray: multiset<Block>, i: nat)
    requires IsRun(v, blockSize, states, ops) && i < |ops| && OwnsAt(v, blockSize, states, ops, live, stray, i)
    ensures OwnsAt(v, blockSize, states, ops, live, stray, i + 1) <==> CleanOp(v, states[i], ops[i])
  {
    assert states[i + 1] == Step(v, blockSize, states[i], ops[i]).0;
    hide Owns, Step, LiveAfter, Dropped, CleanOp;
    StepOwnsIff(v, blockSize, states[i], ops[i], LiveAt(v, blockSize, states, ops, live, i), StrayAt(states, ops, stray, i));
  }

  lemma {:induction false} CleanRunOwns(v: Variant, blockSize: nat, states: seq<Fs>, ops: seq<Op>,
                                        live: seq<Block>, stray: multiset<Block>, n: nat)
    requires IsRun(v, blockSize, states, ops) && n <= |ops| && Owns(states[0], live, stray)
    requires forall i {:trigger ops[i]} :: 0 <= i < n ==> CleanOp(v, states[i], ops[i])
    ensures OwnsAt(v, blockSize, states, ops, live, stray, n)
  {
    if n > 0 {
      var op := ops[n - 1];
      hide OwnsAt, IsRun, Owns, CleanOp;
      CleanRunOwns(v, blockSize, states, ops, live, stray, n - 1);
      EventOwnsIff(v, blockSize, states, ops, live, stray, n - 1);
    }
  }

  /** Over every run of either search: the nodes stay apart throughout exactly when every create is clean. */
  lemma RunOwnsIff(v: Variant, blockSize: nat, states: seq<Fs>, ops: seq<Op>, live: seq<Block>, stray: multiset<Block>)
    requires IsRun(v, blockSize, states, ops) && Owns(states[0], live, stray)
    ensures (forall n :: 0 <= n <= |ops| ==> OwnsAt(v, blockSize, states, ops, live, stray, n))
       <==> (forall i {:trigger ops[i]} :: 0 <= i < |ops| ==> CleanOp(v, states[i], ops[i]))
  {
    assert |states| == |ops| + 1;
    hide OwnsAt, IsRun, Owns, CleanOp;
    if forall i {:trigger ops[i]} :: 0 <= i < |ops| ==> CleanOp(v, states[i], ops[i]) {
      forall n | 0 <= n <= |ops| ensures OwnsAt(v, blockSize, states, ops, live, stray, n) {
        CleanRunOwns(v, blockSize, states, ops, live, stray, n);
      }
    } else if forall n :: 0 <= n <= |ops| ==> OwnsAt(v, blockSize, states, ops, live, stray, n) {
      forall i {:trigger ops[i]} | 0 <= i < |ops| ensures CleanOp(v, states[i], ops[i]) {
        assert OwnsAt(v, blockSize, states, ops, live, stray, i + 1);
        EventOwnsIff(v, blockSize, states, ops, live, stray, i);
      }
    }
  }

  // ----- format and rename -----

  /** After a format the used units are exactly those of the stray blocks and of the nodes of the forgotten files. */
  lemma FormatLeavesNodes(fs: Fs, live: seq<Block>, stray: multiset<Block>, i: nat)
    requires Owns(fs, live, stray) && i < |fs.heap.used|
    ensures RamfsModel.Format(fs).files == [] && RamfsModel.Format(fs).heap == fs.heap
    ensures RamfsModel.Format(fs).heap.used[i] <==>
      (exists b :: b in stray && b.Covers(i)) || exists k :: 0 <= k < |fs.files| && NodeBlock(fs.files[k]).Covers(i)
  {
    var all := multiset(Nodes(fs.files)) + stray;
    if fs.heap.used[i] {
      assert H.Covered(live, i);
      var k :| 0 <= k < |live| && live[k].Covers(i);
      assert live[k] in multiset(live);
      if live[k] !in stray {
        assert live[k] in multiset(Nodes(fs.files));
        var j :| 0 <= j < |fs.files| && Nodes(fs.files)[j] == live[k];
      }
    }
    if b :| b in stray && b.Covers(i) {
      LiveCovers(fs.heap, live, b, i);
    }
    if k :| 0 <= k < |fs.files| && NodeBlock(fs.files[k]).Covers(i) {
      assert Nodes(fs.files)[k] in multiset(Nodes(fs.files));
      LiveCovers(fs.heap, live, NodeBlock(fs.files[k]), i);
    }
  }

  lemma LiveCovers(h: H.Heap, live: seq<Block>, b: Block, i: nat)
    requires H.Inv(H.Sys(h, live)) && b in multiset(live) && b.Covers(i) && i < |h.used|
    ensures h.used[i]
  {
    var k := IndexOf(live, b, 0);
    assert live[k].Covers(i);
  }

  ghost predicate NamesDistinct(files: seq<(string, Info)>) {
    forall i, j :: 0 <= i < j < |files| ==> files[i].0 != files[j].0
  }

  /** Rename keeps names distinct exactly when there is nothing to rename, or the new name is the old one or is free. */
  lemma RenameKeepsNamesIff(fs: Fs, oldName: string, newName: string)
    requires NamesDistinct(fs.files)
    ensures NamesDistinct(RamfsModel.Rename(fs, oldName, newName).0.files) <==>
      || FindName(fs.files, oldName) == |fs.files|
      || newName == oldName
      || FindName(fs.files, newName) == |fs.files|
  {
    var i, j := FindName(fs.files, oldName), FindName(fs.files, newName);
    var files' := RamfsModel.Rename(fs, oldName, newName).0.files;
    if i < |fs.files| && newName != oldName && j < |fs.files| {
      assert files'[i].0 == newName && files'[j].0 == newName && i != j;
      assert !NamesDistinct(files') by {
        assert files'[if i < j then i else j].0 == files'[if i < j then j else i].0;
      }
    }
  }

  /** Create and remove keep names distinct. */
  lemma CreateAndRemoveKeepNames(v: Variant, fs: Fs, name: string)
    requires NamesDistinct(fs.files) && HeapSized(fs)
    ensures NamesDistinct(RamfsModel.Create(v, fs, name).0.files)
    ensures NamesDistinct(RamfsModel.Remove(fs, name).0.files)
  {
    hide H.Alloc, H.Free;
  }

  // ----- the discipline -----

  /** A create with its only write right after it, on the heap. */
  lemma PutKeepsIff(v: Variant, fs: Fs, blockSize: nat, m: map<string, seq<byte>>, name: string, data: seq<byte>,
                    live: seq<Block>, stray: multiset<Block>)
    requires Safe(fs, blockSize, m) && Owns(fs, live, stray) && Possible(v, fs, blockSize, Put(name, data))
    ensures var fs' := Do(v, fs, blockSize, Put(name, data));
      && Safe(fs', blockSize, m[name := data])
      && (Owns(fs', LiveAfter(v, fs, Create(name), live), stray) <==> H.CleanRequest(v, fs.heap.used, NODE_SIZE))
  {
    PutOnValues(v, fs, blockSize, m, name, data);
    CreateOwnsIff(v, fs, name, live, stray);
    var fs1 := RamfsModel.Create(v, fs, name).0;
    var fs' := Do(v, fs, blockSize, Put(name, data));
    hide Safe, H.Alloc, WriteLoop, Needed, H.CleanRequest, H.Inv;
    WriteKeepsNodes(fs1, blockSize, name, data);
    var live' := LiveAfter(v, fs, Create(name), live);
    if Owns(fs1, live', stray) { SameNodes(fs1, fs', live', stray); }
    if Owns(fs', live', stray) { SameNodes(fs', fs1, live', stray); }
  }

  lemma WriteKeepsNodes(fs: Fs, blockSize: nat, name: string, data: seq<byte>)
    requires 0 < blockSize && |data| < TWO32
    ensures var fs' := RamfsModel.Write(fs, blockSize, name, data).0;
      && fs'.heap == fs.heap && |fs'.files| == |fs.files|
      && forall i :: 0 <= i < |fs.files| ==> fs'.files[i].1.node == fs.files[i].1.node
  {
    hide WriteLoop, Needed;
  }

  /** What a deed does to the live blocks. */
  ghost function LiveAfterDeed(v: Variant, fs: Fs, d: Deed, live: seq<Block>): seq<Block>
    requires HeapSized(fs)
  {
    match d
    case Put(name, _) => LiveAfter(v, fs, Create(name), live)
    case Get(_, _, _) => live
    case Drop(name) => LiveAfter(v, fs, Remove(name), live)
    case Move(_, _) => live
  }

  ghost function LiveAtDeed(v: Variant, blockSize: nat, states: seq<Fs>, deeds: seq<Deed>, live: seq<Block>, n: nat)
    : seq<Block>
    requires IsDisciplined(v, blockSize, states, deeds) && n <= |deeds|
  {
    if n == 0 then live
    else
      assert HeapSized(states[n - 1]) by { var _ := deeds[n - 1]; }
      LiveAfterDeed(v, states[n - 1], deeds[n - 1], LiveAtDeed(v, blockSize, states, deeds, live, n - 1))
  }

  ghost predicate CleanDeed(v: Variant, fs: Fs, d: Deed) {
    d.Put? ==> H.CleanRequest(v, fs.heap.used, NODE_SIZE)
  }

  lemma DeedKeeps(v: Variant, fs: Fs, blockSize: nat, m: map<string, seq<byte>>, d: Deed,
                  live: seq<Block>, stray: multiset<Block>)
    requires Safe(fs, blockSize, m) && Owns(fs, live, stray) && Possible(v, fs, blockSize, d) && CleanDeed(v, fs, d)
    ensures Safe(Do(v, fs, blockSize, d), blockSize, DoMap(m, d))
    ensures Owns(Do(v, fs, blockSize, d), LiveAfterDeed(v, fs, d, live), stray)
  {
    assert HeapSized(fs);
    hide Safe, Owns, Possible, LiveAfter, RamfsModel.Remove, RamfsModel.Create, RamfsModel.Write, FindName, Needed;
    match d {
      case Put(name, data) => PutKeepsIff(v, fs, blockSize, m, name, data, live, stray);
      case Get(_, _, _) =>
      case Drop(name) =>
        DropOnValues(fs, blockSize, m, name);
        DropOwns(v, fs, name, live, stray);
      case Move(name, newName) => MoveKeeps(v, fs, blockSize, m, name, newName, live, stray);
    }
  }

  lemma MoveKeeps(v: Variant, fs: Fs, blockSize: nat, m: map<string, seq<byte>>, name: string, newName: string,
                  live: seq<Block>, stray: multiset<Block>)
    requires Safe(fs, blockSize, m) && Owns(fs, live, stray) && Possible(v, fs, blockSize, Move(name, newName))
    ensures Safe(RamfsModel.Rename(fs, name, newName).0, blockSize, DoMap(m, Move(name, newName)))
    ensures Owns(RamfsModel.Rename(fs, name, newName).0, live, stray)
  {
    MoveOnValues(fs, blockSize, m, name, newName);
    hide Safe, FindName;
    SameNodes(fs, RamfsModel.Rename(fs, name, newName).0, live, stray);
  }

  lemma DropOwns(v: Variant, fs: Fs, name: string, live: seq<Block>, stray: multiset<Block>)
    requires HeapSized(fs) && Owns(fs, live, stray)
    ensures Owns(RamfsModel.Remove(fs, name).0, LiveAfter(v, fs, Remove(name), live), stray)
  {
    hide Owns, H.Free, H.Alloc, FindName, Without, Taken, NodeBlock;
    var i := FindName(fs.files, name);
    if i < |fs.files| {
      hide RamfsModel.Remove;
      assert LiveAfter(v, fs, Remove(name), live) == Taken(live, NodeBlock(fs.files[i]));
      RemoveOwns(fs, name, live, stray);
    } else {
      assert RamfsModel.Remove(fs, name).0 == fs;
    }
  }

  /**
   Over every disciplined run whose creates are clean, the file system is the map of what was put, and
   every node keeps a live block of its own.
   */
  lemma {:induction false} DisciplinedRunIsSafe(v: Variant, blockSize: nat, m: map<string, seq<byte>>, states: seq<Fs>,
                                                deeds: seq<Deed>, live: seq<Block>, stray: multiset<Block>, n: nat)
    requires IsDisciplined(v, blockSize, states, deeds) && n <= |deeds|
    requires Safe(states[0], blockSize, m) && Owns(states[0], live, stray)
    requires forall i {:trigger deeds[i]} :: 0 <= i < n ==> CleanDeed(v, states[i], deeds[i])
    ensures Safe(states[n], blockSize, MapAfter(m, deeds, n))
    ensures Owns(states[n], LiveAtDeed(v, blockSize, states, deeds, live, n), stray)
  {
    if n > 0 {
      DisciplinedRunIsSafe(v, blockSize, m, states, deeds, live, stray, n - 1);
      var d := deeds[n - 1];
      assert states[n - 1 + 1] == Do(v, states[n - 1], blockSize, d);
      hide Safe, Owns, Do, DoMap, LiveAfterDeed, CleanDeed, Possible;
      DeedKeeps(v, states[n - 1], blockSize, MapAfter(m, deeds, n - 1), d,
                LiveAtDeed(v, blockSize, states, deeds, live, n - 1), stray);
    }
  }
}

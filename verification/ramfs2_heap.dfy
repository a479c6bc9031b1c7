/**
 The file nodes and block tables of ramfs2 as live blocks of the heap: when every object keeps its
 own bytes, what each operation leaves behind there, and what every run keeps.
 */
module Ramfs2Heap {
  import opened Words
  import opened Search
  import opened DiskModel
  import opened Ramfs2Model
  import opened Ramfs2Refinement
  import opened Ramfs2Runs
  import opened HeapClients
  import H = HeapModel

  type Block = H.Block

  // ----- the objects of a file system -----

  function NodeBlock(f: File): Block {
    BlockAt(f.node, NODE_SIZE)
  }

  function TableBlock(f: File): Block
    requires f.table.Some?
  {
    BlockAt(f.table.value, 4 * f.count % TWO32)
  }

  function TableObjects(f: File): multiset<Block> {
    if f.table.Some? then multiset{TableBlock(f)} else multiset{}
  }

  function FileObjects(f: File): multiset<Block> {
    multiset{NodeBlock(f)} + TableObjects(f)
  }

  function Objects(files: seq<File>): multiset<Block> {
    if |files| == 0 then multiset{} else FileObjects(files[0]) + Objects(files[1..])
  }

  /** The block table has room for every entry that `block_count` promises. */
  ghost predicate TablesLarge(files: seq<File>) {
    forall i :: 0 <= i < |files| && files[i].table.Some? ==> 4 * files[i].count < TWO32
  }

  /** The live blocks of the heap are exactly the objects of the files and the `stray` ones, and are apart. */
  ghost predicate Owns(fs: Fs, live: seq<Block>, stray: multiset<Block>) {
    && H.Inv(H.Sys(fs.heap, live))
    && multiset(live) == Objects(fs.files) + stray
    && TablesLarge(fs.files)
  }

  lemma AddFront<T>(x: multiset<T>, a: multiset<T>, b: multiset<T>, c: multiset<T>, d: multiset<T>)
    requires a + b == c + d
    ensures (x + a) + b == (x + c) + d
  {
    assert (x + a) + b == x + (a + b);
    assert (x + c) + d == x + (c + d);
  }

  lemma {:induction false} ObjectsUpdate(files: seq<File>, i: nat, g: File)
    requires i < |files|
    ensures Objects(files[i := g]) + FileObjects(files[i]) == Objects(files) + FileObjects(g)
  {
    hide FileObjects;
    if i == 0 {
      assert files[i := g][1..] == files[1..];
    } else {
      ObjectsUpdate(files[1..], i - 1, g);
      assert files[i := g][1..] == files[1..][i - 1 := g];
      AddFront(FileObjects(files[0]), Objects(files[1..][i - 1 := g]), FileObjects(files[i]),
               Objects(files[1..]), FileObjects(g));
    }
  }

  lemma {:induction false} ObjectsWithout(files: seq<File>, i: nat)
    requires i < |files|
    ensures Objects(files) == Objects(Without(files, i)) + FileObjects(files[i])
  {
    hide FileObjects;
    if i == 0 {
      assert Without(files, 0) == files[1..];
    } else {
      ObjectsWithout(files[1..], i - 1);
      assert Without(files, i)[1..] == Without(files[1..], i - 1);
      AddFront(FileObjects(files[0]), Objects(files[1..]), multiset{}, Objects(Without(files, i)[1..]), FileObjects(files[i]));
    }
  }

  // ----- one operation -----

  /** The bytes `ramfs_write` asks for its block table; the product wraps. */
  function TableSize(blockSize: nat, len: uint32): uint32
    requires 0 < blockSize
  {
    4 * Needed(len, blockSize) % TWO32
  }

  /**
   The heap answers the request of this operation, if it makes one, with free units only, and a block
   table it grants has not lost entries to the wrap of its size.
   */
  ghost predicate CleanOp(v: Variant, blockSize: nat, fs: Fs, op: Op)
    requires WellFormed(fs, blockSize)
  {
    var absent := FindFile(fs.files, op.name) == |fs.files|;
    && (op.Create? && absent ==> H.CleanRequest(v, fs.heap.used, NODE_SIZE))
    && (op.Write? && !absent ==>
          && H.CleanRequest(v, fs.heap.used, TableSize(blockSize, op.len))
          && (H.Alloc(v, fs.heap, TableSize(blockSize, op.len)).1.Some? ==> 4 * Needed(op.len, blockSize) < TWO32))
  }

  /** The live blocks after an operation. */
  ghost function LiveAfter(v: Variant, blockSize: nat, fs: Fs, op: Op, live: seq<Block>): seq<Block>
    requires WellFormed(fs, blockSize)
  {
    var i := FindFile(fs.files, op.name);
    match op
    case Create(_) =>
      var p := H.Alloc(v, fs.heap, NODE_SIZE).1;
      if i == |fs.files| && p.Some? then live + [BlockAt(p.value, NODE_SIZE)] else live
    case Write(_, _, len) =>
      var p := H.Alloc(v, fs.heap, TableSize(blockSize, len)).1;
      if i < |fs.files| && p.Some? then live + [BlockAt(p.value, TableSize(blockSize, len))] else live
    case Read(_) => live
    case Remove(_) =>
      if i == |fs.files| then live
      else
        var f := fs.files[i];
        Taken(if f.table.Some? then Taken(live, TableBlock(f)) else live, NodeBlock(f))
  }

  /** A write drops the previous table of its file on the heap, whether it succeeds or not. */
  ghost function DroppedTables(fs: Fs, op: Op): multiset<Block> {
    var i := FindFile(fs.files, op.name);
    if op.Write? && i < |fs.files| then TableObjects(fs.files[i]) else multiset{}
  }

  /** Every object stays a live block of its own, and only dropped tables go astray, exactly when the operation is clean. */
  lemma StepOwnsIff(v: Variant, blockSize: nat, fs: Fs, op: Op, live: seq<Block>, stray: multiset<Block>)
    requires Good(fs, blockSize) && Acceptable(fs, blockSize, op) && Owns(fs, live, stray)
    ensures Owns(Step(v, blockSize, fs, op).0, LiveAfter(v, blockSize, fs, op, live), stray + DroppedTables(fs, op))
      <==> CleanOp(v, blockSize, fs, op)
  {
    var i := FindFile(fs.files, op.name);
    assert stray + multiset{} == stray;
    match op
    case Create(name) => CreateOwnsIff(v, blockSize, fs, name, live, stray);
    case Write(name, data, len) =>
      if i < |fs.files| { WriteOwnsIff(v, blockSize, fs, name, data, len, live, stray); }
    case Read(_) =>
    case Remove(name) =>
      if i < |fs.files| { RemoveOwns(v, blockSize, fs, name, live, stray); }
  }

  lemma CreateOwnsIff(v: Variant, blockSize: nat, fs: Fs, name: string, live: seq<Block>, stray: multiset<Block>)
    requires Good(fs, blockSize) && Owns(fs, live, stray)
    ensures Owns(Step(v, blockSize, fs, Create(name)).0, LiveAfter(v, blockSize, fs, Create(name), live), stray)
      <==> CleanOp(v, blockSize, fs, Create(name))
  {
    if FindFile(fs.files, name) == |fs.files| {
      var p := H.Alloc(v, fs.heap, NODE_SIZE).1;
      if p.Some? {
        hide Good, H.Alloc, H.Inv, H.CleanRequest, FindFile, Objects;
        NewObjects(File(name, 0, [], 0, p.value, None), fs.files, live);
        GrantKeepsIff(v, fs.heap, live, NODE_SIZE);
      } else {
        RefusedRequestIsClean(v, fs.heap, NODE_SIZE);
      }
    }
  }

  lemma NewObjects(f: File, files: seq<File>, live: seq<Block>)
    requires f.table.None?
    ensures Objects([f] + files) == multiset{NodeBlock(f)} + Objects(files)
    ensures multiset(live + [NodeBlock(f)]) == multiset(live) + multiset{NodeBlock(f)}
    ensures TablesLarge([f] + files) <==> TablesLarge(files)
  {
    assert ([f] + files)[1..] == files;
    if TablesLarge([f] + files) {
      forall i | 0 <= i < |files| && files[i].table.Some? ensures 4 * files[i].count < TWO32 {
        assert ([f] + files)[i + 1] == files[i];
      }
    }
  }

  lemma WriteOwnsIff(v: Variant, blockSize: nat, fs: Fs, name: string, data: seq<byte>, len: uint32,
                     live: seq<Block>, stray: multiset<Block>)
    requires Good(fs, blockSize) && Owns(fs, live, stray) && FindFile(fs.files, name) < |fs.files|
    ensures var op := Write(name, data, len);
      Owns(Step(v, blockSize, fs, op).0, LiveAfter(v, blockSize, fs, op, live), stray + DroppedTables(fs, op))
      <==> CleanOp(v, blockSize, fs, op)
  {
    assert 0 < blockSize && H.WellFormed(fs.heap);
    var i := FindFile(fs.files, name);
    hide Good, Ramfs2Model.Write, H.Alloc, H.Inv, H.WellFormed, H.CleanRequest, Objects, Needed, WellFormed, FindFile;
    hide TableObjects, TableBlock, Taken, TablesLarge;
    WriteHeap(v, blockSize, fs, name, data, len);
    var g := Ramfs2Model.Write(v, fs, blockSize, name, data, len).0.files[i];
    TableReplacedIff(v, fs.heap, fs.files, live, stray, i, g, Needed(len, blockSize));
    assert g.table.Some? ==> TableBlock(g) == BlockAt(g.table.value, TableSize(blockSize, len)) by {
      if g.table.Some? { TableBlockIs(g, Needed(len, blockSize)); }
    }
    hide BlockAt;
  }

  lemma TableBlockIs(g: File, needed: nat)
    requires g.table.Some? && g.count == needed
    ensures TableBlock(g) == BlockAt(g.table.value, 4 * needed % TWO32)
  {
  }

  /** The table of a file is asked for anew: the old one stays behind, the new one is the file's. */
  lemma TableReplacedIff(v: Variant, h: H.Heap, files: seq<File>, live: seq<Block>, stray: multiset<Block>,
                         i: nat, g: File, needed: nat)
    requires H.Inv(H.Sys(h, live)) && multiset(live) == Objects(files) + stray && TablesLarge(files) && i < |files|
    requires H.WellFormed(h) && g.table == H.Alloc(v, h, 4 * needed % TWO32).1 && g.node == files[i].node
    requires g.table.Some? ==> g.count == needed
    ensures var live' := if g.table.Some? then live + [TableBlock(g)] else live;
      && multiset(live') == Objects(files[i := g]) + (stray + TableObjects(files[i]))
      && (H.Inv(H.Sys(H.Alloc(v, h, 4 * needed % TWO32).0, live')) <==> H.CleanRequest(v, h.used, 4 * needed % TWO32))
      && (TablesLarge(files[i := g]) <==> (g.table.Some? ==> 4 * needed < TWO32))
  {
    TablesLargeIff(files, i, g);
    hide TablesLarge, Objects, H.WellFormed;
    ObjectsUpdate(files, i, g);
    LedgerAfterWrite(multiset(live), Objects(files), Objects(files[i := g]), stray, multiset{NodeBlock(g)},
                     TableObjects(files[i]), TableObjects(g));
    var size: uint32 := 4 * needed % TWO32;
    if g.table.Some? {
      TableBlockIs(g, needed);
      GrantKeepsIff(v, h, live, size);
    } else {
      RefusedRequestIsClean(v, h, size);
    }
    hide H.Alloc, H.Inv, H.CleanRequest, BlockAt, TableBlock, NodeBlock;
  }

  lemma TablesLargeIff(files: seq<File>, i: nat, g: File)
    requires TablesLarge(files) && i < |files|
    ensures TablesLarge(files[i := g]) <==> (g.table.Some? ==> 4 * g.count < TWO32)
  {
    assert files[i := g][i] == g;
  }

  lemma LedgerAfterWrite(l: multiset<Block>, o: multiset<Block>, o': multiset<Block>, s: multiset<Block>,
                         n: multiset<Block>, was: multiset<Block>, now: multiset<Block>)
    requires l == o + s && o' + (n + was) == o + (n + now)
    ensures l + now == o' + (s + was)
  {
    forall x ensures (l + now)[x] == (o' + (s + was))[x] {
      assert (o' + (n + was))[x] == (o + (n + now))[x];
    }
  }

  /** What a write to an existing file does to its descriptor, as far as the heap is concerned. */
  lemma WriteHeap(v: Variant, blockSize: nat, fs: Fs, name: string, data: seq<byte>, len: uint32)
    requires 0 < blockSize && H.WellFormed(fs.heap) && FindFile(fs.files, name) < |fs.files|
    ensures var i := FindFile(fs.files, name);
            var fs' := Ramfs2Model.Write(v, fs, blockSize, name, data, len).0;
            var (heap, p) := H.Alloc(v, fs.heap, TableSize(blockSize, len));
      && |fs'.files| == |fs.files| && fs'.heap == heap
      && fs'.files == fs.files[i := fs'.files[i]]
      && fs'.files[i].node == fs.files[i].node && fs'.files[i].table == p
      && (p.Some? ==> fs'.files[i].count == Needed(len, blockSize))
  {
    hide H.Alloc, Fill, Needed;
  }

  lemma RemoveOwns(v: Variant, blockSize: nat, fs: Fs, name: string, live: seq<Block>, stray: multiset<Block>)
    requires Good(fs, blockSize) && Owns(fs, live, stray) && FindFile(fs.files, name) < |fs.files|
    ensures Owns(Step(v, blockSize, fs, Remove(name)).0, LiveAfter(v, blockSize, fs, Remove(name), live), stray)
  {
    var i := FindFile(fs.files, name);
    hide Good, FindFile, H.Inv, H.Free, Objects, TablesLarge, Ramfs2Model.Remove, WellFormed, Taken, TableBlock, NodeBlock;
    IsAddressed(fs, blockSize, i);
    RemoveHeap(fs, name);
    FileLeaves(fs.heap, fs.files, live, stray, i);
  }

  lemma FileLeaves(h: H.Heap, files: seq<File>, live: seq<Block>, stray: multiset<Block>, i: nat)
    requires H.Inv(H.Sys(h, live)) && multiset(live) == Objects(files) + stray && TablesLarge(files)
    requires i < |files| && Addressed(h, files[i])
    ensures var f := files[i];
            var rest := if f.table.Some? then Taken(live, TableBlock(f)) else live;
      && H.Inv(H.Sys(H.Free(H.Free(h, f.table), Some(f.node)), Taken(rest, NodeBlock(f))))
      && multiset(Taken(rest, NodeBlock(f))) == Objects(Without(files, i)) + stray
      && TablesLarge(Without(files, i))
  {
    hide H.Inv, H.Free, Objects, TablesLarge, Without, Addressed, Taken, TableBlock, NodeBlock, BlockAt;
    var f := files[i];
    ObjectsWithout(files, i);
    TablesStayLarge(files, i);
    LedgerAfterRemove(multiset(live), Objects(files), Objects(Without(files, i)), stray,
                      multiset{NodeBlock(f)}, TableObjects(f));
    ReturnFile(h, live, f);
  }

  lemma IsAddressed(fs: Fs, blockSize: nat, i: nat)
    requires Good(fs, blockSize) && i < |fs.files|
    ensures WellFormed(fs, blockSize) && Addressed(fs.heap, fs.files[i])
  {
  }

  lemma TablesStayLarge(files: seq<File>, i: nat)
    requires TablesLarge(files) && i < |files|
    ensures TablesLarge(Without(files, i))
  {
  }

  lemma RemoveHeap(fs: Fs, name: string)
    requires FindFile(fs.files, name) < |fs.files|
    ensures var i := FindFile(fs.files, name);
            var fs' := Ramfs2Model.Remove(fs, name).0;
      && fs'.files == Without(fs.files, i)
      && fs'.heap == H.Free(H.Free(fs.heap, fs.files[i].table), Some(fs.files[i].node))
  {
  }

  lemma LedgerAfterRemove(l: multiset<Block>, o: multiset<Block>, o': multiset<Block>, s: multiset<Block>,
                          n: multiset<Block>, t: multiset<Block>)
    requires l == o + s && o == o' + (n + t)
    ensures l - t - n == o' + s && n + t <= l
  {
    forall x ensures (l - t - n)[x] == (o' + s)[x] {
      assert o[x] == (o' + (n + t))[x];
    }
  }

  /** The table and the node of a file go back to the heap. */
  lemma ReturnFile(h: H.Heap, live: seq<Block>, f: File)
    requires H.Inv(H.Sys(h, live)) && Addressed(h, f) && FileObjects(f) <= multiset(live)
    ensures var rest := if f.table.Some? then Taken(live, TableBlock(f)) else live;
      && H.Inv(H.Sys(H.Free(H.Free(h, f.table), Some(f.node)), Taken(rest, NodeBlock(f))))
      && multiset(Taken(rest, NodeBlock(f))) == multiset(live) - TableObjects(f) - multiset{NodeBlock(f)}
  {
    assert H.Free(h, None) == h;
    hide H.Inv, H.Free;
    AlignedPointer(h, f.node, NODE_SIZE);
    BothIn(multiset(live), NodeBlock(f), TableObjects(f));
    if f.table.Some? {
      AlignedPointer(h, f.table.value, 4 * f.count % TWO32);
      assert TableBlock(f) in TableObjects(f);
      hide H.Freeable, BlockAt;
      ReturnKeeps(h, live, TableBlock(f));
      ReturnKeeps(H.Free(h, f.table), Taken(live, TableBlock(f)), NodeBlock(f));
    } else {
      hide H.Freeable, BlockAt;
      ReturnKeeps(h, live, NodeBlock(f));
    }
  }

  lemma BothIn(l: multiset<Block>, n: Block, t: multiset<Block>)
    requires multiset{n} + t <= l
    ensures t <= l && n in l && n in l - t
  {
    assert (multiset{n} + t)[n] == 1 + t[n];
    forall x ensures t[x] <= l[x] {
      assert (multiset{n} + t)[x] <= l[x];
    }
  }

  // ----- the size of the table -----

  /** A granted table lies with all its entries inside its block exactly when its size did not wrap. */
  lemma TableHoldsIff(v: Variant, h: H.Heap, needed: nat)
    requires H.WellFormed(h) && H.Alloc(v, h, 4 * needed % TWO32).1.Some?
    ensures var b := BlockAt(H.Alloc(v, h, 4 * needed % TWO32).1.value, 4 * needed % TWO32);
      b.Ptr() + 4 * needed <= H.UNIT * b.End() <==> 4 * needed < TWO32
  {
    var size := 4 * needed % TWO32;
    WrappedTable(needed);
    H.FreshHeader(v, h, size);
    hide H.Alloc, H.UnitsFor;
    var b := BlockAt(H.Alloc(v, h, size).1.value, size);
    H.PayloadFits(b);
    BlockIsSmall(b);
  }

  lemma WrappedTable(needed: nat)
    ensures 4 * needed % TWO32 <= TWO32 - 4
    ensures 4 * needed < TWO32 ==> 4 * needed % TWO32 == 4 * needed
  {
    assert 4 * needed % TWO32 % 4 == 0;
  }

  /** No block is long enough for a table whose size wrapped. */
  lemma BlockIsSmall(b: Block)
    requires b.units == H.UnitsFor(b.size)
    ensures H.UNIT * b.End() < b.Ptr() + TWO32
  {
  }

  /** On a device of one-byte blocks a write of 2^30 + 1 bytes is given a table of one entry. */
  lemma OneByteBlocksLoseTable(h: H.Heap)
    requires H.WellFormed(h) && |h.used| >= 1 && !h.used[0]
    ensures Needed(0x4000_0001, 1) == 0x4000_0001 && TableSize(1, 0x4000_0001) == 4
    ensures H.Alloc(WithReset, h, TableSize(1, 0x4000_0001)).1.Some?
  {
    assert H.UnitsFor(4) == 1;
    assert Fits(h.used, 1, 0);
    H.GrantedIff(h, 4);
  }

  lemma AlignedPointer(h: H.Heap, ptr: nat, size: uint32)
    requires H.Freeable(h, ptr)
    ensures BlockAt(ptr, size).Ptr() == ptr
  {
    var q: nat :| ptr == H.UNIT * q + H.HEADER && H.SafeUnit(h, q);
  }

  // ----- what clean operations do on the device and on the heap -----

  /**
   A clean write changes only its own file, blocks that were free, and their marks; the entry it leaves is told
   by its outcome; every node and table still has its own bytes, and the replaced table goes astray.
   */
  lemma CleanWrite(v: Variant, blockSize: nat, fs: Fs, i: nat, data: seq<byte>, len: uint32,
                   live: seq<Block>, stray: multiset<Block>)
    requires Good(fs, blockSize) && i < |fs.files| && Owns(fs, live, stray)
    requires var op := Write(fs.files[i].name, data, len);
      Acceptable(fs, blockSize, op) && CleanOp(v, blockSize, fs, op)
    ensures Needed(len, blockSize) * blockSize <= |data|
    ensures var (fs', code) := Ramfs2Model.Write(v, fs, blockSize, fs.files[i].name, data, len);
            var outcome := WriteOutcome(v, fs, blockSize, data, len);
      && code == (if outcome == Complete then 0 else -1)
      && i < |fs'.files| && Confined(fs, fs', blockSize, i, fs'.files[i])
      && (outcome == Complete ==> len <= |data|) && InDisk(fs'.disk, fs'.files[i].blocks)
      && EntryOf(fs'.disk, fs'.files[i]) == AfterWrite(fs, blockSize, i, outcome, data, len)
    ensures var op := Write(fs.files[i].name, data, len);
      Owns(Step(v, blockSize, fs, op).0, LiveAfter(v, blockSize, fs, op, live), stray + DroppedTables(fs, op))
  {
    var op := Write(fs.files[i].name, data, len);
    StepOwnsIff(v, blockSize, fs, op, live, stray);
    WriteIsConfined(v, fs, blockSize, i, data, len);
    WrittenEntry(v, fs, blockSize, i, data, len);
    hide Owns, CleanOp, LiveAfter, Confined, WriteOutcome, AfterWrite, EntryOf, Ramfs2Model.Write, H.Alloc;
  }

  /** By a clean write the leaked device blocks grow by exactly the previous list, and the stray heap blocks by its table. */
  lemma StepLeaks(v: Variant, blockSize: nat, fs: Fs, op: Op, b: nat, live: seq<Block>, stray: multiset<Block>)
    requires Good(fs, blockSize) && Acceptable(fs, blockSize, op) && Owns(fs, live, stray)
    requires CleanOp(v, blockSize, fs, op)
    ensures Leaked(Step(v, blockSize, fs, op).0, b) <==> Leaked(fs, b) || Dropped(fs, op, b)
    ensures Owns(Step(v, blockSize, fs, op).0, LiveAfter(v, blockSize, fs, op, live), stray + DroppedTables(fs, op))
  {
    StepOwnsIff(v, blockSize, fs, op, live, stray);
    hide Owns, CleanOp, LiveAfter, Step;
    StepLeaksOnValues(v, blockSize, fs, op, b);
  }

  /**
   Creating a fresh name, writing it once with success and removing it, all clean, restores the file list, the
   block map, the heap's bitmap and the live blocks.
   */
  lemma CreateWriteRemoveIsNeutral(v: Variant, blockSize: nat, fs: Fs, name: string, data: seq<byte>, len: uint32,
                                   live: seq<Block>, stray: multiset<Block>) returns (live': seq<Block>)
    requires Good(fs, blockSize) && Owns(fs, live, stray) && FindFile(fs.files, name) == |fs.files|
    requires Acceptable(fs, blockSize, Create(name)) && CleanOp(v, blockSize, fs, Create(name))
    requires Ramfs2Model.Create(v, fs, name).1 == 0
    requires var fs1 := Ramfs2Model.Create(v, fs, name).0;
      && WellFormed(fs1, blockSize) && Acceptable(fs1, blockSize, Write(name, data, len))
      && CleanOp(v, blockSize, fs1, Write(name, data, len))
      && Ramfs2Model.Write(v, fs1, blockSize, name, data, len).1 == 0
    ensures var fs1 := Ramfs2Model.Create(v, fs, name).0;
            var fs2 := Ramfs2Model.Write(v, fs1, blockSize, name, data, len).0;
            var (fs3, code) := Ramfs2Model.Remove(fs2, name);
      && code == 0 && fs3.files == fs.files && fs3.map' == fs.map' && fs3.heap.used == fs.heap.used
      && Owns(fs3, live', stray) && multiset(live') == multiset(live)
  {
    var fs1 := Ramfs2Model.Create(v, fs, name).0;
    var fs2 := Ramfs2Model.Write(v, fs1, blockSize, name, data, len).0;
    CreateWriteRemoveOnValues(v, blockSize, fs, name, data, len);
    CleanWindows(v, blockSize, fs, name, data, len);
    live' := ThreeOwn(v, blockSize, fs, name, data, len, live, stray);
    hide Good, FreeWindows, CleanOp, Ramfs2Model.Create, Ramfs2Model.Write, Ramfs2Model.Remove, FindFile, Objects;
  }

  /** Clean requests find free windows. */
  lemma CleanWindows(v: Variant, blockSize: nat, fs: Fs, name: string, data: seq<byte>, len: uint32)
    requires WellFormed(fs, blockSize) && FindFile(fs.files, name) == |fs.files|
    requires CleanOp(v, blockSize, fs, Create(name)) && Ramfs2Model.Create(v, fs, name).1 == 0
    requires var fs1 := Ramfs2Model.Create(v, fs, name).0;
      && WellFormed(fs1, blockSize) && CleanOp(v, blockSize, fs1, Write(name, data, len))
      && Ramfs2Model.Write(v, fs1, blockSize, name, data, len).1 == 0
    ensures FreeWindows(v, fs.heap, TableSize(blockSize, len))
  {
    var fs1 := Ramfs2Model.Create(v, fs, name).0;
    var size := TableSize(blockSize, len);
    assert FindFile(fs1.files, name) == 0;
    H.FreshHeader(v, fs.heap, NODE_SIZE);
    H.FreshHeader(v, fs1.heap, size);
    H.CleanWindowFits(v, fs.heap.used, NODE_SIZE);
    H.CleanWindowFits(v, fs1.heap.used, size);
    hide H.Alloc, H.CleanRequest, Find, H.UnitsFor;
  }

  lemma ThreeOwn(v: Variant, blockSize: nat, fs: Fs, name: string, data: seq<byte>, len: uint32,
                 live: seq<Block>, stray: multiset<Block>) returns (live': seq<Block>)
    requires Good(fs, blockSize) && Owns(fs, live, stray) && FindFile(fs.files, name) == |fs.files|
    requires Acceptable(fs, blockSize, Create(name)) && CleanOp(v, blockSize, fs, Create(name))
    requires Ramfs2Model.Create(v, fs, name).1 == 0
    requires var fs1 := Ramfs2Model.Create(v, fs, name).0;
      && WellFormed(fs1, blockSize) && Acceptable(fs1, blockSize, Write(name, data, len))
      && CleanOp(v, blockSize, fs1, Write(name, data, len))
    ensures var fs1 := Ramfs2Model.Create(v, fs, name).0;
            var fs2 := Ramfs2Model.Write(v, fs1, blockSize, name, data, len).0;
            var fs3 := Ramfs2Model.Remove(fs2, name).0;
      Owns(fs3, live', stray) && (fs3.files == fs.files ==> multiset(live') == multiset(live))
  {
    var fs1 := Ramfs2Model.Create(v, fs, name).0;
    var fs2 := Ramfs2Model.Write(v, fs1, blockSize, name, data, len).0;
    var create, write, remove := Create(name), Write(name, data, len), Remove(name);
    assert FindFile(fs1.files, name) == 0 && fs1.files[0].table.None?;
    StepOwnsIff(v, blockSize, fs, create, live, stray);
    StepOnValues(v, blockSize, fs, create);
    assert stray + DroppedTables(fs, create) == stray;
    var live1 := LiveAfter(v, blockSize, fs, create, live);
    hide Owns, LiveAfter, Good, H.Alloc, CleanOp, Objects, TableObjects, Ramfs2Model.Create, Ramfs2Model.Write;
    StepOwnsIff(v, blockSize, fs1, write, live1, stray);
    StepOnValues(v, blockSize, fs1, write);
    NoTableToDrop(fs1, write, stray);
    var live2 := LiveAfter(v, blockSize, fs1, write, live1);
    live' := RemoveTidies(v, blockSize, fs2, name, live2, stray);
    SameLedger(fs, Ramfs2Model.Remove(fs2, name).0, live, live', stray);
  }

  lemma NoTableToDrop(fs: Fs, op: Op, stray: multiset<Block>)
    requires FindFile(fs.files, op.name) == 0 < |fs.files| && fs.files[0].table.None?
    ensures stray + DroppedTables(fs, op) == stray
  {
  }

  lemma RemoveTidies(v: Variant, blockSize: nat, fs: Fs, name: string, live: seq<Block>, stray: multiset<Block>)
    returns (live': seq<Block>)
    requires Good(fs, blockSize) && Owns(fs, live, stray)
    ensures Owns(Ramfs2Model.Remove(fs, name).0, live', stray)
  {
    if FindFile(fs.files, name) < |fs.files| {
      RemoveOwns(v, blockSize, fs, name, live, stray);
      live' := LiveAfter(v, blockSize, fs, Remove(name), live);
    } else {
      live' := live;
    }
  }

  lemma SameLedger(fs: Fs, fs': Fs, live: seq<Block>, live': seq<Block>, stray: multiset<Block>)
    requires Owns(fs, live, stray) && Owns(fs', live', stray)
    ensures fs'.files == fs.files ==> multiset(live') == multiset(live)
  {
  }
}

/**
 One operation of ramfs2 against the map from names to bytes, and the blocks it leaks. Nodes and block
 tables are values here; ramfs2_heap.dfy shows when they are apart in the heap, and what runs keep.
 */
module Ramfs2Runs {
  import opened Words
  import opened Search
  import opened DiskModel
  import opened Ramfs2Model
  import opened Ramfs2Refinement
  import H = HeapModel

  datatype Op =
    | Create(name: string)
    | Write(name: string, data: seq<byte>, len: uint32)
    | Read(name: string)
    | Remove(name: string)

  ghost predicate Good(fs: Fs, blockSize: nat) {
    WellFormed(fs, blockSize) && Inv(fs, blockSize)
  }

  /**
   What the source demands of a caller: a name that fits its buffer, a data buffer of whole blocks,
   and no read or removal of a file whose block table is missing entries.
   */
  ghost predicate Acceptable(fs: Fs, blockSize: nat, op: Op) {
    && 0 < blockSize && |op.name| <= NAME_MAX
    && (op.Write? ==> Needed(op.len, blockSize) * blockSize <= |op.data|)
    && (op.Read? || op.Remove? ==>
          var i := FindFile(fs.files, op.name);
          i < |fs.files| ==> fs.files[i].Intact())
  }

  /** The new state, the return value and the bytes laid in the caller's buffer. */
  ghost function Step(v: Variant, blockSize: nat, fs: Fs, op: Op): (Fs, int, seq<byte>)
    requires WellFormed(fs, blockSize)
  {
    match op
    case Create(name) =>
      var (fs', code) := Ramfs2Model.Create(v, fs, name);
      (fs', code, [])
    case Write(name, data, len) =>
      var (fs', code) := Ramfs2Model.Write(v, fs, blockSize, name, data, len);
      (fs', code, [])
    case Read(name) =>
      var (code, out) := Ramfs2Model.Read(fs, name);
      (fs, code, out)
    case Remove(name) =>
      var (fs', code) := Ramfs2Model.Remove(fs, name);
      (fs', code, [])
  }

  // ----- heap addresses stay usable -----

  lemma CreateAddressed(v: Variant, fs: Fs, blockSize: nat, name: string)
    requires WellFormed(fs, blockSize)
    ensures WellFormed(Ramfs2Model.Create(v, fs, name).0, blockSize)
  {
    H.AllocFreeable(v, fs.heap, NODE_SIZE);
    var (fs', code) := Ramfs2Model.Create(v, fs, name);
    forall j | 0 <= j < |fs'.files|
      ensures InDisk(fs'.disk, fs'.files[j].blocks) && Addressed(fs'.heap, fs'.files[j])
    {
      var k := if code == 0 then j - 1 else j;
      if k >= 0 {
        assert fs'.files[j] == fs.files[k] && Addressed(fs.heap, fs.files[k]);
      }
    }
  }

  lemma WriteAddressed(v: Variant, fs: Fs, blockSize: nat, name: string, data: seq<byte>, len: uint32)
    requires WellFormed(fs, blockSize) && Needed(len, blockSize) * blockSize <= |data|
    ensures WellFormed(Ramfs2Model.Write(v, fs, blockSize, name, data, len).0, blockSize)
  {
    var needed := Needed(len, blockSize);
    H.AllocFreeable(v, fs.heap, 4 * needed % TWO32);
    FillTakes(fs.map', fs.disk, blockSize, data, needed);
    FillStores(fs.map', fs.disk, blockSize, data, needed);
    var (fs', code) := Ramfs2Model.Write(v, fs, blockSize, name, data, len);
    var i := FindFile(fs.files, name);
    hide H.Alloc, Fill;
    forall j | 0 <= j < |fs'.files|
      ensures InDisk(fs'.disk, fs'.files[j].blocks) && Addressed(fs'.heap, fs'.files[j])
    {
      assert Addressed(fs.heap, fs.files[j]) && InDisk(fs.disk, fs.files[j].blocks);
      assert j != i ==> fs'.files[j] == fs.files[j];
    }
  }

  lemma RemoveAddressed(fs: Fs, blockSize: nat, name: string)
    requires WellFormed(fs, blockSize)
    ensures WellFormed(Ramfs2Model.Remove(fs, name).0, blockSize)
  {
    var (fs', code) := Ramfs2Model.Remove(fs, name);
    var i := FindFile(fs.files, name);
    if i < |fs.files| {
      var f := fs.files[i];
      assert Addressed(fs.heap, f);
      H.FreeFreeable(fs.heap, f.table);
      H.FreeFreeable(H.Free(fs.heap, f.table), Some(f.node));
      hide H.Free;
      forall j | 0 <= j < |fs'.files|
        ensures InDisk(fs'.disk, fs'.files[j].blocks) && Addressed(fs'.heap, fs'.files[j])
      {
        var k := if j < i then j else j + 1;
        assert fs'.files[j] == fs.files[k] && Addressed(fs.heap, fs.files[k]);
      }
    }
  }

  // ----- the map of names -----

  ghost function NameSet(files: seq<File>): set<string> {
    set f <- files :: f.name
  }

  /** The file system as a map from names to what they are bound to. */
  ghost function Abs(fs: Fs): map<string, Entry> {
    map n <- NameSet(fs.files) :: Lookup(fs, n)
  }

  /** What one operation may do to the map of names, and what its return value says. */
  ghost predicate MapStep(m: map<string, Entry>, op: Op, code: int, out: seq<byte>, m': map<string, Entry>) {
    match op
    case Create(name) =>
      if code == 0 then name !in m && m' == m[name := Bytes([])] else code == -1 && m' == m
    case Write(name, data, len) =>
      if code == 0 then name in m && len <= |data| && m' == m[name := Bytes(data[..len])]
      else
        && code == -1
        && (if name !in m then m' == m
            else m' == m[name := Damaged] || (m[name] == Bytes([]) && m' == m))
    case Read(name) =>
      && m' == m
      && if name !in m then code == -1 else code == 0 && m[name].Bytes? && m[name].bytes <= out
    case Remove(name) =>
      if name in m then code == 0 && m' == m - {name} else code == -1 && m' == m
  }

  lemma AbsIsLookup(fs: Fs, name: string)
    ensures name in Abs(fs) <==> Lookup(fs, name) != Absent
    ensures name in Abs(fs) ==> Abs(fs)[name] == Lookup(fs, name)
  {
    var i := FindFile(fs.files, name);
    if i < |fs.files| { assert fs.files[i] in fs.files; }
  }

  /** A state in which one name has a new entry stands for the map with that entry. */
  lemma AbsUpdate(fs: Fs, fs': Fs, name: string, e: Entry)
    requires forall n :: Lookup(fs', n) == if n == name then e else Lookup(fs, n)
    ensures Abs(fs') == if e == Absent then Abs(fs) - {name} else Abs(fs)[name := e]
  {
    hide Lookup, Abs;
    forall n ensures n in Abs(fs') <==> Lookup(fs', n) != Absent {
      AbsIsLookup(fs', n);
    }
    forall n ensures n in Abs(fs) <==> Lookup(fs, n) != Absent {
      AbsIsLookup(fs, n);
    }
    forall n | n in Abs(fs') ensures Abs(fs')[n] == Lookup(fs', n) {
      AbsIsLookup(fs', n);
    }
    forall n | n in Abs(fs) ensures Abs(fs)[n] == Lookup(fs, n) {
      AbsIsLookup(fs, n);
    }
  }

  lemma CreateRefines(v: Variant, blockSize: nat, fs: Fs, op: Op)
    requires Good(fs, blockSize) && op.Create?
    ensures var (fs', code, out) := Step(v, blockSize, fs, op);
      Good(fs', blockSize) && MapStep(Abs(fs), op, code, out, Abs(fs'))
  {
    CreateKeeps(v, fs, blockSize, op.name);
    CreateAddressed(v, fs, blockSize, op.name);
    AbsIsLookup(fs, op.name);
    hide Lookup, Abs, Inv, WellFormed, Ramfs2Model.Create, H.Alloc;
    var (fs', code, out) := Step(v, blockSize, fs, op);
    AbsUpdate(fs, fs', op.name, if code == 0 then Bytes([]) else Lookup(fs, op.name));
  }

  lemma WriteGood(v: Variant, blockSize: nat, fs: Fs, op: Op)
    requires Good(fs, blockSize) && op.Write? && Acceptable(fs, blockSize, op)
    ensures Good(Step(v, blockSize, fs, op).0, blockSize)
  {
    var i := FindFile(fs.files, op.name);
    if i < |fs.files| {
      var fs' := Step(v, blockSize, fs, op).0;
      WriteIsConfined(v, fs, blockSize, i, op.data, op.len);
      hide FindFile, Ramfs2Model.Write;
      ConfinedKeeps(fs, fs', blockSize, i, fs'.files[i]);
      WriteAddressed(v, fs, blockSize, op.name, op.data, op.len);
    }
  }

  lemma WriteMap(v: Variant, blockSize: nat, fs: Fs, op: Op, i: nat)
    requires Good(fs, blockSize) && op.Write? && Acceptable(fs, blockSize, op)
    requires i == FindFile(fs.files, op.name) < |fs.files|
    requires Inv(Step(v, blockSize, fs, op).0, blockSize)
    ensures var (fs', code, out) := Step(v, blockSize, fs, op);
      MapStep(Abs(fs), op, code, out, Abs(fs'))
  {
    PresentIsMapped(fs, blockSize, op.name, i);
    var e := WrittenLookup(v, blockSize, fs, op, i);
    hide *;
    AbsUpdate(fs, Step(v, blockSize, fs, op).0, op.name, e);
    EntryWritten(Abs(fs), op, Step(v, blockSize, fs, op).1, Step(v, blockSize, fs, op).2, e);
  }

  lemma PresentIsMapped(fs: Fs, blockSize: nat, name: string, i: nat)
    requires Inv(fs, blockSize) && i == FindFile(fs.files, name) < |fs.files|
    ensures name in Abs(fs) && Abs(fs)[name] == Lookup(fs, name)
  {
    LookupAt(fs, blockSize, i);
    AbsIsLookup(fs, name);
  }

  lemma EntryWritten(m: map<string, Entry>, op: Op, code: int, out: seq<byte>, e: Entry)
    requires op.Write? && op.name in m && (code == 0 || code == -1)
    requires code == 0 ==> op.len <= |op.data| && e == Bytes(op.data[..op.len])
    requires code == -1 ==> e == Damaged || (e == Bytes([]) && m[op.name] == e)
    ensures e != Absent && MapStep(m, op, code, out, m[op.name := e])
  {
  }

  lemma WriteRefines(v: Variant, blockSize: nat, fs: Fs, op: Op)
    requires Good(fs, blockSize) && op.Write? && Acceptable(fs, blockSize, op)
    ensures var (fs', code, out) := Step(v, blockSize, fs, op);
      Good(fs', blockSize) && MapStep(Abs(fs), op, code, out, Abs(fs'))
  {
    WriteGood(v, blockSize, fs, op);
    var i := FindFile(fs.files, op.name);
    if i < |fs.files| {
      WriteMap(v, blockSize, fs, op, i);
    } else {
      AbsIsLookup(fs, op.name);
    }
  }

  /** The entry a write to an existing file leaves, and that no other entry changes. */
  lemma WrittenLookup(v: Variant, blockSize: nat, fs: Fs, op: Op, i: nat) returns (e: Entry)
    requires Good(fs, blockSize) && op.Write? && Acceptable(fs, blockSize, op)
    requires i == FindFile(fs.files, op.name) < |fs.files|
    requires Inv(Step(v, blockSize, fs, op).0, blockSize)
    ensures var (fs', code, _) := Step(v, blockSize, fs, op);
      && (forall n :: Lookup(fs', n) == if n == op.name then e else Lookup(fs, n))
      && (code == 0 || code == -1)
      && (code == 0 ==> op.len <= |op.data| && e == Bytes(op.data[..op.len]))
      && (code == -1 ==> e == Damaged || (e == Bytes([]) && Lookup(fs, op.name) == e))
  {
    var (fs', code, _) := Step(v, blockSize, fs, op);
    WriteIsConfined(v, fs, blockSize, i, op.data, op.len);
    WrittenEntry(v, fs, blockSize, i, op.data, op.len);
    if fs.files[i].count == 0 { EmptyIfNeverWritten(fs, blockSize, i); }
    e := EntryOf(fs'.disk, fs'.files[i]);
    hide Lookup, Inv, EntryOf, Ramfs2Model.Write, WriteOutcome, Confined;
    forall n ensures Lookup(fs', n) == if n == op.name then e else Lookup(fs, n) {
      ConfinedLookup(fs, fs', blockSize, i, fs'.files[i], n);
    }
  }

  /** A file that was never written reads as no bytes. */
  lemma EmptyIfNeverWritten(fs: Fs, blockSize: nat, i: nat)
    requires Inv(fs, blockSize) && i < |fs.files| && fs.files[i].count == 0
    ensures Lookup(fs, fs.files[i].name) == Bytes([])
  {
    assert FileOk(fs, blockSize, fs.files[i]);
    LookupAt(fs, blockSize, i);
  }

  lemma ReadRefines(v: Variant, blockSize: nat, fs: Fs, op: Op)
    requires Good(fs, blockSize) && op.Read? && Acceptable(fs, blockSize, op)
    ensures var (fs', code, out) := Step(v, blockSize, fs, op);
      fs' == fs && MapStep(Abs(fs), op, code, out, Abs(fs))
  {
    var i := FindFile(fs.files, op.name);
    AbsIsLookup(fs, op.name);
    if i < |fs.files| {
      LookupAt(fs, blockSize, i);
      IntactHasBytes(fs, blockSize, i);
    }
  }

  lemma RemoveRefines(v: Variant, blockSize: nat, fs: Fs, op: Op)
    requires Good(fs, blockSize) && op.Remove?
    ensures var (fs', code, out) := Step(v, blockSize, fs, op);
      Good(fs', blockSize) && MapStep(Abs(fs), op, code, out, Abs(fs'))
  {
    RemoveKeeps(fs, blockSize, op.name);
    RemoveAddressed(fs, blockSize, op.name);
    AbsIsLookup(fs, op.name);
    hide Lookup, Abs, Inv, WellFormed, Ramfs2Model.Remove;
    var (fs', code, out) := Step(v, blockSize, fs, op);
    AbsUpdate(fs, fs', op.name, Absent);
  }

  /** One operation, whatever it returns, is a step of the map of names. */
  lemma StepOnValues(v: Variant, blockSize: nat, fs: Fs, op: Op)
    requires Good(fs, blockSize) && Acceptable(fs, blockSize, op)
    ensures var (fs', code, out) := Step(v, blockSize, fs, op);
      Good(fs', blockSize) && MapStep(Abs(fs), op, code, out, Abs(fs'))
  {
    hide MapStep, Abs;
    match op
    case Create(_) => CreateRefines(v, blockSize, fs, op);
    case Write(_, _, _) => WriteRefines(v, blockSize, fs, op);
    case Read(_) => ReadRefines(v, blockSize, fs, op);
    case Remove(_) => RemoveRefines(v, blockSize, fs, op);
  }

  // ----- the plain map -----

  /** The plain map from names to bytes. */
  ghost function PlainNext(m: map<string, seq<byte>>, op: Op): map<string, seq<byte>> {
    match op
    case Create(name) => if name in m then m else m[name := []]
    case Write(name, data, len) => if name in m && len <= |data| then m[name := data[..len]] else m
    case Read(_) => m
    case Remove(name) => m - {name}
  }

  /** Before the call: heap for a new node, or heap for the table and free blocks for the data of a write. */
  ghost predicate EnoughRoom(v: Variant, blockSize: nat, fs: Fs, op: Op)
    requires WellFormed(fs, blockSize)
  {
    var absent := FindFile(fs.files, op.name) == |fs.files|;
    && (op.Create? && absent ==> H.Alloc(v, fs.heap, NODE_SIZE).1.Some?)
    && (op.Write? && !absent ==>
          && H.Alloc(v, fs.heap, 4 * Needed(op.len, blockSize) % TWO32).1.Some?
          && Needed(op.len, blockSize) <= |FreeBlocks(fs.map')|)
  }

  /** With that room neither a create of a fresh name nor a write to an existing file fails. */
  lemma RoomSuffices(v: Variant, blockSize: nat, fs: Fs, op: Op)
    requires Good(fs, blockSize) && EnoughRoom(v, blockSize, fs, op)
    ensures op.Create? && op.name !in Abs(fs) ==> Step(v, blockSize, fs, op).1 == 0
    ensures op.Write? && op.name in Abs(fs) ==> Step(v, blockSize, fs, op).1 == 0
  {
    var i := FindFile(fs.files, op.name);
    AbsIsLookup(fs, op.name);
    if i < |fs.files| {
      PresentIsMapped(fs, blockSize, op.name, i);
      if op.Write? { WriteSucceedsIff(v, fs, blockSize, op.name, op.data, op.len); }
    }
    hide Abs, Needed, FreeBlocks, H.Alloc, Fill;
  }

  ghost predicate SameMap(m: map<string, seq<byte>>, a: map<string, Entry>) {
    && m.Keys == a.Keys
    && forall n <- m :: a[n] == Bytes(m[n])
  }

  lemma PlainStep(m: map<string, seq<byte>>, a: map<string, Entry>, op: Op, code: int, out: seq<byte>,
                  a': map<string, Entry>)
    requires SameMap(m, a) && MapStep(a, op, code, out, a')
    requires op.Create? && op.name !in a ==> code == 0
    requires op.Write? && op.name in a ==> code == 0
    ensures SameMap(PlainNext(m, op), a')
    ensures op.Read? && op.name in m ==> code == 0 && m[op.name] <= out
  {
  }

  // ----- leaked blocks -----

  /** Blocks that drop out of use at one operation: the previous list of a file being written. */
  ghost predicate Dropped(fs: Fs, op: Op, b: nat) {
    op.Write? &&
    var i := FindFile(fs.files, op.name);
    i < |fs.files| && b in fs.files[i].blocks
  }

  /** The leaked blocks grow by exactly the previous list at each write to an existing file, and by nothing else. */
  lemma StepLeaksOnValues(v: Variant, blockSize: nat, fs: Fs, op: Op, b: nat)
    requires Good(fs, blockSize) && Acceptable(fs, blockSize, op)
    ensures Leaked(Step(v, blockSize, fs, op).0, b) <==> Leaked(fs, b) || Dropped(fs, op, b)
  {
    match op
    case Create(name) =>
      CreatePrepends(v, fs, blockSize, name);
      var (fs', code) := Ramfs2Model.Create(v, fs, name);
      hide H.Alloc, Ramfs2Model.Create, Inv, WellFormed;
      if code == 0 { PrependLeaks(fs, fs', b); }
    case Write(name, data, len) =>
      var i := FindFile(fs.files, name);
      if i < |fs.files| {
        WriteIsConfined(v, fs, blockSize, i, data, len);
        var fs' := Step(v, blockSize, fs, op).0;
        hide Ramfs2Model.Write;
        ConfinedLeaks(fs, fs', blockSize, i, fs'.files[i], b);
      }
    case Read(_) =>
    case Remove(name) =>
      if FindFile(fs.files, name) < |fs.files| { RemovedLeaks(fs, blockSize, name, b); }
  }

  /** In every reachable state a block is in use exactly when one file owns it, once, or it has leaked. */
  lemma UsedIsOwnedOrLeaked(fs: Fs, blockSize: nat, b: nat)
    requires Good(fs, blockSize) && b < |fs.map'|
    ensures fs.map'[b] != 0 <==> Owned(fs.files, b) || Leaked(fs, b)
    ensures !(Owned(fs.files, b) && Leaked(fs, b))
    ensures forall i, j, k, l ::
      && 0 <= i < |fs.files| && 0 <= k < |fs.files[i].blocks| && fs.files[i].blocks[k] == b
      && 0 <= j < |fs.files| && 0 <= l < |fs.files[j].blocks| && fs.files[j].blocks[l] == b
      ==> i == j && k == l
  {
    if Owned(fs.files, b) {
      var i :| 0 <= i < |fs.files| && b in fs.files[i].blocks;
      assert FileOk(fs, blockSize, fs.files[i]);
    }
    forall i, j, k, l |
      && 0 <= i < |fs.files| && 0 <= k < |fs.files[i].blocks| && fs.files[i].blocks[k] == b
      && 0 <= j < |fs.files| && 0 <= l < |fs.files[j].blocks| && fs.files[j].blocks[l] == b
      ensures i == j && k == l
    {
      assert FileOk(fs, blockSize, fs.files[i]);
      assert b in fs.files[i].blocks && b in fs.files[j].blocks;
      assert !NoShared(fs.files[i], fs.files[j]);
    }
  }

  // ----- create, write, remove -----

  /**
   Creating a fresh name, writing it once with success and removing it leaves the file list and the
   block map as they were, and the heap bitmap exactly when both windows were free before; with the
   intended search they always are.
   */
  lemma CreateWriteRemoveOnValues(v: Variant, blockSize: nat, fs: Fs, name: string, data: seq<byte>, len: uint32)
    requires Good(fs, blockSize) && FindFile(fs.files, name) == |fs.files|
    requires var (fs1, c1) := Ramfs2Model.Create(v, fs, name);
      c1 == 0 && Ramfs2Model.Write(v, fs1, blockSize, name, data, len).1 == 0
    ensures var fs1 := Ramfs2Model.Create(v, fs, name).0;
            var fs2 := Ramfs2Model.Write(v, fs1, blockSize, name, data, len).0;
            var (fs3, code) := Ramfs2Model.Remove(fs2, name);
      && code == 0 && fs3.files == fs.files && fs3.map' == fs.map'
      && (fs3.heap.used == fs.heap.used <==> FreeWindows(v, fs.heap, 4 * Needed(len, blockSize) % TWO32))
      && (v.WithReset? ==> fs3.heap.used == fs.heap.used)
  {
    var needed := Needed(len, blockSize);
    WrittenFirst(v, blockSize, fs, name, data, len);
    hide Ramfs2Model.Create, Ramfs2Model.Write, Inv, H.Alloc, H.Free, Needed, Fill, FindFile, ClearAll;
    FillTakes(fs.map', fs.disk, blockSize, data, needed);
    ClearTaken(fs.map', Fill(fs.map', fs.disk, blockSize, data, needed));
    HeapReturns(v, fs.heap, 4 * needed % TWO32);
    var fs1 := Ramfs2Model.Create(v, fs, name).0;
    RemoveFirst(Ramfs2Model.Write(v, fs1, blockSize, name, data, len).0, name);
  }

  /** After a create and a successful write the new file stands first, and the rest is as it was. */
  lemma WrittenFirst(v: Variant, blockSize: nat, fs: Fs, name: string, data: seq<byte>, len: uint32)
    requires 0 < blockSize && H.WellFormed(fs.heap) && FindFile(fs.files, name) == |fs.files|
    requires var (fs1, c1) := Ramfs2Model.Create(v, fs, name);
      c1 == 0 && Ramfs2Model.Write(v, fs1, blockSize, name, data, len).1 == 0
    ensures var needed := Needed(len, blockSize);
            var (h1, node) := H.Alloc(v, fs.heap, NODE_SIZE);
            var (h2, table) := H.Alloc(v, h1, 4 * needed % TWO32);
            var w := Fill(fs.map', fs.disk, blockSize, data, needed);
      && node.Some? && table.Some?
      && Ramfs2Model.Write(v, Ramfs2Model.Create(v, fs, name).0, blockSize, name, data, len).0 ==
         Fs([File(name, len, w.blocks, needed, node.value, table)] + fs.files, w.map', w.disk, h2)
  {
    hide H.Alloc, Needed, Fill;
    assert FindFile(Ramfs2Model.Create(v, fs, name).0.files, name) == 0;
  }

  lemma RemoveFirst(fs: Fs, name: string)
    requires |fs.files| > 0 && fs.files[0].name == name
    ensures var f := fs.files[0];
      Ramfs2Model.Remove(fs, name) ==
      (Fs(fs.files[1..], ClearAll(fs.map', f.blocks), fs.disk, H.Free(H.Free(fs.heap, f.table), Some(f.node))), 0)
  {
    hide H.Free, ClearAll;
    assert FindFile(fs.files, name) == 0;
    assert Without(fs.files, 0) == fs.files[1..];
  }

  /** Clearing the marks of the blocks that a write took undoes the marking. */
  lemma ClearTaken(map': seq<byte>, w: Filling)
    requires Took(map', w)
    ensures ClearAll(w.map', w.blocks) == map'
  {
    hide ClearAll;
    forall b | 0 <= b < |map'| ensures ClearAll(w.map', w.blocks)[b] == map'[b] {
    }
  }

  /** The windows of the node and of the table, when asked for in this order, are free now. */
  ghost predicate FreeWindows(v: Variant, h: H.Heap, tableSize: uint32)
    requires H.WellFormed(h)
  {
    var h1 := H.Alloc(v, h, NODE_SIZE).0;
    && Fits(h.used, H.UnitsFor(NODE_SIZE), Find(v, h.used, H.UnitsFor(NODE_SIZE)))
    && Fits(h.used, H.UnitsFor(tableSize), Find(v, h1.used, H.UnitsFor(tableSize)))
  }

  lemma HeapReturns(v: Variant, h: H.Heap, tableSize: uint32)
    requires H.WellFormed(h) && H.Alloc(v, h, NODE_SIZE).1.Some?
    requires H.Alloc(v, H.Alloc(v, h, NODE_SIZE).0, tableSize).1.Some?
    ensures var (h1, node) := H.Alloc(v, h, NODE_SIZE);
            var (h2, table) := H.Alloc(v, h1, tableSize);
      && (H.Free(H.Free(h2, table), node).used == h.used <==> FreeWindows(v, h, tableSize))
      && (v.WithReset? ==> FreeWindows(v, h, tableSize))
  {
    Window(v, h.used, H.UnitsFor(NODE_SIZE));
    var h1 := H.Alloc(v, h, NODE_SIZE).0;
    Window(v, h1.used, H.UnitsFor(tableSize));
    H.TakeTwoAndReturn(v, h, NODE_SIZE, tableSize);
  }
}

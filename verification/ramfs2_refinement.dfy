/** What every run of ramfs2 keeps: block ownership, and agreement with a map from names to bytes. */
module Ramfs2Refinement {
  import opened Words
  import opened Search
  import opened DiskModel
  import opened Ramfs2Model
  import H = HeapModel

  // ----- the write loop -----

  ghost predicate Distinct(blocks: seq<nat>) {
    forall i, j :: 0 <= i < j < |blocks| ==> blocks[i] != blocks[j]
  }

  ghost predicate Took(map': seq<byte>, w: Filling) {
    && |w.map'| == |map'| && Distinct(w.blocks)
    && (forall i :: 0 <= i < |w.blocks| ==> w.blocks[i] < |map'| && map'[w.blocks[i]] == 0)
    && (forall b :: 0 <= b < |map'| ==> w.map'[b] == if b in w.blocks then 1 else map'[b])
  }

  ghost predicate Stored(disk: Disk, blockSize: nat, data: seq<byte>, w: Filling) {
    && |w.disk| == |disk| && DiskModel.Sized(w.disk, blockSize)
    && (forall k :: 0 <= k < |disk| && k !in w.blocks ==> w.disk[k] == disk[k])
    && (forall i :: 0 <= i < |w.blocks| && w.blocks[i] < |disk| ==> w.disk[w.blocks[i]] == Chunk(data, blockSize, i))
  }

  /** The loop takes free blocks only, each once, and marks those and no others. */
  lemma {:induction false} FillTakes(map': seq<byte>, disk: Disk, blockSize: nat, data: seq<byte>, n: nat)
    ensures Took(map', Fill(map', disk, blockSize, data, n))
  {
    if n > 0 {
      FillTakes(map', disk, blockSize, data, n - 1);
      var w := Fill(map', disk, blockSize, data, n - 1);
      var w' := Fill(map', disk, blockSize, data, n);
      if w' != w {
        TookOne(map', w, IndexOf(w.map', 0, 0), w');
      }
    }
  }

  lemma TookOne(map': seq<byte>, w: Filling, b: nat, w': Filling)
    requires Took(map', w) && b < |w.map'| && w.map'[b] == 0
    requires w'.map' == w.map'[b := 1] && w'.blocks == w.blocks + [b]
    ensures Took(map', w')
  {
    assert b !in w.blocks;
    forall c | 0 <= c < |map'| ensures c in w'.blocks <==> c in w.blocks || c == b {
      assert w'.blocks[|w.blocks|] == b;
      if c in w.blocks {
        var i :| 0 <= i < |w.blocks| && w.blocks[i] == c;
        assert w'.blocks[i] == c;
      }
    }
  }

  /** The lowest free blocks are taken, in ascending order. */
  ghost predicate Lowest(map': seq<byte>, blocks: seq<nat>) {
    && (forall i, j :: 0 <= i < j < |blocks| ==> blocks[i] < blocks[j])
    && (forall i, b :: 0 <= i < |blocks| && 0 <= b < |map'| && map'[b] == 0 && b < blocks[i] ==> b in blocks)
  }

  lemma {:induction false} FillTakesLowest(map': seq<byte>, disk: Disk, blockSize: nat, data: seq<byte>, n: nat)
    ensures Lowest(map', Fill(map', disk, blockSize, data, n).blocks)
  {
    if n > 0 {
      FillTakesLowest(map', disk, blockSize, data, n - 1);
      FillTakes(map', disk, blockSize, data, n - 1);
      var w := Fill(map', disk, blockSize, data, n - 1);
      var w' := Fill(map', disk, blockSize, data, n);
      var b := IndexOf(w.map', 0, 0);
      if w' != w {
        hide Fill, IndexOf;
        LowestNext(map', w, b, w'.blocks);
      }
    }
  }

  lemma LowestNext(map': seq<byte>, w: Filling, b: nat, blocks: seq<nat>)
    requires Took(map', w) && Lowest(map', w.blocks) && b < |w.map'| && w.map'[b] == 0
    requires forall c :: 0 <= c < b ==> w.map'[c] != 0
    requires blocks == w.blocks + [b]
    ensures Lowest(map', blocks)
  {
    forall c | 0 <= c < b && map'[c] == 0 ensures c in blocks {
      assert w.map'[c] != 0;
      assert c in w.blocks;
    }
    forall i | 0 <= i < |w.blocks| ensures w.blocks[i] < b {
      var c := w.blocks[i];
      assert c in w.blocks;
      assert b < c ==> b in w.blocks;
    }
    forall i, c | 0 <= i < |blocks| && 0 <= c < |map'| && map'[c] == 0 && c < blocks[i] ensures c in blocks {
      if i < |w.blocks| { assert blocks[i] == w.blocks[i]; }
    }
  }

  /** It stops short only when the device is full. */
  lemma {:induction false} FillStopsWhenFull(map': seq<byte>, disk: Disk, blockSize: nat, data: seq<byte>, n: nat)
    requires |Fill(map', disk, blockSize, data, n).blocks| < n
    ensures forall b :: 0 <= b < |map'| ==> Fill(map', disk, blockSize, data, n).map'[b] != 0
  {
    if |Fill(map', disk, blockSize, data, n - 1).blocks| < n - 1 {
      FillStopsWhenFull(map', disk, blockSize, data, n - 1);
    }
  }

  function FreeBlocks(map': seq<byte>): set<nat> {
    set b: nat | b < |map'| && map'[b] == 0
  }

  /** The loop takes as many blocks as it is asked for or as there are, whichever is less. */
  lemma {:induction false} FillCount(map': seq<byte>, disk: Disk, blockSize: nat, data: seq<byte>, n: nat)
    ensures var w := Fill(map', disk, blockSize, data, n);
      && |w.blocks| + |FreeBlocks(w.map')| == |FreeBlocks(map')|
      && (|w.blocks| == n <==> n <= |FreeBlocks(map')|)
  {
    if n > 0 {
      FillCount(map', disk, blockSize, data, n - 1);
      var w := Fill(map', disk, blockSize, data, n - 1);
      var b := IndexOf(w.map', 0, 0);
      if b < |w.map'| {
        assert b in FreeBlocks(w.map');
        assert FreeBlocks(w.map'[b := 1]) == FreeBlocks(w.map') - {b};
      } else {
        assert FreeBlocks(w.map') == {};
      }
    }
  }

  /** When a write to an existing file succeeds: the heap grants its table and the device has the blocks. */
  lemma WriteSucceedsIff(v: Variant, fs: Fs, blockSize: nat, name: string, data: seq<byte>, len: uint32)
    requires 0 < blockSize && H.WellFormed(fs.heap) && FindFile(fs.files, name) < |fs.files|
    ensures var needed := Needed(len, blockSize);
      Write(v, fs, blockSize, name, data, len).1 == 0 <==>
      H.Alloc(v, fs.heap, 4 * needed % TWO32).1.Some? && needed <= |FreeBlocks(fs.map')|
  {
    FillCount(fs.map', fs.disk, blockSize, data, Needed(len, blockSize));
    hide Fill, H.Alloc, Needed;
  }

  /** Once the device is full, further rounds change nothing. */
  lemma {:induction false} FillStuck(map': seq<byte>, disk: Disk, blockSize: nat, data: seq<byte>, i: nat, n: nat)
    requires i <= n && |Fill(map', disk, blockSize, data, i).blocks| < i
    ensures Fill(map', disk, blockSize, data, n) == Fill(map', disk, blockSize, data, i)
  {
    if i < n {
      FillStuck(map', disk, blockSize, data, i, n - 1);
    }
  }

  lemma ChunkLength(data: seq<byte>, blockSize: nat, n: nat, i: nat)
    requires i < n && n * blockSize <= |data|
    ensures |Chunk(data, blockSize, i)| == blockSize
    ensures i * blockSize + blockSize <= n * blockSize
  {
    MulOrder(i, n, blockSize);
  }

  /** Chunk `i` ends up in the `i`-th block taken, and no other block changes. */
  lemma {:induction false} FillStores(map': seq<byte>, disk: Disk, blockSize: nat, data: seq<byte>, n: nat)
    requires DiskModel.Sized(disk, blockSize) && |map'| == |disk| && n * blockSize <= |data|
    ensures Stored(disk, blockSize, data, Fill(map', disk, blockSize, data, n))
  {
    if n > 0 {
      MulOrder(n - 1, n, blockSize);
      FillStores(map', disk, blockSize, data, n - 1);
      FillTakes(map', disk, blockSize, data, n - 1);
      var w := Fill(map', disk, blockSize, data, n - 1);
      var w' := Fill(map', disk, blockSize, data, n);
      if w' != w {
        ChunkLength(data, blockSize, n, n - 1);
        var b := IndexOf(w.map', 0, 0);
        assert b !in w.blocks;
        assert |w.blocks| == n - 1;
        hide Fill, IndexOf, Chunk;
        StoredOne(disk, blockSize, data, w, b, w');
      }
    }
  }

  lemma StoredOne(disk: Disk, blockSize: nat, data: seq<byte>, w: Filling, b: nat, w': Filling)
    requires Stored(disk, blockSize, data, w) && b < |disk| && b !in w.blocks
    requires |Chunk(data, blockSize, |w.blocks|)| == blockSize
    requires w'.blocks == w.blocks + [b] && w'.disk == WriteBlock(w.disk, b, Chunk(data, blockSize, |w.blocks|))
    ensures Stored(disk, blockSize, data, w')
  {
    hide Chunk;
    assert w'.disk[b] == Chunk(data, blockSize, |w.blocks|);
    hide WriteBlock;
    forall k | 0 <= k < |disk| && k !in w'.blocks ensures w'.disk[k] == disk[k] {
      assert w'.blocks[|w.blocks|] == b;
      assert k !in w.blocks;
    }
    forall i | 0 <= i < |w'.blocks| && w'.blocks[i] < |disk|
      ensures w'.disk[w'.blocks[i]] == Chunk(data, blockSize, i)
    {
      if i < |w.blocks| { assert w'.blocks[i] == w.blocks[i] && w.blocks[i] in w.blocks; }
    }
  }

  lemma {:induction false} ContentsFrame(d: Disk, d': Disk, blocks: seq<nat>)
    requires InDisk(d, blocks) && InDisk(d', blocks)
    requires forall i :: 0 <= i < |blocks| ==> d'[blocks[i]] == d[blocks[i]]
    ensures Contents(d', blocks) == Contents(d, blocks)
    decreases |blocks|
  {
    if |blocks| > 0 {
      ContentsFrame(d, d', blocks[..|blocks| - 1]);
    }
  }

  lemma {:induction false} ContentsLength(d: Disk, blockSize: nat, blocks: seq<nat>)
    requires DiskModel.Sized(d, blockSize) && InDisk(d, blocks)
    ensures |Contents(d, blocks)| == |blocks| * blockSize
    decreases |blocks|
  {
    if |blocks| > 0 {
      var n := |blocks| - 1;
      ContentsLength(d, blockSize, blocks[..n]);
      assert (n + 1) * blockSize == n * blockSize + blockSize;
    }
  }

  lemma ChunkJoins(data: seq<byte>, blockSize: nat, n: nat, m: nat)
    requires m == n * blockSize && m + blockSize <= |data|
    ensures data[..m] + Chunk(data, blockSize, n) == data[..m + blockSize]
  {
  }

  /** Reassembling the blocks gives back the bytes that were split over them. */
  lemma {:induction false} ContentsOfChunks(d: Disk, blockSize: nat, blocks: seq<nat>, data: seq<byte>)
    requires InDisk(d, blocks) && |blocks| * blockSize <= |data|
    requires forall i :: 0 <= i < |blocks| ==> d[blocks[i]] == Chunk(data, blockSize, i)
    ensures Contents(d, blocks) == data[..|blocks| * blockSize]
    decreases |blocks|
  {
    if |blocks| > 0 {
      var n := |blocks| - 1;
      MulOrder(n, |blocks|, blockSize);
      ContentsOfChunks(d, blockSize, blocks[..n], data);
      assert (n + 1) * blockSize == n * blockSize + blockSize;
      ChunkJoins(data, blockSize, n, n * blockSize);
    }
  }

  /** A rounding that wraps asks for no block at all, which the heap refuses. */
  lemma NeededCovers(len: uint32, blockSize: nat)
    requires 0 < blockSize && Needed(len, blockSize) >= 1
    ensures len <= Needed(len, blockSize) * blockSize
  {
    var x := (len + blockSize - 1) % TWO32;
    var n := x / blockSize;
    assert n * blockSize <= x < n * blockSize + blockSize;
    MulOrder(1, n, blockSize);
    assert x >= blockSize;
  }

  // ----- the invariant -----

  ghost predicate FileOk(fs: Fs, blockSize: nat, f: File) {
    && (forall i :: 0 <= i < |f.blocks| ==> f.blocks[i] < |fs.map'| && fs.map'[f.blocks[i]] != 0)
    && Distinct(f.blocks) && |f.blocks| <= f.count
    && (f.Intact() ==> f.size <= f.count * blockSize)
    && (f.count == 0 ==> f.size == 0)
  }

  ghost predicate NoShared(f: File, g: File) {
    forall b :: b in f.blocks ==> b !in g.blocks
  }

  ghost predicate FilesOk(fs: Fs, blockSize: nat) {
    forall i :: 0 <= i < |fs.files| ==> FileOk(fs, blockSize, fs.files[i])
  }

  ghost predicate FilesApart(files: seq<File>) {
    forall i, j :: 0 <= i < |files| && 0 <= j < |files| && i != j ==>
      files[i].name != files[j].name && NoShared(files[i], files[j])
  }

  ghost predicate Inv(fs: Fs, blockSize: nat) {
    && 0 < blockSize && |fs.map'| == |fs.disk| && DiskModel.Sized(fs.disk, blockSize)
    && H.WellFormed(fs.heap)
    && FilesOk(fs, blockSize) && FilesApart(fs.files)
  }

  ghost predicate Owned(files: seq<File>, b: nat) {
    exists i :: 0 <= i < |files| && b in files[i].blocks
  }

  /** Marked as used, but in no file's list. */
  ghost predicate Leaked(fs: Fs, b: nat) {
    b < |fs.map'| && fs.map'[b] != 0 && !Owned(fs.files, b)
  }

  // ----- the abstract file system -----

  /** A name is unbound, bound to bytes, or bound to a file that a failed write has damaged. */
  datatype Entry = Absent | Bytes(bytes: seq<byte>) | Damaged

  ghost function EntryOf(disk: Disk, f: File): Entry {
    if InDisk(disk, f.blocks) && f.Intact() && f.size <= |Contents(disk, f.blocks)| then
      Bytes(Contents(disk, f.blocks)[..f.size])
    else Damaged
  }

  ghost function Lookup(fs: Fs, name: string): Entry {
    var i := FindFile(fs.files, name);
    if i == |fs.files| then Absent else EntryOf(fs.disk, fs.files[i])
  }

  lemma LookupAt(fs: Fs, blockSize: nat, i: nat)
    requires Inv(fs, blockSize) && i < |fs.files|
    ensures InDisk(fs.disk, fs.files[i].blocks)
    ensures Lookup(fs, fs.files[i].name) == EntryOf(fs.disk, fs.files[i])
  {
    var k := FindFile(fs.files, fs.files[i].name);
    assert FileOk(fs, blockSize, fs.files[i]);
    assert k == i;
  }

  lemma LookupAbsent(fs: Fs, blockSize: nat, name: string)
    requires Inv(fs, blockSize) && forall i :: 0 <= i < |fs.files| ==> fs.files[i].name != name
    ensures Lookup(fs, name) == Absent
  {
  }

  /** A file that is intact always has its bytes; the invariant rules out a size beyond them. */
  lemma IntactHasBytes(fs: Fs, blockSize: nat, i: nat)
    requires Inv(fs, blockSize) && i < |fs.files| && fs.files[i].Intact()
    ensures InDisk(fs.disk, fs.files[i].blocks)
    ensures fs.files[i].size <= |Contents(fs.disk, fs.files[i].blocks)|
    ensures EntryOf(fs.disk, fs.files[i]) == Bytes(Contents(fs.disk, fs.files[i].blocks)[..fs.files[i].size])
  {
    assert FileOk(fs, blockSize, fs.files[i]);
    ContentsLength(fs.disk, blockSize, fs.files[i].blocks);
  }

  /** Two states that agree on one file's descriptor and on its blocks agree on its entry. */
  lemma EntryFrame(fs: Fs, fs': Fs, f: File)
    requires InDisk(fs.disk, f.blocks) && InDisk(fs'.disk, f.blocks)
    requires forall i :: 0 <= i < |f.blocks| ==> fs'.disk[f.blocks[i]] == fs.disk[f.blocks[i]]
    ensures EntryOf(fs'.disk, f) == EntryOf(fs.disk, f)
  {
    ContentsFrame(fs.disk, fs'.disk, f.blocks);
  }

  // ----- one operation -----

  /** A change confined to one file's descriptor and to blocks that were free. */
  ghost predicate Confined(fs: Fs, fs': Fs, blockSize: nat, i: nat, g: File) {
    && i < |fs.files| && fs'.files == fs.files[i := g] && g.name == fs.files[i].name
    && |fs'.map'| == |fs.map'| && |fs'.disk| == |fs.disk| && DiskModel.Sized(fs'.disk, blockSize)
    && H.WellFormed(fs'.heap)
    && (forall k :: 0 <= k < |g.blocks| ==> g.blocks[k] < |fs.map'| && fs.map'[g.blocks[k]] == 0)
    && (forall b :: 0 <= b < |fs.map'| ==> (fs'.map'[b] != 0 <==> fs.map'[b] != 0 || b in g.blocks))
    && (forall b :: 0 <= b < |fs.disk| && b !in g.blocks ==> fs'.disk[b] == fs.disk[b])
  }

  lemma ConfinedOtherFile(fs: Fs, fs': Fs, blockSize: nat, i: nat, g: File, j: nat)
    requires Inv(fs, blockSize) && Confined(fs, fs', blockSize, i, g) && j < |fs.files| && j != i
    ensures FileOk(fs', blockSize, fs.files[j]) && NoShared(fs.files[j], g) && NoShared(g, fs.files[j])
    ensures InDisk(fs.disk, fs.files[j].blocks) && InDisk(fs'.disk, fs.files[j].blocks)
    ensures EntryOf(fs'.disk, fs.files[j]) == EntryOf(fs.disk, fs.files[j])
  {
    var f := fs.files[j];
    assert FileOk(fs, blockSize, f);
    forall k | 0 <= k < |f.blocks| ensures f.blocks[k] !in g.blocks {
      assert fs.map'[f.blocks[k]] != 0;
    }
    EntryFrame(fs, fs', f);
  }

  lemma ConfinedKeeps(fs: Fs, fs': Fs, blockSize: nat, i: nat, g: File)
    requires Inv(fs, blockSize) && Confined(fs, fs', blockSize, i, g) && FileOk(fs', blockSize, g)
    ensures Inv(fs', blockSize)
  {
    forall j | 0 <= j < |fs'.files| ensures FileOk(fs', blockSize, fs'.files[j]) {
      if j != i { ConfinedOtherFile(fs, fs', blockSize, i, g, j); }
    }
    forall j, k | 0 <= j < |fs'.files| && 0 <= k < |fs'.files| && j != k
      ensures fs'.files[j].name != fs'.files[k].name && NoShared(fs'.files[j], fs'.files[k])
    {
      assert fs.files[j].name != fs.files[k].name && NoShared(fs.files[j], fs.files[k]);
      if j == i { ConfinedOtherFile(fs, fs', blockSize, i, g, k); }
      if k == i { ConfinedOtherFile(fs, fs', blockSize, i, g, j); }
    }
  }

  /** Other names keep their entry; the file's own entry is that of its new descriptor. */
  lemma ConfinedLookup(fs: Fs, fs': Fs, blockSize: nat, i: nat, g: File, name: string)
    requires Inv(fs, blockSize) && Confined(fs, fs', blockSize, i, g) && FileOk(fs', blockSize, g)
    requires Inv(fs', blockSize)
    ensures InDisk(fs'.disk, g.blocks)
    ensures Lookup(fs', name) ==
      if name == g.name then EntryOf(fs'.disk, g) else Lookup(fs, name)
  {
    var j := FindFile(fs.files, name);
    if name == g.name {
      LookupAt(fs', blockSize, i);
    } else if j == |fs.files| {
      LookupAbsent(fs', blockSize, name);
    } else {
      ConfinedOtherFile(fs, fs', blockSize, i, g, j);
      LookupAt(fs', blockSize, j);
      LookupAt(fs, blockSize, j);
    }
  }

  /** What the file held before is leaked, and nothing else is. */
  lemma ConfinedLeaks(fs: Fs, fs': Fs, blockSize: nat, i: nat, g: File, b: nat)
    requires Inv(fs, blockSize) && Confined(fs, fs', blockSize, i, g)
    ensures Leaked(fs', b) <==> Leaked(fs, b) || b in fs.files[i].blocks
  {
    assert FileOk(fs, blockSize, fs.files[i]);
    if b in fs.files[i].blocks {
      forall j | 0 <= j < |fs'.files| ensures b !in fs'.files[j].blocks {
        assert j != i ==> NoShared(fs.files[i], fs.files[j]);
      }
    } else if b < |fs.map'| {
      if Owned(fs.files, b) {
        var j :| 0 <= j < |fs.files| && b in fs.files[j].blocks;
        assert b in fs'.files[j].blocks;
      }
      if Owned(fs'.files, b) && b !in g.blocks {
        var j :| 0 <= j < |fs'.files| && b in fs'.files[j].blocks;
        assert b in fs.files[j].blocks;
      }
      if b in g.blocks {
        assert b in fs'.files[i].blocks;
      }
    }
  }

  /** `fs'` is `fs` with a fresh empty file at the head. */
  ghost predicate Prepended(fs: Fs, fs': Fs) {
    && |fs'.files| == |fs.files| + 1
    && fs'.disk == fs.disk && fs'.map' == fs.map' && H.WellFormed(fs'.heap)
    && (forall j :: 0 < j < |fs'.files| ==> fs'.files[j] == fs.files[j - 1])
    && fs'.files[0].blocks == [] && fs'.files[0].count == 0 && fs'.files[0].size == 0
    && FindFile(fs.files, fs'.files[0].name) == |fs.files|
  }

  lemma CreatePrepends(v: Variant, fs: Fs, blockSize: nat, name: string)
    requires Inv(fs, blockSize)
    ensures var (fs', code) := Create(v, fs, name);
      && (code == 0 <==> FindFile(fs.files, name) == |fs.files| && H.Alloc(v, fs.heap, NODE_SIZE).1.Some?)
      && (code == 0 ==> Prepended(fs, fs') && fs'.files[0].name == name)
      && (code != 0 ==> code == -1 && fs' == fs.(heap := fs'.heap) && H.WellFormed(fs'.heap))
  {
    H.AllocFreeable(v, fs.heap, NODE_SIZE);
  }

  lemma PrependKeeps(fs: Fs, fs': Fs, blockSize: nat)
    requires Inv(fs, blockSize) && Prepended(fs, fs')
    ensures Inv(fs', blockSize)
  {
    forall j | 0 <= j < |fs'.files| ensures FileOk(fs', blockSize, fs'.files[j]) {
      assert j > 0 ==> FileOk(fs, blockSize, fs.files[j - 1]);
    }
    forall j, k | 0 <= j < |fs'.files| && 0 <= k < |fs'.files| && j != k
      ensures fs'.files[j].name != fs'.files[k].name && NoShared(fs'.files[j], fs'.files[k])
    {
      assert j > 0 && k > 0 ==> fs'.files[j] == fs.files[j - 1] && fs'.files[k] == fs.files[k - 1];
      assert j == 0 ==> fs'.files[k] == fs.files[k - 1];
      assert k == 0 ==> fs'.files[j] == fs.files[j - 1];
    }
  }

  lemma PrependLeaks(fs: Fs, fs': Fs, b: nat)
    requires Prepended(fs, fs')
    ensures Leaked(fs', b) <==> Leaked(fs, b)
  {
    if Owned(fs.files, b) {
      var j :| 0 <= j < |fs.files| && b in fs.files[j].blocks;
      assert b in fs'.files[j + 1].blocks;
    }
    if Owned(fs'.files, b) {
      var j :| 0 <= j < |fs'.files| && b in fs'.files[j].blocks;
      assert fs'.files[j] == fs.files[j - 1];
    }
  }

  lemma CreateKeeps(v: Variant, fs: Fs, blockSize: nat, name: string)
    requires Inv(fs, blockSize)
    ensures var (fs', code) := Create(v, fs, name);
      && Inv(fs', blockSize)
      && (code == 0 <==> Lookup(fs, name) == Absent && H.Alloc(v, fs.heap, NODE_SIZE).1.Some?)
      && (code == 0 || code == -1)
      && (forall n :: Lookup(fs', n) ==
            if code == 0 && n == name then Bytes([]) else Lookup(fs, n))
      && (forall b :: Leaked(fs', b) <==> Leaked(fs, b))
  {
    CreatePrepends(v, fs, blockSize, name);
    var (fs', code) := Create(v, fs, name);
    hide H.Alloc, Create;
    if code == 0 {
      PrependKeeps(fs, fs', blockSize);
      forall n ensures Lookup(fs', n) == if n == name then Bytes([]) else Lookup(fs, n) {
        PrependLookup(fs, fs', blockSize, n);
      }
      forall b ensures Leaked(fs', b) <==> Leaked(fs, b) {
        PrependLeaks(fs, fs', b);
      }
    } else {
      SameBlocks(fs, fs', blockSize);
    }
  }

  lemma SameBlocks(fs: Fs, fs': Fs, blockSize: nat)
    requires Inv(fs, blockSize) && fs' == fs.(heap := fs'.heap) && H.WellFormed(fs'.heap)
    ensures Inv(fs', blockSize)
    ensures forall n :: Lookup(fs', n) == Lookup(fs, n)
    ensures forall b :: Leaked(fs', b) <==> Leaked(fs, b)
  {
    assert forall j :: 0 <= j < |fs.files| && FileOk(fs, blockSize, fs.files[j]) ==> FileOk(fs', blockSize, fs.files[j]);
  }

  lemma PrependLookup(fs: Fs, fs': Fs, blockSize: nat, n: string)
    requires Inv(fs, blockSize) && Inv(fs', blockSize)
    requires Prepended(fs, fs')
    ensures Lookup(fs', n) == if n == fs'.files[0].name then Bytes([]) else Lookup(fs, n)
  {
    var j := FindFile(fs.files, n);
    if n == fs'.files[0].name {
      LookupAt(fs', blockSize, 0);
    } else if j == |fs.files| {
      LookupAbsent(fs', blockSize, n);
    } else {
      LookupAt(fs, blockSize, j);
      LookupAt(fs', blockSize, j + 1);
    }
  }

  /** How a write to an existing file ends. */
  datatype Outcome = Complete | Refused | Full

  ghost function WriteOutcome(v: Variant, fs: Fs, blockSize: nat, data: seq<byte>, len: uint32): Outcome
    requires Inv(fs, blockSize)
  {
    var needed := Needed(len, blockSize);
    if H.Alloc(v, fs.heap, 4 * needed % TWO32).1.None? then Refused
    else if |Fill(fs.map', fs.disk, blockSize, data, needed).blocks| < needed then Full
    else Complete
  }

  lemma WriteIsConfined(v: Variant, fs: Fs, blockSize: nat, i: nat, data: seq<byte>, len: uint32)
    requires Inv(fs, blockSize) && i < |fs.files| && Needed(len, blockSize) * blockSize <= |data|
    ensures var (fs', code) := Write(v, fs, blockSize, fs.files[i].name, data, len);
      && i < |fs'.files| && Confined(fs, fs', blockSize, i, fs'.files[i])
      && FileOk(fs', blockSize, fs'.files[i])
      && code == if WriteOutcome(v, fs, blockSize, data, len) == Complete then 0 else -1
  {
    var f := fs.files[i];
    assert FindFile(fs.files, f.name) == i;
    assert FileOk(fs, blockSize, f);
    var needed := Needed(len, blockSize);
    H.AllocFreeable(v, fs.heap, 4 * needed % TWO32);
    if WriteOutcome(v, fs, blockSize, data, len) != Refused {
      NothingNeedsNoTable(v, fs.heap);
      FillTakes(fs.map', fs.disk, blockSize, data, needed);
      FillStores(fs.map', fs.disk, blockSize, data, needed);
      NeededCovers(len, blockSize);
    }
  }

  lemma NothingNeedsNoTable(v: Variant, h: H.Heap)
    requires |h.used| == |h.mem| / H.UNIT
    ensures H.Alloc(v, h, 4 * 0 % TWO32).1.None?
  {
  }

  ghost function AfterWrite(fs: Fs, blockSize: nat, i: nat, outcome: Outcome, data: seq<byte>, len: uint32): Entry
    requires Inv(fs, blockSize) && i < |fs.files| && (outcome == Complete ==> len <= |data|)
  {
    match outcome
    case Complete => Bytes(data[..len])
    case Full => Damaged
    case Refused => if fs.files[i].count == 0 then Bytes([]) else Damaged
  }

  /** After a complete write loop the first `len` bytes of the blocks are those of the buffer. */
  lemma FilledContents(map': seq<byte>, disk: Disk, blockSize: nat, data: seq<byte>, len: uint32)
    requires 0 < blockSize && DiskModel.Sized(disk, blockSize) && |map'| == |disk|
    requires 1 <= Needed(len, blockSize) && Needed(len, blockSize) * blockSize <= |data|
    requires |Fill(map', disk, blockSize, data, Needed(len, blockSize)).blocks| == Needed(len, blockSize)
    ensures var w := Fill(map', disk, blockSize, data, Needed(len, blockSize));
      && InDisk(w.disk, w.blocks)
      && len <= |data| && len <= |Contents(w.disk, w.blocks)|
      && Contents(w.disk, w.blocks)[..len] == data[..len]
  {
    var needed := Needed(len, blockSize);
    var w := Fill(map', disk, blockSize, data, needed);
    NeededCovers(len, blockSize);
    FillTakes(map', disk, blockSize, data, needed);
    FillStores(map', disk, blockSize, data, needed);
    hide Fill, Needed, Chunk, Contents;
    ChunksCover(w.disk, blockSize, w.blocks, data, len);
  }

  lemma ChunksCover(d: Disk, blockSize: nat, blocks: seq<nat>, data: seq<byte>, len: nat)
    requires InDisk(d, blocks) && len <= |blocks| * blockSize <= |data|
    requires forall i :: 0 <= i < |blocks| ==> d[blocks[i]] == Chunk(data, blockSize, i)
    ensures len <= |Contents(d, blocks)| && Contents(d, blocks)[..len] == data[..len]
  {
    ContentsOfChunks(d, blockSize, blocks, data);
  }

  lemma WrittenEntry(v: Variant, fs: Fs, blockSize: nat, i: nat, data: seq<byte>, len: uint32)
    requires Inv(fs, blockSize) && i < |fs.files| && Needed(len, blockSize) * blockSize <= |data|
    ensures var (fs', _) := Write(v, fs, blockSize, fs.files[i].name, data, len);
            var outcome := WriteOutcome(v, fs, blockSize, data, len);
      && (outcome == Complete ==> len <= |data|)
      && i < |fs'.files| && InDisk(fs'.disk, fs'.files[i].blocks)
      && EntryOf(fs'.disk, fs'.files[i]) == AfterWrite(fs, blockSize, i, outcome, data, len)
  {
    var f := fs.files[i];
    assert FindFile(fs.files, f.name) == i;
    assert FileOk(fs, blockSize, f);
    WriteIsConfined(v, fs, blockSize, i, data, len);
    NothingNeedsNoTable(v, fs.heap);
    hide Fill, Needed, H.Alloc;
    if WriteOutcome(v, fs, blockSize, data, len) == Complete {
      FilledContents(fs.map', fs.disk, blockSize, data, len);
    }
  }

  lemma RemoveKeeps(fs: Fs, blockSize: nat, name: string)
    requires Inv(fs, blockSize) && WellFormed(fs, blockSize)
    ensures var (fs', code) := Remove(fs, name);
      && Inv(fs', blockSize)
      && code == (if Lookup(fs, name) == Absent then -1 else 0)
      && (forall n :: Lookup(fs', n) == if n == name then Absent else Lookup(fs, n))
      && (forall b :: Leaked(fs', b) <==> Leaked(fs, b))
  {
    var (fs', code) := Remove(fs, name);
    var i := FindFile(fs.files, name);
    if i < |fs.files| {
      LookupAt(fs, blockSize, i);
      RemovedFilesOk(fs, blockSize, name);
      forall n ensures Lookup(fs', n) == if n == name then Absent else Lookup(fs, n) {
        RemovedLookup(fs, blockSize, name, n);
      }
      forall b ensures Leaked(fs', b) <==> Leaked(fs, b) {
        RemovedLeaks(fs, blockSize, name, b);
      }
    }
  }

  lemma RemovedFilesOk(fs: Fs, blockSize: nat, name: string)
    requires Inv(fs, blockSize) && WellFormed(fs, blockSize) && FindFile(fs.files, name) < |fs.files|
    ensures Inv(Remove(fs, name).0, blockSize)
  {
    var i := FindFile(fs.files, name);
    var fs' := Remove(fs, name).0;
    H.FreeFreeable(fs.heap, fs.files[i].table);
    H.FreeFreeable(H.Free(fs.heap, fs.files[i].table), Some(fs.files[i].node));
    hide H.Free;
    forall j | 0 <= j < |fs'.files| ensures FileOk(fs', blockSize, fs'.files[j]) {
      var k := if j < i then j else j + 1;
      assert fs'.files[j] == fs.files[k] && FileOk(fs, blockSize, fs.files[k]);
      assert NoShared(fs.files[k], fs.files[i]);
    }
    WithoutApart(fs.files, i);
  }

  lemma WithoutApart(files: seq<File>, i: nat)
    requires FilesApart(files) && i < |files|
    ensures FilesApart(Without(files, i))
  {
  }

  lemma RemovedLookup(fs: Fs, blockSize: nat, name: string, n: string)
    requires Inv(fs, blockSize) && WellFormed(fs, blockSize) && FindFile(fs.files, name) < |fs.files|
    requires Inv(Remove(fs, name).0, blockSize)
    ensures Lookup(Remove(fs, name).0, n) == if n == name then Absent else Lookup(fs, n)
  {
    var i := FindFile(fs.files, name);
    var fs' := Remove(fs, name).0;
    var j := FindFile(fs'.files, n);
    var k := if j < i then j else j + 1;
    if j < |fs'.files| {
      assert fs'.files[j] == fs.files[k];
      LookupAt(fs', blockSize, j);
      LookupAt(fs, blockSize, k);
      EntryFrame(fs, fs', fs.files[k]);
    } else if n != name {
      forall m | 0 <= m < |fs.files| ensures fs.files[m].name != n {
        if m != i { assert fs'.files[if m < i then m else m - 1] == fs.files[m]; }
      }
      LookupAbsent(fs, blockSize, n);
    }
  }

  lemma RemovedLeaks(fs: Fs, blockSize: nat, name: string, b: nat)
    requires Inv(fs, blockSize) && WellFormed(fs, blockSize) && FindFile(fs.files, name) < |fs.files|
    ensures Leaked(Remove(fs, name).0, b) <==> Leaked(fs, b)
  {
    var i := FindFile(fs.files, name);
    var fs' := Remove(fs, name).0;
    if Owned(fs'.files, b) {
      var j :| 0 <= j < |fs'.files| && b in fs'.files[j].blocks;
      assert b in fs.files[if j < i then j else j + 1].blocks;
    }
    if Owned(fs.files, b) && b !in fs.files[i].blocks {
      var j :| 0 <= j < |fs.files| && b in fs.files[j].blocks;
      assert b in fs'.files[if j < i then j else j - 1].blocks;
    }
    if b in fs.files[i].blocks {
      assert Owned(fs.files, b);
    }
  }
}

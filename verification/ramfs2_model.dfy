/**
 kernel/fs/ramfs2/ramfs2.c as a value: the file list (head first), the block map, the device and the
 heap. The class in ramfs2.dfy is proved to compute exactly these functions.
 */
module Ramfs2Model {
  import opened Words
  import opened Search
  import opened DiskModel
  import H = HeapModel

  const NODE_SIZE: uint32 := 48
  const CTX_SIZE: uint32 := 12
  const NAME_MAX: nat := 31

  /**
   `blocks` holds the entries of the block table that have been filled in; `count` is `block_count`.
   `node` and `table` are the heap addresses of the list node and of the block table.
   */
  datatype File = File(name: string, size: nat, blocks: seq<nat>, count: nat, node: nat, table: Option<nat>) {
    /** Every entry that `block_count` promises has been filled in. */
    predicate Intact() { |blocks| == count }
  }

  datatype Fs = Fs(files: seq<File>, map': seq<byte>, disk: Disk, heap: H.Heap)

  /** `find_file`: the first match from the head, or the length of the list. */
  function FindFile(files: seq<File>, name: string): (r: nat)
    ensures r <= |files|
    ensures forall k :: 0 <= k < r ==> files[k].name != name
    ensures r < |files| ==> files[r].name == name
  {
    var names := seq(|files|, i requires 0 <= i < |files| => files[i].name);
    assert forall k :: 0 <= k < |files| ==> names[k] == files[k].name;
    IndexOf(names, name, 0)
  }

  lemma FindFileIs(files: seq<File>, name: string, i: nat)
    requires i <= |files|
    requires forall k :: 0 <= k < i ==> files[k].name != name
    requires i < |files| ==> files[i].name == name
    ensures FindFile(files, name) == i
  {
  }

  /** The `i`-th whole block of a caller's buffer. */
  function Chunk(data: seq<byte>, blockSize: nat, i: nat): seq<byte> {
    if i * blockSize + blockSize <= |data| then data[i * blockSize..i * blockSize + blockSize] else []
  }

  datatype Filling = Filling(map': seq<byte>, disk: Disk, blocks: seq<nat>)

  /** The write loop after `n` rounds: each takes the first free block and stores one chunk in it. */
  function Fill(map': seq<byte>, disk: Disk, blockSize: nat, data: seq<byte>, n: nat): (w: Filling)
    ensures |w.map'| == |map'| && |w.disk| == |disk| && |w.blocks| <= n
  {
    if n == 0 then Filling(map', disk, [])
    else
      var w := Fill(map', disk, blockSize, data, n - 1);
      var b := IndexOf(w.map', 0, 0);
      if |w.blocks| < n - 1 || b == |w.map'| then w
      else Filling(w.map'[b := 1], WriteBlock(w.disk, b, Chunk(data, blockSize, n - 1)), w.blocks + [b])
  }

  function ClearAll(map': seq<byte>, blocks: seq<nat>): (r: seq<byte>)
    ensures |r| == |map'|
    ensures forall b :: 0 <= b < |map'| ==> r[b] == if b in blocks then 0 else map'[b]
  {
    if |blocks| == 0 then map'
    else
      var rest := ClearAll(map', blocks[..|blocks| - 1]);
      var b := blocks[|blocks| - 1];
      assert blocks == blocks[..|blocks| - 1] + [b];
      if b < |map'| then rest[b := 0] else rest
  }

  ghost predicate InDisk(disk: Disk, blocks: seq<nat>) {
    forall i :: 0 <= i < |blocks| ==> blocks[i] < |disk|
  }

  /** The blocks of a file, in order, put end to end. */
  function Contents(disk: Disk, blocks: seq<nat>): seq<byte>
    requires InDisk(disk, blocks)
  {
    if |blocks| == 0 then [] else Contents(disk, blocks[..|blocks| - 1]) + disk[blocks[|blocks| - 1]]
  }

  // ----- operations -----

  ghost predicate WellFormed(fs: Fs, blockSize: nat) {
    && 0 < blockSize
    && |fs.map'| == |fs.disk| && DiskModel.Sized(fs.disk, blockSize)
    && H.WellFormed(fs.heap)
    && (forall i :: 0 <= i < |fs.files| ==> InDisk(fs.disk, fs.files[i].blocks) && Addressed(fs.heap, fs.files[i]))
  }

  ghost predicate Addressed(h: H.Heap, f: File) {
    H.Freeable(h, f.node) && (f.table.Some? ==> H.Freeable(h, f.table.value))
  }

  function Create(v: Variant, fs: Fs, name: string): (Fs, int)
    requires |fs.heap.used| == |fs.heap.mem| / H.UNIT
  {
    if FindFile(fs.files, name) < |fs.files| then (fs, -1)
    else
      var (heap, node) := H.Alloc(v, fs.heap, NODE_SIZE);
      if node.None? then (fs.(heap := heap), -1)
      else (fs.(heap := heap, files := [File(name, 0, [], 0, node.value, None)] + fs.files), 0)
  }

  function Write(v: Variant, fs: Fs, blockSize: nat, name: string, data: seq<byte>, len: uint32): (Fs, int)
    requires 0 < blockSize && |fs.heap.used| == |fs.heap.mem| / H.UNIT
  {
    var i := FindFile(fs.files, name);
    if i == |fs.files| then (fs, -1)
    else
      var f := fs.files[i];
      var needed := Needed(len, blockSize);
      var (heap, table) := H.Alloc(v, fs.heap, 4 * needed % TWO32);
      if table.None? then
        (fs.(heap := heap, files := fs.files[i := f.(blocks := [], table := None)]), -1)
      else
        var w := Fill(fs.map', fs.disk, blockSize, data, needed);
        var g := f.(blocks := w.blocks, count := needed, table := table);
        var done := |w.blocks| == needed;
        (Fs(fs.files[i := if done then g.(size := len) else g], w.map', w.disk, heap), if done then 0 else -1)
  }

  /** The bytes the call lays at the start of the caller's buffer. */
  function Read(fs: Fs, name: string): (int, seq<byte>)
    requires forall i :: 0 <= i < |fs.files| ==> InDisk(fs.disk, fs.files[i].blocks)
  {
    var i := FindFile(fs.files, name);
    if i == |fs.files| then (-1, []) else (0, Contents(fs.disk, fs.files[i].blocks))
  }

  function Remove(fs: Fs, name: string): (Fs, int) {
    var i := FindFile(fs.files, name);
    if i == |fs.files| then (fs, -1)
    else
      var f := fs.files[i];
      var heap := H.Free(H.Free(fs.heap, f.table), Some(f.node));
      (Fs(Without(fs.files, i), ClearAll(fs.map', f.blocks), fs.disk, heap), 0)
  }

  /** The heap side of `ramfs_mount`; a refused block map leaves the context allocated. */
  function MountHeap(v: Variant, h: H.Heap, total: uint32): (H.Heap, Option<(nat, nat)>)
    requires |h.used| == |h.mem| / H.UNIT
  {
    var (h1, ctx) := H.Alloc(v, h, CTX_SIZE);
    if ctx.None? then (h1, None)
    else
      var (h2, room) := H.Alloc(v, h1, total);
      if room.None? then (h2, None) else (h2, Some((ctx.value, room.value)))
  }

  /** The file system right after a successful mount. */
  function Mounted(disk: Disk, heap: H.Heap): Fs {
    Fs([], seq(|disk|, i => 0), disk, heap)
  }
}

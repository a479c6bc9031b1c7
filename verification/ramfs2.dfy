/** kernel/fs/ramfs2/ramfs2.c: the context, its file list and its block map, changed in place. */
module Ramfs2 {
  import opened Words
  import opened Search
  import opened DiskModel
  import opened MemAlloc
  import opened RamDisk
  import opened FileList
  import opened Ramfs2Model
  import opened Ramfs2Refinement
  import opened Ramfs2Runs
  import H = HeapModel

  /** The descriptor held by a list node, apart from its name. */
  datatype Info = Info(size: nat, blocks: seq<nat>, count: nat, node: nat, table: Option<nat>)

  function FileOf(e: (string, Info)): File {
    File(e.0, e.1.size, e.1.blocks, e.1.count, e.1.node, e.1.table)
  }

  function FilesOf(entries: seq<(string, Info)>): (r: seq<File>)
    ensures |r| == |entries| && forall i :: 0 <= i < |entries| ==> r[i] == FileOf(entries[i])
  {
    seq(|entries|, i requires 0 <= i < |entries| => FileOf(entries[i]))
  }

  lemma FindAgrees(entries: seq<(string, Info)>, name: string)
    ensures FindFile(FilesOf(entries), name) == FindName(entries, name)
  {
    FindFileIs(FilesOf(entries), name, FindName(entries, name));
  }

  class RamFs2 {
    const heap: MemHeap
    const disk: RamDisk
    const list: List<Info>
    const blockMap: array<byte>

    ghost predicate Valid()
      reads this, list, list.nodes, blockMap, disk, disk.buffer, heap, heap.heap, heap.bitmap
    {
      Shape() && WellFormed(State(), disk.blockSize)
    }

    ghost predicate Shape()
      reads this, list, list.nodes, blockMap, disk, disk.buffer, heap, heap.heap, heap.bitmap
    {
      && disk.Valid() && heap.Valid() && list.Valid()
      && blockMap != heap.heap && disk.buffer != heap.heap && blockMap != disk.buffer
      && blockMap.Length == disk.blockCount
    }

    ghost function State(): Fs
      requires disk.Valid() && heap.Valid()
      reads this, list, list.nodes, blockMap, disk, disk.buffer, heap, heap.heap, heap.bitmap
    {
      Fs(FilesOf(list.Entries()), blockMap[..], disk.State(), heap.State())
    }

    /** The context of a successful mount: `blockMap` has been granted and cleared. */
    constructor (heap: MemHeap, disk: RamDisk)
      requires disk.Valid() && heap.Valid() && disk.buffer != heap.heap
      ensures Valid() && this.heap == heap && this.disk == disk && fresh(list) && fresh(blockMap)
      ensures State() == Mounted(disk.State(), heap.State())
    {
      this.heap, this.disk := heap, disk;
      list := new List<Info>();
      blockMap := new byte[disk.blockCount];
      new;
      for i := 0 to blockMap.Length
        invariant forall k :: 0 <= k < i ==> blockMap[k] == 0
        invariant list.Valid() && list.nodes == []
      {
        blockMap[i] := 0;
      }
      assert blockMap[..] == seq(|disk.State()|, i => 0);
    }

    method Create(name: string) returns (code: int)
      requires Valid() && |name| <= NAME_MAX
      modifies list, heap.heap, heap.bitmap
      ensures Valid()
      ensures (State(), code) == Ramfs2Model.Create(heap.search, old(State()), name)
    {
      CreateAddressed(heap.search, State(), disk.blockSize, name);
      hide WellFormed, H.Alloc, FindFile;
      hide MemHeap.State, MemHeap.Valid, RamDisk.State, RamDisk.Valid, List.Valid, List.Entries, FilesOf;
      var found, i := list.Find(name);
      FindAgrees(list.Entries(), name);
      if found != null {
        return -1;
      }
      code := AddFile(name);
    }

    /** A node for a name that is not there yet, if the heap grants it. */
    method AddFile(name: string) returns (code: int)
      requires Shape() && FindFile(State().files, name) == |State().files|
      modifies list, heap.heap, heap.bitmap
      ensures Shape()
      ensures (State(), code) == Ramfs2Model.Create(heap.search, old(State()), name)
    {
      hide H.Alloc, FindFile;
      hide MemHeap.State, MemHeap.Valid, RamDisk.State, RamDisk.Valid, List.Valid, List.Entries, FilesOf;
      var address := heap.MemAlloc(NODE_SIZE);
      if address.None? {
        return -1;
      }
      AddNode(name, address.value);
      return 0;
    }

    method AddNode(name: string, address: nat)
      requires Shape()
      modifies list
      ensures Shape()
      ensures State() == old(State()).(files := [File(name, 0, [], 0, address, None)] + old(State()).files)
    {
      hide MemHeap.State, MemHeap.Valid, RamDisk.State, RamDisk.Valid, List.Valid, List.Entries;
      ghost var files := FilesOf(list.Entries());
      var node := new Node<Info>(name, Info(0, [], 0, address, None));
      list.Prepend(node);
      assert FilesOf(list.Entries()) == [File(name, 0, [], 0, address, None)] + files;
    }

    /** `alloc_block`. */
    method AllocBlock() returns (block: int)
      modifies blockMap
      ensures var b := IndexOf(old(blockMap[..]), 0, 0);
        && block == (if b == blockMap.Length then -1 else b)
        && blockMap[..] == (if b == blockMap.Length then old(blockMap[..]) else old(blockMap[..])[b := 1])
    {
      for i := 0 to blockMap.Length
        invariant IndexOf(blockMap[..], 0, 0) == IndexOf(blockMap[..], 0, i)
        invariant blockMap[..] == old(blockMap[..])
      {
        if blockMap[i] == 0 {
          blockMap[i] := 1;
          return i;
        }
      }
      return -1;
    }

    /** The device, the block map and the node's table hold what `w` says. */
    ghost predicate Holds(node: Node<Info>, info: Info, w: Filling)
      requires disk.Valid()
      reads this, node, blockMap, disk, disk.buffer
    {
      && blockMap[..] == w.map' && disk.State() == w.disk
      && node.data == info.(blocks := w.blocks)
    }

    /** What one round makes of the block map, the device and the table. */
    ghost function Round(w: Filling, chunk: seq<byte>): Filling {
      var b := IndexOf(w.map', 0, 0);
      if b == |w.map'| then w else Filling(w.map'[b := 1], WriteBlock(w.disk, b, chunk), w.blocks + [b])
    }

    lemma FillNext(start: Filling, blockSize: nat, data: seq<byte>, i: nat)
      requires |Fill(start.map', start.disk, blockSize, data, i).blocks| == i
      ensures Fill(start.map', start.disk, blockSize, data, i + 1)
           == Round(Fill(start.map', start.disk, blockSize, data, i), Chunk(data, blockSize, i))
    {
      hide IndexOf, WriteBlock, Chunk;
    }

    /** A block number goes into the table, and the bytes from `at` on to the device. */
    method FillOne(node: Node<Info>, data: seq<byte>, at: nat, ghost w: Filling, ghost info: Info) returns (found: bool)
      requires disk.Valid() && blockMap != disk.buffer && at + disk.blockSize <= |data|
      requires Holds(node, info, w)
      modifies node`data, blockMap, disk.buffer
      ensures Holds(node, info, Round(w, data[at..at + disk.blockSize]))
      ensures |Round(w, data[at..at + disk.blockSize]).blocks| == if found then |w.blocks| + 1 else |w.blocks|
    {
      hide RamDisk.State, RamDisk.Valid, WriteBlock, IndexOf;
      var block := AllocBlock();
      if block < 0 {
        return false;
      }
      node.data := node.data.(blocks := node.data.blocks + [block]);
      var _ := disk.Write(block, data, at, disk.blockSize);
      return true;
    }

    /** The loop of `ramfs_write`, left at the first round that finds no free block. */
    method FillBlocks(node: Node<Info>, data: seq<byte>, needed: nat) returns (done: bool)
      requires disk.Valid() && blockMap != disk.buffer
      requires node.data.blocks == [] && needed * disk.blockSize <= |data|
      modifies node`data, blockMap, disk.buffer
      ensures var w := Fill(old(blockMap[..]), old(disk.State()), disk.blockSize, data, needed);
        Holds(node, old(node.data), w) && (done <==> |w.blocks| == needed)
    {
      hide RamDisk.State, RamDisk.Valid, IndexOf, WriteBlock;
      ghost var start := Filling(blockMap[..], disk.State(), []);
      ghost var info := node.data;
      for i := 0 to needed
        invariant Holds(node, info, Fill(start.map', start.disk, disk.blockSize, data, i))
        invariant |Fill(start.map', start.disk, disk.blockSize, data, i).blocks| == i
      {
        FillNext(start, disk.blockSize, data, i);
        ChunkLength(data, disk.blockSize, needed, i);
        var found := FillOne(node, data, i * disk.blockSize, Fill(start.map', start.disk, disk.blockSize, data, i), info);
        if !found {
          FillStuck(start.map', start.disk, disk.blockSize, data, i + 1, needed);
          return false;
        }
      }
      return true;
    }

    /** `data` is the memory from the caller's pointer on, of which the caller owns the first `len` bytes. */
    method Write(name: string, data: seq<byte>, len: uint32) returns (code: int)
      requires Valid() && |name| <= NAME_MAX && Needed(len, disk.blockSize) * disk.blockSize <= |data|
      modifies list.nodes, blockMap, disk.buffer, heap.heap, heap.bitmap
      ensures Valid()
      ensures (State(), code) == Ramfs2Model.Write(heap.search, old(State()), disk.blockSize, name, data, len)
    {
      WriteAddressed(heap.search, State(), disk.blockSize, name, data, len);
      var node, i := list.Find(name);
      FindAgrees(list.Entries(), name);
      if node == null {
        return -1;
      }
      code := WriteFound(node, i, name, data, len);
    }

    method WriteFound(node: Node<Info>, ghost i: nat, name: string, data: seq<byte>, len: uint32) returns (code: int)
      requires Shape() && i < |list.nodes| && node == list.nodes[i] && FindFile(State().files, name) == i
      requires Needed(len, disk.blockSize) * disk.blockSize <= |data|
      modifies node, blockMap, disk.buffer, heap.heap, heap.bitmap
      ensures Shape()
      ensures (State(), code) == Ramfs2Model.Write(heap.search, old(State()), disk.blockSize, name, data, len)
    {
      hide MemHeap.State, RamDisk.State, H.Alloc, Fill, Needed, Ramfs2Model.Write, FindFile;
      ghost var before, entries := State(), list.Entries();
      code := WriteNode(node, data, len);
      assert list.Valid() && list.Entries() == entries[i := (node.name, node.data)];
      hide MemHeap.Valid, RamDisk.Valid, List.Valid, List.Entries;
      assert FilesOf(list.Entries()) == before.files[i := FileOf((node.name, node.data))];
      FindAgrees(entries, name);
      hide FilesOf;
      WriteByCases(heap.search, before, disk.blockSize, name, data, len, node.data, State(), code);
    }

    /** The model's `Write`, told by what becomes of the one descriptor that changes. */
    lemma WriteByCases(v: Variant, fs: Fs, blockSize: nat, name: string, data: seq<byte>, len: uint32,
                       now: Info, fs': Fs, code: int)
      requires 0 < blockSize && H.WellFormed(fs.heap) && FindFile(fs.files, name) < |fs.files|
      requires var i := FindFile(fs.files, name);
        fs'.files == fs.files[i := File(fs.files[i].name, now.size, now.blocks, now.count, now.node, now.table)]
      requires Written(v, fs, blockSize, data, len, InfoOf(fs.files[FindFile(fs.files, name)]), now,
                       fs'.heap, fs'.disk, fs'.map', code)
      ensures (fs', code) == Ramfs2Model.Write(v, fs, blockSize, name, data, len)
    {
    }

    function InfoOf(f: File): Info {
      Info(f.size, f.blocks, f.count, f.node, f.table)
    }

    ghost predicate Written(v: Variant, fs: Fs, blockSize: nat, data: seq<byte>, len: uint32, was: Info, now: Info,
                            h: H.Heap, d: Disk, map': seq<byte>, code: int)
      requires 0 < blockSize && H.WellFormed(fs.heap)
    {
      var needed := Needed(len, blockSize);
      var (h', table) := H.Alloc(v, fs.heap, 4 * needed % TWO32);
      var w := Fill(fs.map', fs.disk, blockSize, data, needed);
      && h == h'
      && if table.None? then
           code == -1 && d == fs.disk && map' == fs.map' && now == was.(blocks := [], table := None)
         else
           && code == (if |w.blocks| == needed then 0 else -1)
           && d == w.disk && map' == w.map'
           && now == was.(blocks := w.blocks, count := needed, table := table,
                          size := if |w.blocks| == needed then len else was.size)
    }

    method WriteNode(node: Node<Info>, data: seq<byte>, len: uint32) returns (code: int)
      requires disk.Valid() && heap.Valid()
      requires blockMap != heap.heap && disk.buffer != heap.heap && blockMap != disk.buffer
      requires Needed(len, disk.blockSize) * disk.blockSize <= |data|
      modifies node`data, blockMap, disk.buffer, heap.heap, heap.bitmap
      ensures heap.Valid()
      ensures Written(heap.search, Fs([], old(blockMap[..]), old(disk.State()), old(heap.State())), disk.blockSize,
                      data, len, old(node.data), node.data, heap.State(), disk.State(), blockMap[..], code)
    {
      assert 0 < disk.blockSize;
      hide H.Alloc, Fill, Needed;
      hide MemHeap.State, MemHeap.Valid, RamDisk.State, RamDisk.Valid;
      var needed := Needed(len, disk.blockSize);
      var table := heap.MemAlloc(4 * needed % TWO32);
      node.data := node.data.(blocks := [], table := table);
      if table.None? {
        return -1;
      }
      node.data := node.data.(count := needed);
      var done := FillBlocks(node, data, needed);
      if !done {
        return -1;
      }
      node.data := node.data.(size := len);
      return 0;
    }

    /** `data` is the memory from the caller's pointer on, of which the caller owns the first `len` bytes. */
    method Read(name: string, data: array<byte>, len: nat) returns (code: int)
      requires Valid() && |name| <= NAME_MAX
      requires data != blockMap && data != disk.buffer && data != heap.heap
      requires var i := FindFile(State().files, name);
        i < |State().files| ==>
          && State().files[i].Intact()
          && InDisk(State().disk, State().files[i].blocks)
          && |Contents(State().disk, State().files[i].blocks)| <= data.Length
      modifies data
      ensures Valid() && State() == old(State())
      ensures var (c, out) := Ramfs2Model.Read(old(State()), name);
        code == c && |out| <= data.Length && data[..] == Splice(old(data[..]), 0, out)
    {
      var node, i := list.Find(name);
      FindAgrees(list.Entries(), name);
      hide FindFile, List.Valid, List.Entries, WellFormed;
      hide MemHeap.State, MemHeap.Valid, RamDisk.State;
      if node == null {
        assert data[..] == Splice(old(data[..]), 0, []);
        return -1;
      }
      assert State().files[i] == FileOf((node.name, node.data));
      ReadBlocks(node.data.blocks, node.data.count, data);
      return 0;
    }

    /** The first `i` blocks of the file lie at the start of the buffer, whose rest is as it was. */
    ghost predicate Delivered(d: Disk, blocks: seq<nat>, i: nat, was: seq<byte>, now: seq<byte>)
      requires i <= |blocks| && InDisk(d, blocks)
    {
      |Contents(d, blocks[..i])| <= |was| && now == Splice(was, 0, Contents(d, blocks[..i]))
    }

    method ReadBlocks(blocks: seq<nat>, count: nat, data: array<byte>)
      requires disk.Valid() && data != disk.buffer && |blocks| == count && InDisk(disk.State(), blocks)
      requires |Contents(disk.State(), blocks)| <= data.Length
      modifies data
      ensures data[..] == Splice(old(data[..]), 0, Contents(disk.State(), blocks))
    {
      assert blocks[..count] == blocks;
      for i := 0 to count
        invariant Delivered(disk.State(), blocks, i, old(data[..]), data[..])
      {
        ReadOne(blocks, i, data, old(data[..]));
      }
    }

    method ReadOne(blocks: seq<nat>, i: nat, data: array<byte>, ghost was: seq<byte>)
      requires disk.Valid() && data != disk.buffer && i < |blocks| && InDisk(disk.State(), blocks)
      requires |Contents(disk.State(), blocks)| <= data.Length == |was|
      requires Delivered(disk.State(), blocks, i, was, data[..])
      modifies data
      ensures Delivered(disk.State(), blocks, i + 1, was, data[..])
    {
      ghost var d := disk.State();
      ContentsLength(d, disk.blockSize, blocks);
      ContentsUpTo(d, disk.blockSize, blocks, i);
      hide RamDisk.State, RamDisk.Valid, Contents;
      var _ := disk.Read(blocks[i], data, i * disk.blockSize, disk.blockSize);
      assert d[blocks[i]][..disk.blockSize] == d[blocks[i]];
      SpliceMore(was, Contents(d, blocks[..i]), d[blocks[i]]);
    }

    lemma SpliceMore(was: seq<byte>, front: seq<byte>, more: seq<byte>)
      requires |front| + |more| <= |was|
      ensures Splice(Splice(was, 0, front), |front|, more) == Splice(was, 0, front + more)
    {
    }

    lemma ContentsUpTo(d: Disk, size: nat, blocks: seq<nat>, i: nat)
      requires i < |blocks| && InDisk(d, blocks) && DiskModel.Sized(d, size)
      ensures Contents(d, blocks[..i + 1]) == Contents(d, blocks[..i]) + d[blocks[i]]
      ensures |Contents(d, blocks[..i + 1])| == (i + 1) * size == i * size + size <= |blocks| * size
    {
      assert blocks[..i + 1][..i] == blocks[..i];
      ContentsLength(d, size, blocks[..i + 1]);
      MulOrder(i, |blocks|, size);
      MulOrder(i + 1, |blocks|, size);
      assert (i + 1) * size == i * size + size;
    }

    method Remove(name: string) returns (code: int)
      requires Valid() && |name| <= NAME_MAX
      requires var i := FindFile(State().files, name);
        i < |State().files| ==> State().files[i].Intact()
      modifies list, list.nodes, blockMap, heap.heap, heap.bitmap
      ensures Valid()
      ensures (State(), code) == Ramfs2Model.Remove(old(State()), name)
    {
      RemoveAddressed(State(), disk.blockSize, name);
      code := UnlinkAndRelease(name);
    }

    method UnlinkAndRelease(name: string) returns (code: int)
      requires Valid()
      requires var i := FindFile(State().files, name);
        i < |State().files| ==> State().files[i].Intact()
      modifies list, list.nodes, blockMap, heap.heap, heap.bitmap
      ensures Shape()
      ensures (State(), code) == Ramfs2Model.Remove(old(State()), name)
    {
      ghost var before := State();
      var node, i := Unlink(name);
      hide MemHeap.State, MemHeap.Valid, RamDisk.State, RamDisk.Valid, List.Valid, List.Entries, FilesOf;
      hide H.Free, FindFile, ClearAll, Without, WellFormed;
      if node == null {
        return -1;
      }
      ReleaseFile(node.data, before, i);
      return 0;
    }

    method Unlink(name: string) returns (node: Node?<Info>, ghost i: nat)
      requires Shape()
      modifies list, list.nodes
      ensures Shape()
      ensures i == FindFile(old(State()).files, name)
      ensures node == null <==> i == |old(State()).files|
      ensures node != null ==> FileOf((node.name, node.data)) == old(State()).files[i]
      ensures State() == old(State()).(files :=
        if i < |old(State()).files| then Without(old(State()).files, i) else old(State()).files)
    {
      hide MemHeap.State, MemHeap.Valid, RamDisk.State, RamDisk.Valid, List.Valid, List.Entries;
      ghost var entries := list.Entries();
      FindAgrees(entries, name);
      node, i := list.Remove(name);
      assert FilesOf(list.Entries()) == if i < |entries| then Without(FilesOf(entries), i) else FilesOf(entries);
    }

    /** The blocks of an unlinked file are marked free, then its table and its node go back to the heap. */
    method ReleaseFile(info: Info, ghost before: Fs, ghost i: nat)
      requires heap.Valid() && blockMap != heap.heap && blockMap.Length == disk.blockCount
      requires WellFormed(before, disk.blockSize) && before.heap == heap.State() && |before.map'| == blockMap.Length
      requires i < |before.files| && before.files[i].blocks == info.blocks && before.files[i].count == info.count
      requires before.files[i].node == info.node && before.files[i].table == info.table
      requires |info.blocks| == info.count
      modifies blockMap, heap.heap, heap.bitmap
      ensures heap.Valid()
      ensures blockMap[..] == ClearAll(old(blockMap[..]), info.blocks)
      ensures heap.State() == H.Free(H.Free(before.heap, info.table), Some(info.node))
    {
      assert Addressed(before.heap, before.files[i]) && InDisk(before.disk, info.blocks);
      for k := 0 to info.count
        invariant blockMap[..] == ClearAll(old(blockMap[..]), info.blocks[..k])
        invariant heap.Valid() && heap.State() == before.heap
      {
        blockMap[info.blocks[k]] := 0;
        assert info.blocks[..k + 1][..k] == info.blocks[..k];
      }
      assert info.blocks[..info.count] == info.blocks;
      ReturnMemory(info.table, info.node);
    }

    method ReturnMemory(table: Option<nat>, node: nat)
      requires heap.Valid() && blockMap != heap.heap
      requires H.Freeable(heap.State(), node) && (table.Some? ==> H.Freeable(heap.State(), table.value))
      modifies heap.heap, heap.bitmap
      ensures heap.Valid()
      ensures heap.State() == H.Free(H.Free(old(heap.State()), table), Some(node))
    {
      H.FreeFreeable(heap.State(), table);
      if table.Some? { H.FreeableBounds(heap.State(), table.value); }
      heap.MemFree(table);
      H.FreeableBounds(heap.State(), node);
      heap.MemFree(Some(node));
    }
  }

  /** `ramfs_mount` on a device whose `get_info` reports its size. */
  method Mount(heap: MemHeap, disk: RamDisk) returns (fs: RamFs2?)
    requires disk.Valid() && heap.Valid() && disk.buffer != heap.heap
    modifies heap.heap, heap.bitmap
    ensures heap.Valid() && disk.State() == old(disk.State())
    ensures var (h, granted) := MountHeap(heap.search, old(heap.State()), disk.blockCount);
      heap.State() == h && (fs == null <==> granted.None?)
    ensures fs != null ==> fresh(fs) && fs.Valid() && fs.State() == Mounted(disk.State(), heap.State())
  {
    var ctx := heap.MemAlloc(CTX_SIZE);
    if ctx.None? {
      return null;
    }
    var room := heap.MemAlloc(disk.blockCount);
    if room.None? {
      return null;
    }
    fs := new RamFs2(heap, disk);
  }
}

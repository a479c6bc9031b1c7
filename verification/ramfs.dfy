/** kernel/fs/ramfs/ramfs.c: the context, its file list and its block counter, changed in place. */
module Ramfs {
  import opened Words
  import opened Search
  import opened DiskModel
  import opened MemAlloc
  import opened RamDisk
  import opened FileList
  import opened RamfsModel
  import H = HeapModel

  class RamFs {
    const heap: MemHeap
    const disk: RamDisk
    const list: List<Info>
    var nextFreeBlock: uint32

    ghost predicate Valid()
      reads this, list, list.nodes, disk, disk.buffer, heap, heap.heap, heap.bitmap
    {
      Shape() && NodesFreeable(State())
    }

    ghost predicate Shape()
      reads this, list, list.nodes, disk, disk.buffer, heap, heap.heap, heap.bitmap
    {
      disk.Valid() && heap.Valid() && list.Valid() && disk.buffer != heap.heap
    }

    ghost function State(): Fs
      requires disk.Valid() && heap.Valid()
      reads this, list, list.nodes, disk, disk.buffer, heap, heap.heap, heap.bitmap
    {
      Fs(list.Entries(), nextFreeBlock, disk.State(), heap.State())
    }

    /** The context of a successful mount. */
    constructor (heap: MemHeap, disk: RamDisk)
      requires disk.Valid() && heap.Valid() && disk.buffer != heap.heap
      ensures Valid() && this.heap == heap && this.disk == disk && fresh(list)
      ensures State() == Fs([], 0, disk.State(), heap.State())
    {
      this.heap, this.disk := heap, disk;
      list := new List<Info>();
      nextFreeBlock := 0;
    }

    /** Nodes are dropped, not returned to the heap. */
    method Format()
      requires Valid()
      modifies this, list
      ensures Valid() && State() == RamfsModel.Format(old(State()))
    {
      list.Clear();
      nextFreeBlock := 0;
    }

    method Create(name: string) returns (code: int)
      requires Valid() && |name| <= NAME_MAX
      modifies list, heap.heap, heap.bitmap
      ensures Valid()
      ensures (State(), code) == RamfsModel.Create(heap.search, old(State()), name)
    {
      CreateFreeable(heap.search, State(), name);
      hide H.Alloc, NodesFreeable, FindName;
      hide MemHeap.State, MemHeap.Valid, RamDisk.State, RamDisk.Valid, List.Valid, List.Entries;
      var found, _ := list.Find(name);
      if found != null {
        return -1;
      }
      code := AddFile(name);
    }

    /** A node for a name that is not there yet, if the heap grants it. */
    method AddFile(name: string) returns (code: int)
      requires Shape() && FindName(State().files, name) == |State().files|
      modifies list, heap.heap, heap.bitmap
      ensures Shape()
      ensures (State(), code) == RamfsModel.Create(heap.search, old(State()), name)
    {
      hide H.Alloc, FindName;
      hide MemHeap.State, MemHeap.Valid, RamDisk.State, RamDisk.Valid, List.Valid, List.Entries;
      var address := heap.MemAlloc(NODE_SIZE);
      if address.None? {
        return -1;
      }
      AddNode(name, address.value);
      return 0;
    }

    method AddNode(name: string, address: nat)
      requires Shape()
      modifies list
      ensures Shape()
      ensures State() == old(State()).(files := [(name, Info(0, nextFreeBlock, address))] + old(State()).files)
    {
      hide MemHeap.State, MemHeap.Valid, RamDisk.State, RamDisk.Valid, List.Valid, List.Entries;
      var node := new Node<Info>(name, Info(0, nextFreeBlock, address));
      list.Prepend(node);
    }

    /** `len` bytes of the caller's buffer; `len` near 2^32 wraps to no block at all, as in the source. */
    method Write(name: string, data: seq<byte>, len: uint32) returns (code: int)
      requires Valid() && |name| <= NAME_MAX && len <= |data|
      modifies this`nextFreeBlock, list.nodes, disk.buffer
      ensures Valid()
      ensures (State(), code) == RamfsModel.Write(old(State()), disk.blockSize, name, data[..len])
    {
      assert 0 < disk.blockSize;
      WriteFreeable(State(), disk.blockSize, name, data[..len]);
      hide NodesFreeable;
      hide MemHeap.State, MemHeap.Valid, RamDisk.State, RamDisk.Valid, List.Valid, List.Entries;
      hide Needed, WriteLoop, Wrap32, FindName;
      var node, i := list.Find(name);
      if node == null {
        return -1;
      }
      WriteFound(name, node, i, data, len);
      return 0;
    }

    method WriteFound(ghost name: string, node: Node<Info>, ghost i: nat, data: seq<byte>, len: uint32)
      requires Shape() && len <= |data|
      requires i == FindName(State().files, name) < |list.nodes| && node == list.nodes[i]
      modifies this`nextFreeBlock, node, disk.buffer
      ensures Shape()
      ensures 0 < disk.blockSize
      ensures (State(), 0) == RamfsModel.Write(old(State()), disk.blockSize, name, data[..len])
    {
      assert 0 < disk.blockSize;
      WriteByFile(State(), disk.blockSize, name, data[..len], i);
      hide MemHeap.State, MemHeap.Valid, RamDisk.State, RamDisk.Valid, List.Valid, List.Entries;
      hide Needed, WriteLoop, Wrap32, FindName, RamfsModel.Write;
      WriteNode(node, i, data, len);
      nextFreeBlock := Wrap32(nextFreeBlock + Needed(len, disk.blockSize));
    }

    lemma WriteByFile(fs: Fs, blockSize: nat, name: string, data: seq<byte>, i: nat)
      requires 0 < blockSize && |data| < TWO32 && i == FindName(fs.files, name) < |fs.files|
      ensures var info := fs.files[i].1;
              var blocks := Needed(|data|, blockSize);
        RamfsModel.Write(fs, blockSize, name, data) ==
        (Fs(fs.files[i := (fs.files[i].0, info.(size := |data|))], Wrap32(fs.next + blocks),
            WriteLoop(fs.disk, blockSize, info.start, data, blocks), fs.heap), 0)
    {
    }

    method WriteNode(node: Node<Info>, ghost i: nat, data: seq<byte>, len: uint32)
      requires Shape() && len <= |data| && i < |list.nodes| && node == list.nodes[i]
      modifies node, disk.buffer
      ensures Shape()
      ensures var before := old(State());
        && 0 < disk.blockSize
        && State() == before.(
             files := before.files[i := (node.name, before.files[i].1.(size := len))],
             disk := WriteLoop(before.disk, disk.blockSize, before.files[i].1.start, data[..len], Needed(len, disk.blockSize)))
        && node.name == old(node.name)
    {
      assert 0 < disk.blockSize;
      hide MemHeap.State, MemHeap.Valid, RamDisk.State, RamDisk.Valid, List.Valid, List.Entries;
      hide Needed, WriteLoop;
      WriteBlocks(node.data.start, data, len, Needed(len, disk.blockSize));
      list.SetData(node, i, node.data.(size := len));
    }

    lemma WriteLoopNext(d: Disk, blockSize: nat, start: nat, data: seq<byte>, i: nat)
      ensures WriteLoop(d, blockSize, start, data, i + 1) ==
        WriteBlock(WriteLoop(d, blockSize, start, data, i), Wrap32(start + i), Piece(data, blockSize, Times(i, blockSize)))
    {
      hide WriteBlock, Piece, Times, Wrap32;
    }

    method WriteBlocks(start: nat, data: seq<byte>, len: uint32, blocks: nat)
      requires disk.Valid() && len <= |data| && blocks == Needed(len, disk.blockSize)
      modifies disk.buffer
      ensures disk.State() == WriteLoop(old(disk.State()), disk.blockSize, start, data[..len], blocks)
    {
      var size := disk.blockSize;
      assert 0 < size;
      ghost var before, bytes := disk.State(), data[..len];
      hide RamDisk.State, RamDisk.Valid, WriteBlock, Needed, Times, Wrap32;
      for i := 0 to blocks
        invariant disk.State() == WriteLoop(before, size, start, bytes, i)
      {
        RoundBegins(len, size, i);
        WriteLoopNext(before, size, start, bytes, i);
        hide WriteLoop;
        WriteOne(Wrap32(start + i), data, len, Times(i, size));
      }
    }

    method WriteOne(block: nat, data: seq<byte>, len: uint32, offset: nat)
      requires disk.Valid() && offset < len <= |data|
      modifies disk.buffer
      ensures disk.State() == WriteBlock(old(disk.State()), block, Piece(data[..len], disk.blockSize, offset))
    {
      var remaining := len - offset;
      var writeSize := if remaining < disk.blockSize then remaining else disk.blockSize;
      assert data[offset..offset + writeSize] == Piece(data[..len], disk.blockSize, offset);
      var _ := disk.Write(block, data, offset, writeSize);
    }

    method Read(name: string, data: array<byte>, len: uint32) returns (code: int)
      requires Valid() && |name| <= NAME_MAX && len <= data.Length
      requires data != disk.buffer && data != heap.heap
      modifies data
      ensures Valid() && State() == old(State())
      ensures (code, data[..]) == RamfsModel.Read(old(State()), disk.blockSize, name, len, old(data[..]))
    {
      assert 0 < disk.blockSize;
      hide MemHeap.State, MemHeap.Valid, RamDisk.State, RamDisk.Valid, List.Valid, List.Entries;
      hide Needed, ReadLoop, FindName;
      var node, i := list.Find(name);
      if node == null {
        return -1;
      }
      var toRead := if len < node.data.size then len else node.data.size;
      ReadBlocks(node.data.start, toRead, Needed(toRead, disk.blockSize), data);
      return 0;
    }

    method ReadBlocks(start: nat, toRead: uint32, blocks: nat, data: array<byte>)
      requires disk.Valid() && data != disk.buffer && toRead <= data.Length
      requires blocks == Needed(toRead, disk.blockSize)
      modifies data
      ensures data[..] == ReadLoop(disk.State(), disk.blockSize, start, toRead, blocks, old(data[..]))
    {
      var size := disk.blockSize;
      assert 0 < size;
      hide RamDisk.State, RamDisk.Valid, ReadRound, Needed, Times, Wrap32;
      for i := 0 to blocks
        invariant data[..] == ReadLoop(disk.State(), size, start, toRead, i, old(data[..]))
      {
        RoundBegins(toRead, size, i);
        ReadOne(Wrap32(start + i), toRead, Times(i, size), data);
      }
    }

    method ReadOne(block: nat, toRead: nat, offset: nat, data: array<byte>)
      requires disk.Valid() && data != disk.buffer && offset < toRead <= data.Length
      modifies data
      ensures data[..] == ReadRound(disk.State(), disk.blockSize, block, toRead, offset, old(data[..]))
    {
      var remaining := toRead - offset;
      var readSize := if remaining < disk.blockSize then remaining else disk.blockSize;
      var _ := disk.Read(block, data, offset, readSize);
    }

    method Remove(name: string) returns (code: int)
      requires Valid() && |name| <= NAME_MAX
      modifies list, list.nodes, heap.heap, heap.bitmap
      ensures Valid()
      ensures (State(), code) == RamfsModel.Remove(old(State()), name)
    {
      RemoveFreeable(State(), name);
      hide NodesFreeable, H.Free, FindName, RamfsModel.Remove;
      code := RemoveFile(name);
    }

    method RemoveFile(name: string) returns (code: int)
      requires Shape()
      requires var i := FindName(State().files, name);
        i < |State().files| ==> H.Returnable(State().heap, State().files[i].1.node)
      modifies list, list.nodes, heap.heap, heap.bitmap
      ensures Shape()
      ensures (State(), code) == RamfsModel.Remove(old(State()), name)
    {
      hide H.Free, FindName;
      hide MemHeap.State, MemHeap.Valid, RamDisk.State, RamDisk.Valid, List.Valid, List.Entries;
      ghost var before := State();
      var node, i := list.Remove(name);
      assert State() == before.(files := if i < |before.files| then Without(before.files, i) else before.files);
      hide Without;
      if node == null {
        return -1;
      }
      heap.MemFree(Some(node.data.node));
      return 0;
    }

    method Rename(oldName: string, newName: string) returns (code: int)
      requires Valid() && |oldName| <= NAME_MAX && |newName| <= NAME_MAX
      modifies list.nodes
      ensures Valid()
      ensures (State(), code) == RamfsModel.Rename(old(State()), oldName, newName)
    {
      hide MemHeap.State, MemHeap.Valid, RamDisk.State, RamDisk.Valid, List.Valid, List.Entries;
      var node, i := list.Find(oldName);
      if node == null {
        return -1;
      }
      list.SetName(node, i, newName);
      return 0;
    }
  }

  /** Every node's address can be given back to the heap. */
  ghost predicate NodesFreeable(fs: Fs) {
    && H.WellFormed(fs.heap)
    && forall i :: 0 <= i < |fs.files| ==> H.Freeable(fs.heap, fs.files[i].1.node)
  }

  lemma CreateFreeable(v: Variant, fs: Fs, name: string)
    requires NodesFreeable(fs)
    ensures NodesFreeable(RamfsModel.Create(v, fs, name).0)
  {
    H.AllocFreeable(v, fs.heap, NODE_SIZE);
    hide H.Alloc, H.Freeable;
  }

  lemma WriteFreeable(fs: Fs, blockSize: nat, name: string, data: seq<byte>)
    requires NodesFreeable(fs) && 0 < blockSize && |data| < TWO32
    ensures NodesFreeable(RamfsModel.Write(fs, blockSize, name, data).0)
  {
    hide H.Freeable, WriteLoop, Needed;
  }

  /** The node to be removed can be freed, and the others can still be freed after it. */
  lemma RemoveFreeable(fs: Fs, name: string)
    requires NodesFreeable(fs)
    ensures NodesFreeable(RamfsModel.Remove(fs, name).0)
    ensures var i := FindName(fs.files, name);
      i < |fs.files| ==> H.Returnable(fs.heap, fs.files[i].1.node)
  {
    var i := FindName(fs.files, name);
    if i < |fs.files| {
      H.FreeableBounds(fs.heap, fs.files[i].1.node);
      H.FreeFreeable(fs.heap, Some(fs.files[i].1.node));
      hide H.Free, H.Freeable;
    }
  }
}

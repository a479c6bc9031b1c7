/** drivers/storage/ram/storage_ram.c: a block device over one byte buffer. */
module DiskModel {
  import opened Words

  /** The contents of each block. */
  type Disk = seq<seq<byte>>

  ghost predicate Sized(d: Disk, blockSize: nat) {
    forall k :: 0 <= k < |d| ==> |d[k]| == blockSize
  }

  /** Blocks for `len` bytes; the rounding addition wraps as `uint32_t` does. */
  function Needed(len: uint32, blockSize: nat): nat
    requires 0 < blockSize
  {
    (len + blockSize - 1) % TWO32 / blockSize
  }

  /** No bytes need no blocks. */
  lemma NothingNeeded(blockSize: nat)
    requires 0 < blockSize
    ensures Needed(0, blockSize) == 0
  {
    assert (blockSize - 1) % TWO32 <= blockSize - 1;
  }

  /** `ram_write`: a block out of range or too many bytes leave the device alone. */
  function WriteBlock(d: Disk, block: nat, bytes: seq<byte>): (r: Disk)
    ensures |r| == |d|
    ensures forall k :: 0 <= k < |d| ==> |r[k]| == |d[k]| && (k != block ==> r[k] == d[k])
  {
    if block < |d| && |bytes| <= |d[block]| then d[block := bytes + d[block][|bytes|..]] else d
  }

  /** `bytes` laid over `buffer` from `at` on. */
  function Splice(buffer: seq<byte>, at: nat, bytes: seq<byte>): (r: seq<byte>)
    requires at + |bytes| <= |buffer|
    ensures |r| == |buffer|
    ensures forall i :: 0 <= i < |buffer| ==> r[i] == if at <= i < at + |bytes| then bytes[i - at] else buffer[i]
  {
    buffer[..at] + bytes + buffer[at + |bytes|..]
  }

  function Block(buffer: seq<byte>, blockSize: nat, count: nat, k: nat): (r: seq<byte>)
    requires |buffer| == count * blockSize && k < count
    ensures |r| == blockSize
  {
    MulOrder(k, count, blockSize);
    buffer[k * blockSize..k * blockSize + blockSize]
  }

  function Blocks(buffer: seq<byte>, blockSize: nat, count: nat): (r: Disk)
    requires |buffer| == count * blockSize
    ensures |r| == count && Sized(r, blockSize)
  {
    seq(count, k requires 0 <= k < count => Block(buffer, blockSize, count, k))
  }

  /** Bytes laid inside one block of the buffer change that block and no other. */
  lemma SpliceIsWriteBlock(buffer: seq<byte>, blockSize: nat, count: nat, k: nat, bytes: seq<byte>)
    requires |buffer| == count * blockSize && k < count && |bytes| <= blockSize
    requires k * blockSize + |bytes| <= |buffer|
    ensures Blocks(Splice(buffer, k * blockSize, bytes), blockSize, count)
         == WriteBlock(Blocks(buffer, blockSize, count), k, bytes)
  {
    var after := Splice(buffer, k * blockSize, bytes);
    forall j | 0 <= j < count
      ensures Block(after, blockSize, count, j) == WriteBlock(Blocks(buffer, blockSize, count), k, bytes)[j]
    {
      SpliceOneBlock(buffer, blockSize, count, k, bytes, j);
    }
  }

  lemma SpliceOneBlock(buffer: seq<byte>, blockSize: nat, count: nat, k: nat, bytes: seq<byte>, j: nat)
    requires |buffer| == count * blockSize && k < count && |bytes| <= blockSize && j < count
    requires k * blockSize + |bytes| <= |buffer|
    ensures var before := Block(buffer, blockSize, count, j);
            Block(Splice(buffer, k * blockSize, bytes), blockSize, count, j)
            == if j == k then bytes + before[|bytes|..] else before
  {
    MulOrder(j, count, blockSize);
    if j < k { MulOrder(j, k, blockSize); }
    if k < j { MulOrder(k, j, blockSize); }
  }
}

module RamDisk {
  import opened Words
  import opened DiskModel
  import opened Search
  import opened HeapModel
  import opened MemAlloc
  import opened HeapClients

  const SIZEOF_CTX: uint32 := 4

  class RamDisk {
    const blockSize: nat
    const blockCount: nat
    const buffer: array<byte>
    const ctxAddress: nat
    const bufferAddress: nat

    ghost predicate Valid()
      reads this
    {
      0 < blockSize && blockCount < TWO32 && buffer.Length == blockCount * blockSize
    }

    ghost function State(): (d: Disk)
      requires Valid()
      reads this, buffer
      ensures |d| == blockCount && DiskModel.Sized(d, blockSize)
    {
      Blocks(buffer[..], blockSize, blockCount)
    }

    /** The device once its context and buffer have been granted; the buffer is filled with 0xfd. */
    constructor (blockSize: nat, blockCount: nat, ctxAddress: nat, bufferAddress: nat)
      requires 0 < blockSize && blockCount < TWO32
      ensures Valid() && fresh(buffer)
      ensures this.blockSize == blockSize && this.blockCount == blockCount
      ensures this.ctxAddress == ctxAddress && this.bufferAddress == bufferAddress
      ensures forall i :: 0 <= i < buffer.Length ==> buffer[i] == 0xfd
    {
      this.blockSize, this.blockCount := blockSize, blockCount;
      this.ctxAddress, this.bufferAddress := ctxAddress, bufferAddress;
      buffer := new byte[blockCount * blockSize];
      new;
      for i := 0 to buffer.Length
        invariant forall k :: 0 <= k < i ==> buffer[k] == 0xfd
      {
        buffer[i] := 0xfd;
      }
    }

    /** `ram_write` of `data[at..at + len]`. */
    method Write(block: nat, data: seq<byte>, at: nat, len: nat) returns (code: int)
      requires Valid() && at + len <= |data|
      modifies buffer
      ensures State() == WriteBlock(old(State()), block, data[at..at + len])
      ensures code == if block < blockCount && len <= blockSize then 0 else -1
    {
      if block >= blockCount || len > blockSize {
        return -1;
      }
      MulOrder(block, blockCount, blockSize);
      SpliceIsWriteBlock(buffer[..], blockSize, blockCount, block, data[at..at + len]);
      CopyIn(block * blockSize, data, at, len);
      return 0;
    }

    method CopyIn(dst: nat, data: seq<byte>, at: nat, len: nat)
      requires at + len <= |data| && dst + len <= buffer.Length
      modifies buffer
      ensures buffer[..] == Splice(old(buffer[..]), dst, data[at..at + len])
    {
      ghost var bytes := data[at..at + len];
      for i := 0 to len
        invariant buffer[..] == Splice(old(buffer[..]), dst, bytes[..i])
      {
        buffer[dst + i] := data[at + i];
        assert bytes[..i + 1] == bytes[..i] + [bytes[i]];
      }
      assert bytes[..len] == bytes;
    }

    /** `ram_read` of `len` bytes into `data` from `at` on. */
    method Read(block: nat, data: array<byte>, at: nat, len: nat) returns (code: int)
      requires Valid() && data != buffer && at + len <= data.Length
      modifies data
      ensures code == if block < blockCount && len <= blockSize then 0 else -1
      ensures data[..] == if code == 0 then Splice(old(data[..]), at, State()[block][..len]) else old(data[..])
    {
      if block >= blockCount || len > blockSize {
        return -1;
      }
      MulOrder(block, blockCount, blockSize);
      ghost var bytes := State()[block][..len];
      ghost var was := data[..];
      var src := block * blockSize;
      for i := 0 to len
        invariant data[..] == Splice(was, at, bytes[..i])
      {
        data[at + i] := buffer[src + i];
        assert bytes[..i + 1] == bytes[..i] + [bytes[i]];
      }
      assert bytes[..len] == bytes;
      return 0;
    }
  }

  /** The heap side of `ram_init`; when the buffer is refused the context is returned. */
  ghost function InitHeap(v: Variant, h: Heap, total: uint32): (Heap, Option<(nat, nat)>)
    requires |h.used| == |h.mem| / UNIT
  {
    var (h1, ctx) := Alloc(v, h, SIZEOF_CTX);
    if ctx.None? then (h1, None)
    else
      var (h2, buffer) := Alloc(v, h1, total);
      if buffer.None? then (Free(h2, ctx), None)
      else (h2, Some((ctx.value, buffer.value)))
  }

  /** The heap side of `ram_deinit`. */
  ghost function DeinitHeap(h: Heap, ctx: nat, buffer: nat): Heap {
    Free(Free(h, Some(buffer)), Some(ctx))
  }

  method RamInit(h: MemHeap, blockSize: nat, blockCount: nat) returns (disk: RamDisk?)
    requires h.Valid() && 0 < blockSize && blockCount < TWO32 && blockCount * blockSize < TWO32
    modifies h.heap, h.bitmap
    ensures h.Valid()
    ensures var (after, granted) := InitHeap(h.search, old(h.State()), blockCount * blockSize);
      && h.State() == after
      && (disk == null <==> granted.None?)
      && (disk != null ==> (disk.ctxAddress, disk.bufferAddress) == granted.value)
    ensures disk != null ==> fresh(disk) && fresh(disk.buffer) && disk.Valid()
    ensures disk != null ==> disk.blockSize == blockSize && disk.blockCount == blockCount
  {
    ghost var before := h.State();
    var ctx := h.MemAlloc(SIZEOF_CTX);
    if ctx.None? {
      return null;
    }
    FreshHeader(h.search, before, SIZEOF_CTX);
    var buffer := h.MemAlloc(blockCount * blockSize);
    if buffer.None? {
      h.MemFree(ctx);
      return null;
    }
    disk := new RamDisk(blockSize, blockCount, ctx.value, buffer.value);
  }

  lemma InitServes(v: Variant, h: Heap, total: uint32)
    requires |h.used| == |h.mem| / UNIT && InitHeap(v, h, total).1.Some?
    ensures var (h', granted) := InitHeap(v, h, total);
      Serve(v, h, [4, total]) == (h', [BlockAt(granted.value.0, 4), BlockAt(granted.value.1, total)])
  {
    hide Alloc, Serve, Free, UnitsFor;
    ServeTwo(v, h, SIZEOF_CTX, total);
    var (_, granted) := InitHeap(v, h, total);
    var ctx, buffer := BlockAt(granted.value.0, SIZEOF_CTX), BlockAt(granted.value.1, total);
    assert [ctx] + [buffer] == [ctx, buffer];
  }

  /** After clean requests a context of 4 bytes and a buffer of all blocks are live at the two addresses granted. */
  lemma InitOwns(v: Variant, h: Heap, live: seq<HeapModel.Block>, total: uint32)
    requires Inv(Sys(h, live)) && CleanRequests(v, h.used, [4, total]) && InitHeap(v, h, total).1.Some?
    ensures var (h', granted) := InitHeap(v, h, total);
      Inv(Sys(h', live + [BlockAt(granted.value.0, 4), BlockAt(granted.value.1, total)]))
  {
    InvSized(h, live);
    hide Alloc, Free, Inv, Serve, CleanRequests, InitHeap, UnitsFor, WellFormed;
    ServeKeeps(v, h, live, [4, total]);
    InitServes(v, h, total);
  }

  /** A refused `ram_init` leaves the bitmap as it was exactly when the request for its context was clean. */
  lemma RefusedInitRestoresIff(v: Variant, h: Heap, total: uint32)
    requires WellFormed(h) && InitHeap(v, h, total).1.None?
    ensures InitHeap(v, h, total).0.used == h.used <==> CleanRequest(v, h.used, SIZEOF_CTX)
  {
    if Alloc(v, h, SIZEOF_CTX).1.Some? {
      Window(v, h.used, UnitsFor(SIZEOF_CTX));
      TakeAndReturn(v, h, SIZEOF_CTX);
      CleanWindowFits(v, h.used, SIZEOF_CTX);
    } else {
      RefusedRequestIsClean(v, h, SIZEOF_CTX);
    }
  }

  /** `ram_deinit` right after a successful `ram_init` restores the bitmap exactly when both windows were free. */
  lemma DeinitUndoesInitIff(v: Variant, h: Heap, total: uint32)
    requires WellFormed(h) && InitHeap(v, h, total).1.Some?
    ensures var (h', granted) := InitHeap(v, h, total);
            var h1 := Alloc(v, h, SIZEOF_CTX).0;
      DeinitHeap(h', granted.value.0, granted.value.1).used == h.used <==>
      && Fits(h.used, UnitsFor(SIZEOF_CTX), Find(v, h.used, UnitsFor(SIZEOF_CTX)))
      && Fits(h.used, UnitsFor(total), Find(v, h1.used, UnitsFor(total)))
  {
    TakeTwoAndReturn(v, h, SIZEOF_CTX, total);
    hide Alloc, Free, Find, UnitsFor;
  }

  /**
   The pic32mz2048efm144 configuration (16384 blocks of 32 bytes, a heap of half of 524288 bytes)
   can never initialise its RAM disk.
   */
  lemma ShownDiskNeverFits(v: Variant, h: Heap)
    requires WellFormed(h) && |h.mem| == 524288 / 2
    ensures InitHeap(v, h, 16384 * 32).1.None?
  {
    var (h1, ctx) := Alloc(v, h, SIZEOF_CTX);
    assert UnitsFor(16384 * 32) == 65537;
    TooLargeRefused(v, h1.used, 65537);
  }
}

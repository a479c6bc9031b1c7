/**
 What kernel/fs/fs.h promises of reads and writes, and when the file systems keep it: which bytes of the
 caller's buffer are touched, and which count is returned.
 */
module Ramfs2Results {
  import opened Words
  import opened Search
  import opened DiskModel
  import opened Ramfs2Model
  import opened Ramfs2Refinement
  import opened Ramfs2Runs
  import H = HeapModel

  // ----- reads -----

  /** Every byte of the caller's memory from `len` on keeps its value, whatever stood there. */
  ghost predicate KeepsBeyond(out: seq<byte>, len: nat) {
    forall memory: seq<byte> :: |out| <= |memory| && len <= |memory| ==> Splice(memory, 0, out)[len..] == memory[len..]
  }

  lemma KeepsBeyondIff(out: seq<byte>, len: nat)
    ensures KeepsBeyond(out, len) <==> |out| <= len
  {
    if |out| <= len {
      forall memory: seq<byte> | |out| <= |memory| && len <= |memory|
        ensures Splice(memory, 0, out)[len..] == memory[len..]
      {
      }
    } else {
      var memory: seq<byte> := seq(|out|, i requires 0 <= i < |out| => (out[i] as int + 1) % 256);
      assert Splice(memory, 0, out)[len..][0] == out[len] && memory[len..][0] == memory[len];
    }
  }

  /**
   A read of an intact file moves all its blocks, and touches only the `len` bytes it was asked for exactly
   when the blocks hold no more than that.
   */
  lemma ReadStaysInsideIff(fs: Fs, blockSize: nat, name: string, len: nat)
    requires Good(fs, blockSize) && FindFile(fs.files, name) < |fs.files|
    requires fs.files[FindFile(fs.files, name)].Intact()
    ensures var out := Ramfs2Model.Read(fs, name).1;
            var count := fs.files[FindFile(fs.files, name)].count;
      |out| == count * blockSize && (KeepsBeyond(out, len) <==> count * blockSize <= len)
  {
    var f := fs.files[FindFile(fs.files, name)];
    ContentsLength(fs.disk, blockSize, f.blocks);
    KeepsBeyondIff(Ramfs2Model.Read(fs, name).1, len);
  }

  /** One byte written to a device of 32-byte blocks: reading one byte back touches 32. */
  lemma OneByteTouches32(v: Variant, fs: Fs, name: string, data: seq<byte>)
    requires Good(fs, 32) && FindFile(fs.files, name) < |fs.files| && |name| <= NAME_MAX && |data| >= 32
    requires Ramfs2Model.Write(v, fs, 32, name, data, 1).1 == 0
    ensures var fs' := Ramfs2Model.Write(v, fs, 32, name, data, 1).0;
      && Good(fs', 32) && FindFile(fs'.files, name) < |fs'.files|
      && |Ramfs2Model.Read(fs', name).1| == 32 && !KeepsBeyond(Ramfs2Model.Read(fs', name).1, 1)
  {
    var op := Op.Write(name, data, 1);
    assert Needed(1, 32) == 1;
    WriteGood(v, 32, fs, op);
    var fs' := Ramfs2Model.Write(v, fs, 32, name, data, 1).0;
    var i := FindFile(fs.files, name);
    WriteIsConfined(v, fs, 32, i, data, 1);
    OneBlockTaken(v, fs, name, data);
    hide Ramfs2Model.Write, Good, Needed;
    assert FindFile(fs'.files, name) == i by { FindFileIs(fs'.files, name, i); }
    ReadStaysInsideIff(fs', 32, name, 1);
  }

  lemma OneBlockTaken(v: Variant, fs: Fs, name: string, data: seq<byte>)
    requires H.WellFormed(fs.heap) && FindFile(fs.files, name) < |fs.files|
    requires Ramfs2Model.Write(v, fs, 32, name, data, 1).1 == 0
    ensures var fs' := Ramfs2Model.Write(v, fs, 32, name, data, 1).0;
            var i := FindFile(fs.files, name);
      i < |fs'.files| && fs'.files[i].count == 1 && fs'.files[i].Intact()
  {
    assert Needed(1, 32) == 1;
    hide H.Alloc, Fill;
  }

  /** The bytes read, as fs.h promises them. */
  function PromisedRead(fs: Fs, name: string, len: nat): int {
    var i := FindFile(fs.files, name);
    if i == |fs.files| then -1 else if len < fs.files[i].size then len else fs.files[i].size
  }

  /** The value a read returns is the promised one exactly when there is no file or there are no bytes to read. */
  lemma ReadReturnsPromisedIff(fs: Fs, blockSize: nat, name: string, len: nat)
    requires Good(fs, blockSize)
    ensures var i := FindFile(fs.files, name);
      Ramfs2Model.Read(fs, name).0 == PromisedRead(fs, name, len) <==>
      i == |fs.files| || len == 0 || fs.files[i].size == 0
  {
  }

  // ----- writes -----

  /**
   The value a write returns is the promised count or -1 exactly when the write fails: when there is no file,
   no heap for its table, or too few blocks. A write of nothing fails.
   */
  lemma WriteReturnsPromisedIff(v: Variant, fs: Fs, blockSize: nat, name: string, data: seq<byte>, len: uint32)
    requires 0 < blockSize && H.WellFormed(fs.heap)
    ensures var code := Ramfs2Model.Write(v, fs, blockSize, name, data, len).1;
            var needed := Needed(len, blockSize);
      code == (if code == 0 then len else -1) <==>
      || FindFile(fs.files, name) == |fs.files|
      || H.Alloc(v, fs.heap, 4 * needed % TWO32).1.None?
      || |FreeBlocks(fs.map')| < needed
  {
    if FindFile(fs.files, name) < |fs.files| {
      WriteSucceedsIff(v, fs, blockSize, name, data, len);
      NothingNeedsNoTable(v, fs.heap);
      if len == 0 { NothingNeeded(blockSize); }
      hide Ramfs2Model.Write, H.Alloc, Needed, FreeBlocks;
    }
  }

  /**
   After a write the file's block table is complete, so that reading and removing it are defined, exactly when
   the write succeeded, or was refused a table for a file that counts no blocks.
   */
  lemma WriteLeavesIntactIff(v: Variant, fs: Fs, blockSize: nat, name: string, data: seq<byte>, len: uint32)
    requires 0 < blockSize && H.WellFormed(fs.heap) && FindFile(fs.files, name) < |fs.files|
    ensures var i := FindFile(fs.files, name);
            var (fs', code) := Ramfs2Model.Write(v, fs, blockSize, name, data, len);
      fs'.files[i].Intact() <==>
        code == 0 || (H.Alloc(v, fs.heap, 4 * Needed(len, blockSize) % TWO32).1.None? && fs.files[i].count == 0)
  {
    hide H.Alloc, Fill, Needed;
  }

  /** The size of a file is the length of the last write that succeeded. */
  lemma WriteSetsSizeIff(v: Variant, fs: Fs, blockSize: nat, name: string, data: seq<byte>, len: uint32)
    requires 0 < blockSize && H.WellFormed(fs.heap) && FindFile(fs.files, name) < |fs.files|
    ensures var i := FindFile(fs.files, name);
            var (fs', code) := Ramfs2Model.Write(v, fs, blockSize, name, data, len);
      fs'.files[i].size == if code == 0 then len else fs.files[i].size
  {
    hide H.Alloc, Fill, Needed;
  }

  // ----- what a write takes from the caller's memory -----

  /** The blocks a write takes and marks do not depend on the data. */
  lemma {:induction false} FillShape(map': seq<byte>, disk: Disk, blockSize: nat, data: seq<byte>, data': seq<byte>, n: nat)
    ensures Fill(map', disk, blockSize, data, n).blocks == Fill(map', disk, blockSize, data', n).blocks
    ensures Fill(map', disk, blockSize, data, n).map' == Fill(map', disk, blockSize, data', n).map'
  {
    if n > 0 {
      FillShape(map', disk, blockSize, data, data', n - 1);
      hide WriteBlock, Chunk, IndexOf;
    }
  }

  lemma {:induction false} FillSame(map': seq<byte>, disk: Disk, blockSize: nat, data: seq<byte>, data': seq<byte>, n: nat)
    requires n * blockSize <= |data| && n * blockSize <= |data'| && data[..n * blockSize] == data'[..n * blockSize]
    ensures Fill(map', disk, blockSize, data, n) == Fill(map', disk, blockSize, data', n)
  {
    if n > 0 {
      MulOrder(n - 1, n, blockSize);
      assert data[..(n - 1) * blockSize] == data[..n * blockSize][..(n - 1) * blockSize];
      assert data'[..(n - 1) * blockSize] == data'[..n * blockSize][..(n - 1) * blockSize];
      FillSame(map', disk, blockSize, data, data', n - 1);
      SameChunk(data, data', blockSize, n);
      hide WriteBlock, Chunk, IndexOf;
    }
  }

  lemma SameChunk(data: seq<byte>, data': seq<byte>, blockSize: nat, n: nat)
    requires n > 0 && n * blockSize <= |data| && n * blockSize <= |data'| && data[..n * blockSize] == data'[..n * blockSize]
    ensures Chunk(data, blockSize, n - 1) == Chunk(data', blockSize, n - 1)
  {
    var at, end := (n - 1) * blockSize, n * blockSize;
    assert end == at + blockSize;
    assert data[at..end] == data[..end][at..end];
    assert data'[at..end] == data'[..end][at..end];
  }

  /** Whatever stands in the caller's memory from `len` on, the write has the same effect. */
  ghost predicate IgnoresBeyond(v: Variant, fs: Fs, blockSize: nat, name: string, data: seq<byte>, len: uint32)
    requires 0 < blockSize && H.WellFormed(fs.heap)
  {
    forall data': seq<byte> :: |data'| == |data| && len <= |data| && data'[..len] == data[..len] ==>
      Ramfs2Model.Write(v, fs, blockSize, name, data', len) == Ramfs2Model.Write(v, fs, blockSize, name, data, len)
  }

  /**
   A successful write of `len` bytes takes nothing from the caller's memory beyond them exactly when its
   blocks hold no more than that: when `len` is a whole number of blocks.
   */
  lemma WriteStaysInsideIff(v: Variant, fs: Fs, blockSize: nat, name: string, data: seq<byte>, len: uint32)
    requires Good(fs, blockSize) && FindFile(fs.files, name) < |fs.files|
    requires Needed(len, blockSize) * blockSize <= |data| && Ramfs2Model.Write(v, fs, blockSize, name, data, len).1 == 0
    ensures len <= |data| && (IgnoresBeyond(v, fs, blockSize, name, data, len) <==> Needed(len, blockSize) * blockSize <= len)
  {
    var needed := Needed(len, blockSize);
    SuccessNeedsBlocks(v, fs, blockSize, name, data, len);
    NeededCovers(len, blockSize);
    hide Good, Ramfs2Model.Write, Needed, FindFile;
    if needed * blockSize <= len {
      forall data': seq<byte> | |data'| == |data| && data'[..len] == data[..len]
        ensures Ramfs2Model.Write(v, fs, blockSize, name, data', len) == Ramfs2Model.Write(v, fs, blockSize, name, data, len)
      {
        SamePrefix(data, data', needed * blockSize, len);
        FillSame(fs.map', fs.disk, blockSize, data, data', needed);
        SameWrite(v, fs, blockSize, name, data, data', len);
      }
    } else {
      var data' := data[len := (data[len] as int + 1) % 256];
      assert data'[..len] == data[..len];
      OtherByteShows(v, fs, blockSize, name, data, data', len);
    }
  }

  lemma SamePrefix(data: seq<byte>, data': seq<byte>, n: nat, len: nat)
    requires n <= len <= |data| && |data'| == |data| && data'[..len] == data[..len]
    ensures data'[..n] == data[..n]
  {
    assert data'[..n] == data'[..len][..n] && data[..n] == data[..len][..n];
  }

  lemma SuccessNeedsBlocks(v: Variant, fs: Fs, blockSize: nat, name: string, data: seq<byte>, len: uint32)
    requires Good(fs, blockSize) && FindFile(fs.files, name) < |fs.files|
    requires Ramfs2Model.Write(v, fs, blockSize, name, data, len).1 == 0
    ensures H.WellFormed(fs.heap) && 0 < blockSize
    ensures Needed(len, blockSize) >= 1 && Needed(len, blockSize) <= |FreeBlocks(fs.map')|
    ensures H.Alloc(v, fs.heap, 4 * Needed(len, blockSize) % TWO32).1.Some?
  {
    WriteSucceedsIff(v, fs, blockSize, name, data, len);
    NothingNeedsNoTable(v, fs.heap);
    hide Ramfs2Model.Write, Needed, H.Alloc, FreeBlocks;
  }

  lemma SameWrite(v: Variant, fs: Fs, blockSize: nat, name: string, data: seq<byte>, data': seq<byte>, len: uint32)
    requires 0 < blockSize && H.WellFormed(fs.heap)
    requires var needed := Needed(len, blockSize);
      Fill(fs.map', fs.disk, blockSize, data, needed) == Fill(fs.map', fs.disk, blockSize, data', needed)
    ensures Ramfs2Model.Write(v, fs, blockSize, name, data', len) == Ramfs2Model.Write(v, fs, blockSize, name, data, len)
  {
    hide H.Alloc, Fill, Needed;
  }

  /** A different byte at `len` ends up in the last block. */
  lemma OtherByteShows(v: Variant, fs: Fs, blockSize: nat, name: string, data: seq<byte>, data': seq<byte>, len: uint32)
    requires Good(fs, blockSize) && FindFile(fs.files, name) < |fs.files|
    requires Ramfs2Model.Write(v, fs, blockSize, name, data, len).1 == 0
    requires |data'| == |data| && len < Needed(len, blockSize) * blockSize <= |data| && data'[len] != data[len]
    ensures Ramfs2Model.Write(v, fs, blockSize, name, data', len) != Ramfs2Model.Write(v, fs, blockSize, name, data, len)
  {
    SuccessNeedsBlocks(v, fs, blockSize, name, data, len);
    DiskOfWrite(v, fs, blockSize, name, data, len);
    DiskOfWrite(v, fs, blockSize, name, data', len);
    hide Fill, Ramfs2Model.Write, Needed, Chunk, FreeBlocks, H.Alloc;
    var k, j := ChunkOfByte(data, data', blockSize, Needed(len, blockSize), len);
    FillDiffers(fs, blockSize, data, data', Needed(len, blockSize), k, j);
  }

  lemma FillDiffers(fs: Fs, blockSize: nat, data: seq<byte>, data': seq<byte>, needed: nat, k: nat, j: nat)
    requires 0 < blockSize && DiskModel.Sized(fs.disk, blockSize) && |fs.map'| == |fs.disk|
    requires needed <= |FreeBlocks(fs.map')|
    requires needed * blockSize <= |data| && needed * blockSize <= |data'| && k < needed
    requires j < |Chunk(data, blockSize, k)| && j < |Chunk(data', blockSize, k)|
    requires Chunk(data, blockSize, k)[j] != Chunk(data', blockSize, k)[j]
    ensures Fill(fs.map', fs.disk, blockSize, data, needed).disk != Fill(fs.map', fs.disk, blockSize, data', needed).disk
  {
    hide Fill, Chunk, Ramfs2Refinement.Took, Stored, FreeBlocks;
    var w, w' := Fill(fs.map', fs.disk, blockSize, data, needed), Fill(fs.map', fs.disk, blockSize, data', needed);
    FillCount(fs.map', fs.disk, blockSize, data, needed);
    FillTakes(fs.map', fs.disk, blockSize, data, needed);
    FillStores(fs.map', fs.disk, blockSize, data, needed);
    FillStores(fs.map', fs.disk, blockSize, data', needed);
    FillShape(fs.map', fs.disk, blockSize, data, data', needed);
    ShownBlock(fs, blockSize, data, data', w, w', k, j);
  }

  lemma ShownBlock(fs: Fs, blockSize: nat, data: seq<byte>, data': seq<byte>, w: Filling, w': Filling, k: nat, j: nat)
    requires |fs.map'| == |fs.disk| && Took(fs.map', w) && w'.blocks == w.blocks && k < |w.blocks|
    requires Stored(fs.disk, blockSize, data, w) && Stored(fs.disk, blockSize, data', w')
    requires j < |Chunk(data, blockSize, k)| && j < |Chunk(data', blockSize, k)|
    requires Chunk(data, blockSize, k)[j] != Chunk(data', blockSize, k)[j]
    ensures w.disk != w'.disk
  {
    hide Chunk;
    assert w.disk[w.blocks[k]] == Chunk(data, blockSize, k);
    assert w'.disk[w.blocks[k]] == Chunk(data', blockSize, k);
  }

  lemma ChunkOfByte(data: seq<byte>, data': seq<byte>, blockSize: nat, n: nat, at: nat) returns (k: nat, j: nat)
    requires 0 < blockSize && at < n * blockSize <= |data| && |data'| == |data|
    ensures k < n && j < |Chunk(data, blockSize, k)| && j < |Chunk(data', blockSize, k)|
    ensures Chunk(data, blockSize, k)[j] == data[at] && Chunk(data', blockSize, k)[j] == data'[at]
  {
    hide Chunk;
    k, j := at / blockSize, at % blockSize;
    ByteOfChunk(data, blockSize, n, at);
    ByteOfChunk(data', blockSize, n, at);
  }

  lemma DiskOfWrite(v: Variant, fs: Fs, blockSize: nat, name: string, data: seq<byte>, len: uint32)
    requires 0 < blockSize && H.WellFormed(fs.heap) && FindFile(fs.files, name) < |fs.files|
    requires H.Alloc(v, fs.heap, 4 * Needed(len, blockSize) % TWO32).1.Some?
    ensures Ramfs2Model.Write(v, fs, blockSize, name, data, len).0.disk
         == Fill(fs.map', fs.disk, blockSize, data, Needed(len, blockSize)).disk
  {
    hide H.Alloc, Fill, Needed;
  }

  lemma ByteOfChunk(data: seq<byte>, blockSize: nat, n: nat, at: nat)
    requires 0 < blockSize && at < n * blockSize <= |data|
    ensures at / blockSize < n && at % blockSize < blockSize == |Chunk(data, blockSize, at / blockSize)|
    ensures Chunk(data, blockSize, at / blockSize)[at % blockSize] == data[at]
  {
    var k := at / blockSize;
    assert k * blockSize <= at < k * blockSize + blockSize;
    if n <= k { MulOrder(n, k, blockSize); }
    MulOrder(k, n, blockSize);
    assert at % blockSize == at - k * blockSize;
  }
}

/** The same promises for ramfs. */
module RamfsResults {
  import opened Words
  import opened DiskModel
  import opened FileList
  import opened RamfsModel

  function PromisedRead(fs: Fs, name: string, len: nat): int {
    var i := FindName(fs.files, name);
    if i == |fs.files| then -1 else if len < fs.files[i].1.size then len else fs.files[i].1.size
  }

  /** The value a read returns is the promised one exactly when there is no file or there are no bytes to read. */
  lemma ReadReturnsPromisedIff(fs: Fs, blockSize: nat, name: string, len: nat, buffer: seq<byte>)
    requires 0 < blockSize && len < TWO32
    ensures var i := FindName(fs.files, name);
      RamfsModel.Read(fs, blockSize, name, len, buffer).0 == PromisedRead(fs, name, len) <==>
      i == |fs.files| || len == 0 || fs.files[i].1.size == 0
  {
    hide ReadLoop, Needed;
  }

  /** The value a write returns is the promised one exactly when there is no file or nothing to write. */
  lemma WriteReturnsPromisedIff(fs: Fs, blockSize: nat, name: string, data: seq<byte>)
    requires 0 < blockSize && |data| < TWO32
    ensures var i := FindName(fs.files, name);
      RamfsModel.Write(fs, blockSize, name, data).1 == (if i == |fs.files| then -1 else |data|) <==>
      i == |fs.files| || |data| == 0
  {
    hide WriteLoop, Needed;
  }
}

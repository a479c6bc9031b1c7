/**
 kernel/fs/ramfs/ramfs.c as a value: files hold a fixed first block, and one counter says where the
 next file will start. The class in ramfs.dfy is proved to compute exactly these functions.
 */
module RamfsModel {
  import opened Words
  import opened Search
  import opened DiskModel
  import opened FileList
  import H = HeapModel

  const NODE_SIZE: uint32 := 44
  const NAME_MAX: nat := 31

  datatype Info = Info(size: nat, start: nat, node: nat)

  datatype Fs = Fs(files: seq<(string, Info)>, next: nat, disk: Disk, heap: H.Heap)

  /** The bytes of `data` that one block takes from `from` on; the last piece may be short. */
  function Piece(data: seq<byte>, blockSize: nat, from: nat): (r: seq<byte>)
    ensures |r| <= blockSize
  {
    if from >= |data| then []
    else if |data| - from < blockSize then data[from..]
    else data[from..from + blockSize]
  }

  /** The device after `n` rounds of the write loop; a block past the device is silently lost. */
  function WriteLoop(d: Disk, blockSize: nat, start: nat, data: seq<byte>, n: nat): (r: Disk)
    ensures |r| == |d|
    ensures forall k :: 0 <= k < |d| ==> |r[k]| == |d[k]|
  {
    if n == 0 then d
    else WriteBlock(WriteLoop(d, blockSize, start, data, n - 1), Wrap32(start + n - 1),
                    Piece(data, blockSize, Times(n - 1, blockSize)))
  }

  /** `bytes` laid over `buffer` where they fit. */
  function Overlay(buffer: seq<byte>, at: nat, bytes: seq<byte>): (r: seq<byte>)
    ensures |r| == |buffer|
  {
    if at + |bytes| <= |buffer| then Splice(buffer, at, bytes) else buffer
  }

  /** One round of the read loop, for the bytes from `from` on; a failed block read leaves its part of the buffer alone. */
  function ReadRound(d: Disk, blockSize: nat, block: nat, toRead: nat, from: nat, buffer: seq<byte>): (r: seq<byte>)
    ensures |r| == |buffer|
  {
    var size := if toRead - from < blockSize then toRead - from else blockSize;
    if block < |d| && 0 <= size <= |d[block]| then Overlay(buffer, from, d[block][..size]) else buffer
  }

  /** The caller's buffer after `n` rounds of the read loop. */
  function ReadLoop(d: Disk, blockSize: nat, start: nat, toRead: nat, n: nat, buffer: seq<byte>): (r: seq<byte>)
    ensures |r| == |buffer|
  {
    if n == 0 then buffer
    else
      ReadRound(d, blockSize, Wrap32(start + n - 1), toRead, Times(n - 1, blockSize),
                ReadLoop(d, blockSize, start, toRead, n - 1, buffer))
  }

  function Format(fs: Fs): Fs {
    fs.(files := [], next := 0)
  }

  function Create(v: Variant, fs: Fs, name: string): (Fs, int)
    requires |fs.heap.used| == |fs.heap.mem| / H.UNIT
  {
    if FindName(fs.files, name) < |fs.files| then (fs, -1)
    else
      var (heap, node) := H.Alloc(v, fs.heap, NODE_SIZE);
      if node.None? then (fs.(heap := heap), -1)
      else (fs.(heap := heap, files := [(name, Info(0, fs.next, node.value))] + fs.files), 0)
  }

  /** `data` is the caller's buffer up to `len`. */
  function Write(fs: Fs, blockSize: nat, name: string, data: seq<byte>): (Fs, int)
    requires 0 < blockSize && |data| < TWO32
  {
    var i := FindName(fs.files, name);
    if i == |fs.files| then (fs, -1)
    else
      var info := fs.files[i].1;
      var blocks := Needed(|data|, blockSize);
      (Fs(fs.files[i := (name, info.(size := |data|))], Wrap32(fs.next + blocks),
          WriteLoop(fs.disk, blockSize, info.start, data, blocks), fs.heap), 0)
  }

  /** The caller's buffer after asking for `len` bytes. */
  function Read(fs: Fs, blockSize: nat, name: string, len: nat, buffer: seq<byte>): (int, seq<byte>)
    requires 0 < blockSize && len < TWO32
  {
    var i := FindName(fs.files, name);
    if i == |fs.files| then (-1, buffer)
    else
      var info := fs.files[i].1;
      var toRead := if len < info.size then len else info.size;
      (0, ReadLoop(fs.disk, blockSize, info.start, toRead, Needed(toRead, blockSize), buffer))
  }

  function Remove(fs: Fs, name: string): (Fs, int) {
    var i := FindName(fs.files, name);
    if i == |fs.files| then (fs, -1)
    else (fs.(files := Without(fs.files, i), heap := H.Free(fs.heap, Some(fs.files[i].1.node))), 0)
  }

  /** The new name is not looked up, so it may already be taken. */
  function Rename(fs: Fs, oldName: string, newName: string): (Fs, int) {
    var i := FindName(fs.files, oldName);
    if i == |fs.files| then (fs, -1) else (fs.(files := fs.files[i := (newName, fs.files[i].1)]), 0)
  }

  // ----- what the loops do -----

  /** The block of a file that holds its byte `j`, and the place in that block. */
  function BlockOf(j: nat, blockSize: nat): nat
    requires 0 < blockSize
  {
    j / blockSize
  }

  function PlaceOf(j: nat, blockSize: nat): nat
    requires 0 < blockSize
  {
    j % blockSize
  }

  /** `data` lies on the device from block `start` on. */
  ghost predicate Holds(d: Disk, blockSize: nat, start: nat, data: seq<byte>)
    requires 0 < blockSize
  {
    forall j :: 0 <= j < |data| ==> ByteAt(d, start + BlockOf(j, blockSize), PlaceOf(j, blockSize), data[j])
  }

  ghost predicate ByteAt(d: Disk, block: nat, place: nat, value: byte) {
    block < |d| && place < |d[block]| && d[block][place] == value
  }

  lemma DivMod(j: nat, blockSize: nat)
    requires 0 < blockSize
    ensures BlockOf(j, blockSize) * blockSize + PlaceOf(j, blockSize) == j
    ensures PlaceOf(j, blockSize) < blockSize
  {
  }

  lemma DivModOf(i: nat, blockSize: nat, j: nat)
    requires j < blockSize
    ensures BlockOf(i * blockSize + j, blockSize) == i && PlaceOf(i * blockSize + j, blockSize) == j
  {
    var x := i * blockSize + j;
    DivMod(x, blockSize);
    var q := BlockOf(x, blockSize);
    if q < i { MulOrder(q, i, blockSize); }
    if i < q { MulOrder(i, q, blockSize); }
  }

  /** Only the blocks of the extent change. */
  lemma {:induction false} WriteLoopElsewhere(d: Disk, blockSize: nat, start: nat, data: seq<byte>, n: nat, b: nat)
    requires start + n <= TWO32 && b < |d| && !(start <= b < start + n)
    ensures WriteLoop(d, blockSize, start, data, n)[b] == d[b]
  {
    hide Piece, Times;
    if n > 0 {
      WrapSmall(start + n - 1);
      WriteLoopElsewhere(d, blockSize, start, data, n - 1, b);
    }
  }

  lemma PieceByte(data: seq<byte>, blockSize: nat, j: nat)
    requires 0 < blockSize && j < |data|
    ensures var p := Piece(data, blockSize, Times(BlockOf(j, blockSize), blockSize));
      PlaceOf(j, blockSize) < |p| && p[PlaceOf(j, blockSize)] == data[j]
  {
    DivMod(j, blockSize);
    hide BlockOf, PlaceOf;
  }

  /** Every block of the extent holds its piece of the data. */
  lemma {:induction false} WriteLoopPiece(d: Disk, blockSize: nat, start: nat, data: seq<byte>, n: nat, k: nat)
    requires DiskModel.Sized(d, blockSize) && k < n && start + n <= |d| < TWO32
    ensures var p := Piece(data, blockSize, Times(k, blockSize));
            var b := WriteLoop(d, blockSize, start, data, n)[start + k];
            |p| <= |b| == blockSize && b[..|p|] == p
  {
    hide Piece, Times;
    WrapSmall(start + n - 1);
    if k < n - 1 {
      WriteLoopPiece(d, blockSize, start, data, n - 1, k);
    }
  }

  /** A round of either loop begins inside the bytes it is to move. */
  lemma RoundBegins(len: uint32, blockSize: nat, i: nat)
    requires 0 < blockSize && i < Needed(len, blockSize)
    ensures Times(i, blockSize) < len
  {
    var x, n := (len + blockSize - 1) % TWO32, Needed(len, blockSize);
    DivMod(x, blockSize);
    MulOrder(i + 1, n, blockSize);
    TimesNext(i, blockSize);
  }

  lemma BlockBelow(j: nat, n: nat, blockSize: nat)
    requires 0 < blockSize && j < n * blockSize
    ensures BlockOf(j, blockSize) < n
  {
    DivMod(j, blockSize);
    var q := BlockOf(j, blockSize);
    if n <= q { MulOrder(n, q, blockSize); }
  }

  lemma NeededBounds(len: uint32, blockSize: nat)
    requires 0 < blockSize && len + blockSize - 1 < TWO32
    ensures len <= Needed(len, blockSize) * blockSize < len + blockSize
  {
    DivMod(len + blockSize - 1, blockSize);
  }

  /** After the write loop the extent holds the data. */
  lemma WriteLoopHolds(d: Disk, blockSize: nat, start: nat, data: seq<byte>, n: nat)
    requires 0 < blockSize && DiskModel.Sized(d, blockSize) && |data| <= n * blockSize
    requires start + n <= |d| < TWO32
    ensures Holds(WriteLoop(d, blockSize, start, data, n), blockSize, start, data)
  {
    hide BlockOf, PlaceOf, Piece, WriteLoop, Times;
    forall j | 0 <= j < |data|
      ensures ByteAt(WriteLoop(d, blockSize, start, data, n), start + BlockOf(j, blockSize), PlaceOf(j, blockSize), data[j])
    {
      var k := BlockOf(j, blockSize);
      BlockBelow(j, n, blockSize);
      WriteLoopPiece(d, blockSize, start, data, n, k);
      PieceByte(data, blockSize, j);
      var p := Piece(data, blockSize, Times(k, blockSize));
      assert WriteLoop(d, blockSize, start, data, n)[start + k][..|p|][PlaceOf(j, blockSize)] == data[j];
    }
  }

  /** `read` is `buffer` with its first `upTo` bytes, but no more than `toRead`, taken from `data`. */
  ghost predicate Delivered(read: seq<byte>, buffer: seq<byte>, data: seq<byte>, toRead: nat, upTo: nat) {
    && |read| == |buffer| && toRead <= |data|
    && forall j :: 0 <= j < |buffer| ==> read[j] == if j < toRead && j < upTo then data[j] else buffer[j]
  }

  /** The read loop lays the bytes of the extent at the start of the buffer and leaves the rest alone. */
  lemma {:induction false} ReadLoopDelivers(d: Disk, blockSize: nat, start: nat, data: seq<byte>, toRead: nat,
                                            n: nat, buffer: seq<byte>)
    requires 0 < blockSize && DiskModel.Sized(d, blockSize) && |d| < TWO32
    requires Holds(d, blockSize, start, data) && toRead <= |data| && toRead <= |buffer|
    requires n > 0 ==> Times(n - 1, blockSize) < toRead
    ensures Delivered(ReadLoop(d, blockSize, start, toRead, n, buffer), buffer, data, toRead, Times(n, blockSize))
  {
    hide Times, Holds, ReadRound, Overlay, Wrap32;
    if n > 0 {
      var from := Times(n - 1, blockSize);
      TimesNext(n - 1, blockSize);
      if n > 1 { TimesNext(n - 2, blockSize); }
      ReadLoopDelivers(d, blockSize, start, data, toRead, n - 1, buffer);
      var size := if toRead - from < blockSize then toRead - from else blockSize;
      ReadOnePiece(d, blockSize, start, data, n - 1, from, size);
      WrapSmall(start + n - 1);
      var before := ReadLoop(d, blockSize, start, toRead, n - 1, buffer);
      ReadRoundIs(d, blockSize, start + n - 1, data, toRead, from, size, before);
      DeliverMore(before, buffer, data, toRead, from, blockSize, size);
      hide Delivered;
    } else {
      TimesNext(0, blockSize);
    }
  }

  lemma ReadRoundIs(d: Disk, blockSize: nat, block: nat, data: seq<byte>, toRead: nat,
                    from: nat, size: nat, buffer: seq<byte>)
    requires from < toRead <= |data| && block < |d| && |d[block]| == blockSize
    requires size == if toRead - from < blockSize then toRead - from else blockSize
    requires d[block][..size] == data[from..from + size]
    ensures ReadRound(d, blockSize, block, toRead, from, buffer) == Overlay(buffer, from, data[from..from + size])
  {
  }

  lemma DeliverMore(before: seq<byte>, buffer: seq<byte>, data: seq<byte>, toRead: nat, from: nat, blockSize: nat, size: nat)
    requires Delivered(before, buffer, data, toRead, from) && from < toRead <= |buffer|
    requires size == if toRead - from < blockSize then toRead - from else blockSize
    ensures Delivered(Overlay(before, from, data[from..from + size]), buffer, data, toRead, from + blockSize)
  {
  }

  lemma ReadOnePiece(d: Disk, blockSize: nat, start: nat, data: seq<byte>, i: nat, from: nat, size: nat)
    requires 0 < size <= blockSize && DiskModel.Sized(d, blockSize) && |d| < TWO32
    requires Holds(d, blockSize, start, data) && from == Times(i, blockSize) && from + size <= |data|
    ensures start + i < |d| && |d[start + i]| == blockSize && d[start + i][..size] == data[from..from + size]
  {
    hide BlockOf, PlaceOf;
    var piece := data[from..from + size];
    forall j | 0 <= j < |piece| ensures ByteAt(d, start + i, j, piece[j]) {
      DivModOf(i, blockSize, j);
      assert ByteAt(d, start + BlockOf(from + j, blockSize), PlaceOf(from + j, blockSize), data[from + j]);
    }
    assert piece[0] == data[from];
    assert d[start + i][..size] == piece;
  }

  /** A read of bytes that stand on the device delivers them, and leaves the rest of the buffer alone. */
  lemma ReadDelivers(d: Disk, blockSize: nat, start: nat, data: seq<byte>, toRead: uint32, buffer: seq<byte>)
    requires 0 < blockSize && DiskModel.Sized(d, blockSize) && |d| < TWO32 && toRead + blockSize - 1 < TWO32
    requires Holds(d, blockSize, start, data) && toRead <= |data| && toRead <= |buffer|
    ensures ReadLoop(d, blockSize, start, toRead, Needed(toRead, blockSize), buffer) == data[..toRead] + buffer[toRead..]
  {
    var n := Needed(toRead, blockSize);
    NeededBounds(toRead, blockSize);
    hide Needed, Holds, ReadLoop;
    if n > 0 {
      TimesNext(n - 1, blockSize);
    }
    ReadLoopDelivers(d, blockSize, start, data, toRead, n, buffer);
  }

  /** A read depends on the blocks of its extent only. */
  lemma {:induction false} ReadLoopFrame(d: Disk, d': Disk, blockSize: nat, start: nat, toRead: nat, n: nat, buffer: seq<byte>)
    requires |d'| == |d| && start + n <= TWO32
    requires forall b :: start <= b < start + n && b < |d| ==> d'[b] == d[b]
    ensures ReadLoop(d', blockSize, start, toRead, n, buffer) == ReadLoop(d, blockSize, start, toRead, n, buffer)
  {
    hide Times, Overlay;
    if n > 0 {
      WrapSmall(start + n - 1);
      ReadLoopFrame(d, d', blockSize, start, toRead, n - 1, buffer);
    }
  }
}

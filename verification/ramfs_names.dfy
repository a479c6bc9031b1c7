/** What every name of ramfs reads as before and after each operation, and what the operations return. */
module RamfsNames {
  import opened Words
  import opened Search
  import opened DiskModel
  import opened FileList
  import opened RamfsModel
  import opened RamfsRuns
  import opened RamfsHeap
  import H = HeapModel

  ghost predicate Present(fs: Fs, name: string) {
    exists i :: 0 <= i < |fs.files| && fs.files[i].0 == name
  }

  /** Reading `n` in `fs` gives, for every length and buffer, what reading `n'` in `fs'` gives. */
  ghost predicate SameReads(blockSize: nat, fs: Fs, n: string, fs': Fs, n': string)
    requires 0 < blockSize
  {
    forall len: uint32, buffer: seq<byte> ::
      RamfsModel.Read(fs, blockSize, n, len, buffer) == RamfsModel.Read(fs', blockSize, n', len, buffer)
  }

  lemma PresentIff(fs: Fs, name: string)
    ensures Present(fs, name) <==> FindName(fs.files, name) < |fs.files|
  {
  }

  /** A name bound to the same descriptor on the same device reads the same. */
  lemma SameInfoReads(blockSize: nat, fs: Fs, n: string, fs': Fs, n': string)
    requires 0 < blockSize && fs'.disk == fs.disk
    requires var i, j := FindName(fs.files, n), FindName(fs'.files, n');
      if i < |fs.files| then j < |fs'.files| && fs'.files[j].1 == fs.files[i].1 else j == |fs'.files|
    ensures SameReads(blockSize, fs, n, fs', n')
  {
    hide FindName, ReadLoop, Needed;
  }

  /** A format forgets every file, and what they had written still stands on the device. */
  lemma FormatForgets(fs: Fs, blockSize: nat, name: string, len: uint32, buffer: seq<byte>)
    requires 0 < blockSize
    ensures var fs' := RamfsModel.Format(fs);
      && !Present(fs', name) && RamfsModel.Read(fs', blockSize, name, len, buffer) == (-1, buffer)
      && forall start: nat, data: seq<byte> ::
        Holds(fs.disk, blockSize, start, data) ==> Holds(fs'.disk, blockSize, start, data)
  {
  }

  /**
   Renaming succeeds exactly when the old name is there, and then moves its contents to a new name that was free:
   the old name is gone when no second file had it, and every other name reads as before.
   */
  lemma RenameReads(fs: Fs, blockSize: nat, oldName: string, newName: string)
    requires 0 < blockSize
    ensures var (fs', code) := RamfsModel.Rename(fs, oldName, newName);
      && code == (if Present(fs, oldName) then 0 else -1) && (code == -1 ==> fs' == fs)
      && (code == 0 && !Present(fs, newName) ==> SameReads(blockSize, fs, oldName, fs', newName))
      && (code == 0 && newName != oldName && NamesDistinct(fs.files) ==> !Present(fs', oldName))
      && (forall n :: n != oldName && n != newName ==> SameReads(blockSize, fs, n, fs', n))
  {
    PresentIff(fs, oldName);
    var (fs', code) := RamfsModel.Rename(fs, oldName, newName);
    var i := FindName(fs.files, oldName);
    if i < |fs.files| {
      if !Present(fs, newName) {
        FindNameIs(fs'.files, newName, i);
        SameInfoReads(blockSize, fs, oldName, fs', newName);
      }
      forall n | n != oldName && n != newName ensures SameReads(blockSize, fs, n, fs', n) {
        FindNameIs(fs'.files, n, FindName(fs.files, n));
        SameInfoReads(blockSize, fs, n, fs', n);
      }
    } else {
      forall n ensures SameReads(blockSize, fs, n, fs', n) {
        SameInfoReads(blockSize, fs, n, fs', n);
      }
    }
  }

  /**
   Creating succeeds exactly when the name is free and the heap grants a node; the new name then reads as nothing,
   and every other name as before.
   */
  lemma CreateReads(v: Variant, fs: Fs, blockSize: nat, name: string, len: uint32, buffer: seq<byte>)
    requires 0 < blockSize && HeapSized(fs)
    ensures var (fs', code) := RamfsModel.Create(v, fs, name);
      && code == (if !Present(fs, name) && H.Alloc(v, fs.heap, NODE_SIZE).1.Some? then 0 else -1)
      && (code == 0 ==> RamfsModel.Read(fs', blockSize, name, len, buffer) == (0, buffer))
      && (forall n :: n != name || code == -1 ==> SameReads(blockSize, fs, n, fs', n))
  {
    PresentIff(fs, name);
    hide H.Alloc;
    var (fs', code) := RamfsModel.Create(v, fs, name);
    if code == 0 {
      FindNameIs(fs'.files, name, 0);
      NothingNeeded(blockSize);
      forall n | n != name ensures SameReads(blockSize, fs, n, fs', n) {
        FindNameIs(fs'.files, n, FindName(fs.files, n) + 1);
        SameInfoReads(blockSize, fs, n, fs', n);
      }
    } else {
      forall n ensures SameReads(blockSize, fs, n, fs', n) {
        SameInfoReads(blockSize, fs, n, fs', n);
      }
    }
  }

  /** Removing succeeds exactly when the name is there, which is then gone; every other name reads as before. */
  lemma RemoveReads(fs: Fs, blockSize: nat, name: string)
    requires 0 < blockSize
    ensures var (fs', code) := RamfsModel.Remove(fs, name);
      && code == (if Present(fs, name) then 0 else -1) && (code == -1 ==> fs' == fs)
      && (NamesDistinct(fs.files) ==> !Present(fs', name))
      && (forall n :: n != name ==> SameReads(blockSize, fs, n, fs', n))
  {
    PresentIff(fs, name);
    hide H.Free;
    var (fs', code) := RamfsModel.Remove(fs, name);
    var k := FindName(fs.files, name);
    forall n | n != name ensures SameReads(blockSize, fs, n, fs', n) {
      var i := FindName(fs.files, n);
      if k < |fs.files| { FindNameIs(fs'.files, n, if i < k then i else i - 1); }
      SameInfoReads(blockSize, fs, n, fs', n);
    }
  }

  /**
   Data that lands on the device is read back, as much of it as is asked for.
   */
  lemma WriteReads(fs: Fs, blockSize: nat, name: string, data: Buffer, start: nat, len: uint32, buffer: seq<byte>)
    requires 0 < blockSize && DiskModel.Sized(fs.disk, blockSize) && |fs.disk| < TWO32
    requires StartsAt(fs, name, start) && |data| + blockSize - 1 < TWO32
    requires start + Needed(|data|, blockSize) <= |fs.disk|
    requires (if len < |data| then len else |data|) <= |buffer|
    ensures var (fs', code) := RamfsModel.Write(fs, blockSize, name, data);
            var n := if len < |data| then len else |data|;
      && code == 0 && RamfsModel.Read(fs', blockSize, name, len, buffer) == (0, data[..n] + buffer[n..])
  {
    WriteLands(fs, blockSize, name, data, start);
    var fs' := RamfsModel.Write(fs, blockSize, name, data).0;
    var n := if len < |data| then len else |data|;
    hide Needed, Holds, ReadLoop, WriteLoop;
    FindNameIs(fs'.files, name, FindName(fs.files, name));
    hide FindName;
    ReadDelivers(fs'.disk, blockSize, start, data, n, buffer);
  }

  /**
   Writing succeeds exactly when the name is there, and every other file whose blocks are none of those written
   reads as before.
   */
  lemma WriteSpares(fs: Fs, blockSize: nat, name: string, data: Buffer, other: string)
    requires 0 < blockSize && other != name
    requires var i, j := FindName(fs.files, name), FindName(fs.files, other);
      i < |fs.files| && j < |fs.files| ==>
        var (f, g) := (fs.files[i].1, fs.files[j].1);
        && f.start + Needed(|data|, blockSize) <= TWO32
        && g.size + blockSize - 1 < TWO32 && g.start + Needed(g.size, blockSize) <= TWO32
        && (f.start + Needed(|data|, blockSize) <= g.start || g.start + Needed(g.size, blockSize) <= f.start)
    ensures var (fs', code) := RamfsModel.Write(fs, blockSize, name, data);
      code == (if Present(fs, name) then 0 else -1) && SameReads(blockSize, fs, other, fs', other)
  {
    PresentIff(fs, name);
    var fs' := RamfsModel.Write(fs, blockSize, name, data).0;
    var i, j := FindName(fs.files, name), FindName(fs.files, other);
    if i == |fs.files| || j == |fs.files| {
      hide WriteLoop, Needed, Wrap32;
      FindNameIs(fs'.files, other, j);
      SameOrAbsent(blockSize, fs, fs', other);
    } else {
      OtherExtent(fs, blockSize, name, data, other);
    }
  }

  lemma SameOrAbsent(blockSize: nat, fs: Fs, fs': Fs, n: string)
    requires 0 < blockSize && (fs' == fs || (FindName(fs.files, n) == |fs.files| && FindName(fs'.files, n) == |fs'.files|))
    ensures SameReads(blockSize, fs, n, fs', n)
  {
    hide FindName, ReadLoop, Needed;
  }

  lemma OtherExtent(fs: Fs, blockSize: nat, name: string, data: Buffer, other: string)
    requires 0 < blockSize && other != name
    requires FindName(fs.files, name) < |fs.files| && FindName(fs.files, other) < |fs.files|
    requires var (f, g) := (fs.files[FindName(fs.files, name)].1, fs.files[FindName(fs.files, other)].1);
      && f.start + Needed(|data|, blockSize) <= TWO32
      && g.size + blockSize - 1 < TWO32 && g.start + Needed(g.size, blockSize) <= TWO32
      && (f.start + Needed(|data|, blockSize) <= g.start || g.start + Needed(g.size, blockSize) <= f.start)
    ensures SameReads(blockSize, fs, other, RamfsModel.Write(fs, blockSize, name, data).0, other)
  {
    var fs' := RamfsModel.Write(fs, blockSize, name, data).0;
    var j := FindName(fs.files, other);
    var f, g := fs.files[FindName(fs.files, name)].1, fs.files[j].1;
    var n := Needed(|data|, blockSize);
    forall b | g.start <= b < g.start + Needed(g.size, blockSize) && b < |fs.disk| ensures fs'.disk[b] == fs.disk[b] {
      WriteLoopElsewhere(fs.disk, blockSize, f.start, data, n, b);
    }
    hide WriteLoop, Wrap32;
    FindNameIs(fs'.files, other, j);
    forall len: uint32, buffer: seq<byte>
      ensures RamfsModel.Read(fs, blockSize, other, len, buffer) == RamfsModel.Read(fs', blockSize, other, len, buffer)
    {
      var toRead := if len < g.size then len else g.size;
      NeededGrows(toRead, g.size, blockSize);
      hide Needed, FindName, ReadLoop;
      ReadLoopFrame(fs.disk, fs'.disk, blockSize, g.start, toRead, Needed(toRead, blockSize), buffer);
    }
  }

  lemma NeededGrows(a: uint32, b: uint32, blockSize: nat)
    requires 0 < blockSize && a <= b && b + blockSize - 1 < TWO32
    ensures Needed(a, blockSize) <= Needed(b, blockSize)
  {
    NeededBounds(a, blockSize);
    NeededBounds(b, blockSize);
    hide Needed;
    var x, y := Needed(a, blockSize), Needed(b, blockSize);
    assert (y + 1) * blockSize == y * blockSize + blockSize;
    if y < x {
      MulOrder(y + 1, x, blockSize);
    }
  }
}

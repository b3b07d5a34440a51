/** Extracting a sparse file from its map and regions, to a seekable file or to a pipe: src/sparse.c. */
module SparseExtract {
  import opened Bytes
  import opened RecordReader
  import opened SparseFiles

  /** d with bytes stored at index at, after zeros if d is shorter. */
  function Overlay(d: seq<byte>, at: nat, bytes: seq<byte>): seq<byte> {
    if |d| <= at then d + Zeros(at - |d|) + bytes
    else d[..at] + bytes + if at + |bytes| < |d| then d[at + |bytes|..] else []
  }

  /** d cut or filled with zeros to length n. */
  function Resized(d: seq<byte>, n: nat): seq<byte> {
    if |d| <= n then d + Zeros(n - |d|) else d[..n]
  }

  /** The output: a file that can be positioned, or a pipe. */
  class Output {
    const seekable: bool
    var data: seq<byte>
    var position: nat       // of the descriptor
    var offset: nat         // file->offset, kept for pipes

    ghost predicate Valid()
      reads this
    {
      !seekable ==> |data| == position == offset
    }

    constructor (seekable: bool)
      ensures Valid() && data == [] && position == 0 && this.seekable == seekable
    {
      this.seekable := seekable;
      data, position, offset := [], 0, 0;
    }

    method Write(bytes: seq<byte>)
      modifies this`data, this`position
      ensures data == Overlay(old(data), old(position), bytes)
      ensures position == old(position) + |bytes|
      ensures |old(data)| <= old(position) ==> |data| == position
    {
      data := Overlay(data, position, bytes);
      position := position + |bytes|;
    }

    /** sys_truncate: cut or extend the file at the position. */
    method Truncate()
      modifies this`data
      ensures data == Resized(old(data), position)
    {
      data := Resized(data, position);
    }

    /** dump_zeros: the pipe takes any positive part of each write. */
    method DumpZeros(target: nat) returns (ok: bool)
      requires Valid() && !seekable
      modifies this
      ensures Valid()
      ensures ok <==> |old(data)| <= target
      ensures ok ==> position == target && data == Resized(old(data), target)
      ensures !ok ==> data == old(data)
    {
      if target < offset {
        return false;
      }
      ghost var start := data;
      while offset < target
        invariant Valid() && |start| <= offset <= target
        invariant data == Resized(start, offset)
      {
        var size := Min(BLOCKSIZE, target - offset);
        var n :| 0 < n <= size;
        Write(Zeros(n));
        offset := offset + n;
      }
      return true;
    }

    /** lseek_or_error. */
    method SeekTo(target: nat) returns (ok: bool)
      requires Valid()
      modifies this
      ensures Valid()
      ensures ok <==> seekable || |old(data)| <= target
      ensures ok ==> position == target
      ensures ok ==> data == if seekable then old(data) else Resized(old(data), target)
    {
      if seekable {
        position := target;
        return true;
      }
      ok := DumpZeros(target);
    }
  }

  /** What has been restored after done bytes of an extent: the file up to there, except that the hole
      before the extent may still be missing while nothing of the extent has been written. */
  ghost predicate Restored(data: seq<byte>, position: nat, file: seq<byte>, offset: nat, done: nat) {
    && offset + done <= |file| && position == offset + done
    && |data| <= position && Resized(data, position) == file[..position]
    && (done > 0 ==> |data| == position)
  }

  lemma RestoreHole(data: seq<byte>, file: seq<byte>, offset: nat)
    requires |data| <= offset <= |file| && data == file[..|data|] && ZeroRange(file, |data|, offset)
    ensures Restored(data, offset, file, offset, 0)
    ensures Restored(Resized(data, offset), offset, file, offset, 0)
    ensures Resized(data, offset) == file[..offset] && |Resized(data, offset)| == offset
  {
    assert Resized(data, offset) == file[..offset];
    assert Resized(Resized(data, offset), offset) == Resized(data, offset);
  }

  lemma RestoreMore(data: seq<byte>, position: nat, file: seq<byte>, offset: nat, done: nat, chunk: seq<byte>)
    requires Restored(data, position, file, offset, done) && position + |chunk| <= |file| && |chunk| > 0
    requires chunk == file[position..position + |chunk|]
    ensures Restored(Overlay(data, position, chunk), position + |chunk|, file, offset, done + |chunk|)
  {
    var d := Overlay(data, position, chunk);
    assert d == Resized(data, position) + chunk;
    assert file[..position] + chunk == file[..position + |chunk|];
    assert Resized(d, |d|) == d;
  }

  /** How far reading a region has come: done bytes are taken, and unless it is finished the next block
      starts right after them. */
  ghost predicate RegionRead(start: nat, size: nat, done: nat, ordinal: nat) {
    && done <= size
    && if done < size then done % BLOCKSIZE == 0 && ordinal == start + done / BLOCKSIZE
       else ordinal == start + BlocksFor(size)
  }

  lemma RegionReadMore(start: nat, size: nat, done: nat, ordinal: nat, n: nat)
    requires RegionRead(start, size, done, ordinal) && done < size
    requires 0 < n <= size - done && (n == size - done || n % BLOCKSIZE == 0)
    ensures RegionRead(start, size, done + n, ordinal + BlocksFor(n))
  {
  }

  /** As far as the archive goes, it holds the bytes of a region from a block ordinal on. */
  ghost predicate RegionOnMedia(archive: seq<byte>, start: nat, file: seq<byte>, e: Extent) {
    && e.offset + e.numbytes <= |file|
    && forall k :: 0 <= k < e.numbytes ==> ByteOnMedia(archive, BLOCKSIZE * start, file, e.offset, k)
  }

  /** Byte k of the part of the file at offset off stands in the archive at index at + k, if that is in a
      whole block of it. */
  ghost predicate ByteOnMedia(archive: seq<byte>, at: nat, file: seq<byte>, off: nat, k: nat)
    requires off + k < |file|
  {
    at + k < BLOCKSIZE * WholeBlocks(archive) ==> file[off + k] == archive[at + k]
  }

  /** All blocks of a region are there. */
  predicate RegionComplete(archive: seq<byte>, start: nat, numbytes: nat) {
    numbytes == 0 || start + BlocksFor(numbytes) <= WholeBlocks(archive)
  }

  lemma ChunkOfRegion(archive: seq<byte>, start: nat, file: seq<byte>, e: Extent, done: nat, ordinal: nat, chunk: seq<byte>)
    requires RegionOnMedia(archive, start, file, e) && RegionRead(start, e.numbytes, done, ordinal) && done < e.numbytes
    requires IsChunk(archive, ordinal, e.numbytes - done, chunk)
    ensures e.offset + done + |chunk| <= |file| && |chunk| <= e.numbytes - done
    ensures chunk == file[e.offset + done..e.offset + done + |chunk|]
    ensures RegionRead(start, e.numbytes, done + |chunk|, ordinal + BlocksFor(|chunk|)) && |chunk| > 0
    ensures ordinal + BlocksFor(|chunk|) <= WholeBlocks(archive)
  {
    var n := |chunk|;
    RegionReadMore(start, e.numbytes, done, ordinal, n);
    assert BLOCKSIZE * ordinal == BLOCKSIZE * start + done;
    assert ordinal + BlocksFor(n) <= WholeBlocks(archive);
    hide BlocksFor, WholeBlocks;
    forall k | 0 <= k < n ensures chunk[k] == file[e.offset + done + k] {
      assert ByteOnMedia(archive, BLOCKSIZE * start, file, e.offset, done + k);
    }
  }

  lemma RegionCut(archive: seq<byte>, start: nat, size: nat, done: nat, ordinal: nat)
    requires RegionRead(start, size, done, ordinal) && done < size && WholeBlocks(archive) <= ordinal
    ensures !RegionComplete(archive, start, size)
  {
  }

  /** sparse_extract_region: after it the output is the file up to the end of the extent, unless the archive
      ends inside the region. */
  method ExtractRegion(r: Reader, out: Output, e: Extent, ghost file: seq<byte>) returns (ok: bool)
    requires r.Valid() && r.readFullRecords && out.Valid()
    requires |out.data| <= e.offset && e.offset + e.numbytes <= |file| && out.data == file[..|out.data|]
    requires ZeroRange(file, |out.data|, e.offset)
    requires RegionOnMedia(r.archive, r.Ordinal(), file, e)
    modifies r, r.record, out
    ensures r.Valid() && out.Valid()
    ensures ok <==> RegionComplete(r.archive, old(r.Ordinal()), e.numbytes)
    ensures ok ==> out.data == file[..e.offset + e.numbytes]
    ensures ok ==> r.Ordinal() == old(r.Ordinal()) + BlocksFor(e.numbytes)
  {
    hide RegionRead, RegionOnMedia, IsChunk, WholeBlocks, Overlay, Resized, ZeroRange, BlocksFor, Reader.Valid, RegionComplete;
    ghost var start := r.Ordinal();
    RestoreHole(out.data, file, e.offset);
    ok := out.SeekTo(e.offset);
    RegionReadStart(start, e.numbytes);
    if e.numbytes == 0 {
      if out.seekable {
        out.Truncate();
      }
      RegionReadEnd(r.archive, start, e.numbytes, r.Ordinal());
    } else {
      ok := ExtractData(r, out, e, file);
    }
    if ok {
      RestoredEnd(out.data, out.position, file, e.offset, e.numbytes);
    }
  }

  /** The loop of sparse_extract_region. */
  method ExtractData(r: Reader, out: Output, e: Extent, ghost file: seq<byte>) returns (ok: bool)
    requires r.Valid() && r.readFullRecords && out.Valid() && e.numbytes > 0
    requires Restored(out.data, out.position, file, e.offset, 0) && RegionOnMedia(r.archive, r.Ordinal(), file, e)
    modifies r, r.record, out
    ensures r.Valid() && out.Valid()
    ensures ok <==> RegionComplete(r.archive, old(r.Ordinal()), e.numbytes)
    ensures ok ==> Restored(out.data, out.position, file, e.offset, e.numbytes)
    ensures ok ==> r.Ordinal() == old(r.Ordinal()) + BlocksFor(e.numbytes)
  {
    hide RegionRead, RegionOnMedia, IsChunk, WholeBlocks, Overlay, Resized, BlocksFor, Reader.Valid, RegionComplete;
    ghost var start := r.Ordinal();
    var writeSize := e.numbytes;
    RegionReadStart(start, e.numbytes);
    while writeSize > 0
      invariant r.Valid() && out.Valid() && 0 <= writeSize <= e.numbytes
      invariant Restored(out.data, out.position, file, e.offset, e.numbytes - writeSize)
      invariant RegionRead(start, e.numbytes, e.numbytes - writeSize, r.Ordinal())
      invariant writeSize < e.numbytes ==> r.Ordinal() <= WholeBlocks(r.archive)
    {
      ghost var done, ordinal := e.numbytes - writeSize, r.Ordinal();
      var chunk, found, fatal := r.TakeChunk(writeSize);
      if !found {
        RegionCut(r.archive, start, e.numbytes, done, ordinal);
        return false;
      }
      ChunkOfRegion(r.archive, start, file, e, done, ordinal, chunk);
      RestoreMore(out.data, out.position, file, e.offset, done, chunk);
      out.Write(chunk);
      out.offset := out.offset + |chunk|;
      writeSize := writeSize - |chunk|;
    }
    RegionReadEnd(r.archive, start, e.numbytes, r.Ordinal());
    ok := true;
  }

  lemma RegionReadStart(start: nat, size: nat)
    ensures RegionRead(start, size, 0, start)
  {
  }

  lemma RegionReadEnd(archive: seq<byte>, start: nat, size: nat, ordinal: nat)
    requires RegionRead(start, size, size, ordinal)
    ensures ordinal == start + BlocksFor(size)
    ensures size == 0 || ordinal <= WholeBlocks(archive) ==> RegionComplete(archive, start, size)
  {
  }

  lemma RestoredEnd(data: seq<byte>, position: nat, file: seq<byte>, offset: nat, n: nat)
    requires |data| == position == offset + n <= |file|
    requires Restored(data, position, file, offset, n) || data == file[..position]
    ensures data == file[..offset + n]
  {
    assert Resized(data, |data|) == data;
  }

  /** The dumped regions stand in the archive from block ordinal start on. */
  ghost predicate DumpOnMedia(archive: seq<byte>, start: nat, dump: seq<byte>) {
    BLOCKSIZE * start + |dump| <= |archive| && archive[BLOCKSIZE * start..BLOCKSIZE * start + |dump|] == dump
  }

  lemma {:induction false} RegionBlockGrows(map_: seq<Extent>, i: nat, j: nat)
    requires i <= j <= |map_|
    ensures RegionBlock(map_, i) <= RegionBlock(map_, j)
    decreases j
  {
    if i < j {
      RegionBlockGrows(map_, i, j - 1);
    }
  }

  /** As far as the archive goes, it holds the dumped regions from block ordinal start on. */
  ghost predicate DumpPart(archive: seq<byte>, start: nat, dump: seq<byte>) {
    forall k :: 0 <= k < |dump| && BLOCKSIZE * start + k < BLOCKSIZE * WholeBlocks(archive) ==>
      dump[k] == archive[BLOCKSIZE * start + k]
  }

  lemma WholeDump(archive: seq<byte>, start: nat, dump: seq<byte>)
    requires DumpOnMedia(archive, start, dump)
    ensures DumpPart(archive, start, dump) && BLOCKSIZE * start + |dump| <= |archive|
  {
    var part := archive[BLOCKSIZE * start..BLOCKSIZE * start + |dump|];
    assert forall k :: 0 <= k < |dump| ==> dump[k] == part[k] == archive[BLOCKSIZE * start + k];
  }

  lemma FindRegion(archive: seq<byte>, start: nat, dump: seq<byte>, file: seq<byte>, map_: seq<Extent>, i: nat)
    requires DumpPart(archive, start, dump) && i < |map_|
    requires HoldsRegions(dump, file, map_, |map_|) && |dump| == RegionAt(map_, |map_|)
    ensures RegionOnMedia(archive, start + RegionBlock(map_, i), file, map_[i])
  {
    hide RegionBlock, WholeBlocks, BlocksFor;
    assert HoldsRegion(dump, file, map_, i);
    var at, n, off := RegionAt(map_, i), map_[i].numbytes, map_[i].offset;
    var base := BLOCKSIZE * (start + RegionBlock(map_, i));
    forall k | 0 <= k < n ensures ByteOnMedia(archive, base, file, off, k) {
      assert file[off + k] == file[off..off + n][k] == dump[at..at + n][k] == dump[at + k];
    }
  }

  /** Where the blocks of the regions end, and whether they are all there. */
  predicate RegionsComplete(archive: seq<byte>, start: nat, map_: seq<Extent>, i: nat)
    requires i <= |map_|
  {
    RegionBlock(map_, i) == 0 || start + RegionBlock(map_, i) <= WholeBlocks(archive)
  }

  lemma RegionsMore(archive: seq<byte>, start: nat, map_: seq<Extent>, i: nat)
    requires i < |map_| && RegionsComplete(archive, start, map_, i)
    ensures RegionComplete(archive, start + RegionBlock(map_, i), map_[i].numbytes) <==> RegionsComplete(archive, start, map_, i + 1)
    ensures RegionBlock(map_, i + 1) == RegionBlock(map_, i) + BlocksFor(map_[i].numbytes)
  {
  }

  lemma RegionsCut(archive: seq<byte>, start: nat, map_: seq<Extent>, i: nat)
    requires i <= |map_| && !RegionsComplete(archive, start, map_, i)
    ensures !RegionsComplete(archive, start, map_, |map_|)
  {
    RegionBlockGrows(map_, i, |map_|);
  }

  /** The loop of sparse_extract_file: if the archive holds all the regions, the output is the file, byte for
      byte, whether it is a seekable file or a pipe, and exactly the blocks of the regions have been
      consumed; otherwise extraction fails. */
  method ExtractRegions(r: Reader, out: Output, map_: seq<Extent>, ghost file: seq<byte>, ghost dump: seq<byte>)
    returns (ok: bool)
    requires r.Valid() && r.readFullRecords && out.Valid() && out.data == []
    requires Maps(file, map_) && DumpPart(r.archive, r.Ordinal(), dump)
    requires HoldsRegions(dump, file, map_, |map_|) && |dump| == RegionAt(map_, |map_|)
    modifies r, r.record, out
    ensures r.Valid() && out.Valid()
    ensures ok <==> RegionsComplete(r.archive, old(r.Ordinal()), map_, |map_|)
    ensures ok ==> out.data == file && r.Ordinal() == old(r.Ordinal()) + RegionBlock(map_, |map_|)
  {
    hide MapsPrefix, HoldsRegions, RegionBlock, DumpPart, RegionOnMedia, ZeroRange, BlocksFor, Reader.Valid,
         RegionsComplete, RegionComplete;
    ghost var start := r.Ordinal();
    ok := true;
    RegionBlockZero(r.archive, start, map_);
    for i := 0 to |map_|
      invariant ok && r.Valid() && out.Valid() && RegionsComplete(r.archive, start, map_, i)
      invariant End(map_, i) <= |file| && out.data == file[..End(map_, i)]
      invariant r.Ordinal() == start + RegionBlock(map_, i)
    {
      ExtentAt(file, map_, i);
      FindRegion(r.archive, start, dump, file, map_, i);
      RegionsMore(r.archive, start, map_, i);
      ok := ExtractRegion(r, out, map_[i], file);
      if !ok {
        RegionsCut(r.archive, start, map_, i + 1);
        return;
      }
    }
    assert file[..|file|] == file;
  }

  lemma ExtentAt(file: seq<byte>, map_: seq<Extent>, i: nat)
    requires MapsPrefix(file, map_) && i < |map_|
    ensures ExtentOk(file, map_, i)
  {
  }

  lemma RegionBlockZero(archive: seq<byte>, start: nat, map_: seq<Extent>)
    ensures RegionBlock(map_, 0) == 0 && RegionsComplete(archive, start, map_, 0)
  {
  }
}

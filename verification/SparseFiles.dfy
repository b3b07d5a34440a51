/** Sparse files: scanning, dumping and extracting the data regions, src/sparse.c. */
module SparseFiles {
  import opened Bytes
  import opened RecordWriter

  /** A stretch of data; what lies between two stretches is a hole. */
  datatype Extent = Extent(offset: nat, numbytes: nat)

  function End(map_: seq<Extent>, i: nat): nat
    requires i <= |map_|
  {
    if i == 0 then 0 else map_[i - 1].offset + map_[i - 1].numbytes
  }

  ghost predicate ZeroRange(file: seq<byte>, i: int, j: int) {
    forall k :: i <= k < j && 0 <= k < |file| ==> file[k] == NUL
  }

  /** Extent i follows the one before it, lies inside the file, and only zeros are skipped. */
  ghost predicate ExtentOk(file: seq<byte>, map_: seq<Extent>, i: nat)
    requires i < |map_|
  {
    && End(map_, i) <= map_[i].offset && map_[i].offset + map_[i].numbytes <= |file|
    && ZeroRange(file, End(map_, i), map_[i].offset)
  }

  /** All extents are as they should be, and each one that another one follows fills its blocks. */
  ghost predicate MapsPrefix(file: seq<byte>, map_: seq<Extent>) {
    && (forall i :: 0 <= i < |map_| ==> ExtentOk(file, map_, i))
    && (forall i :: 0 <= i < |map_| - 1 ==> map_[i].numbytes % BLOCKSIZE == 0)
  }

  /** The map describes the whole file. */
  ghost predicate Maps(file: seq<byte>, map_: seq<Extent>) {
    |map_| > 0 && MapsPrefix(file, map_) && End(map_, |map_|) == |file|
  }

  function Total(map_: seq<Extent>): nat {
    if map_ == [] then 0 else Total(map_[..|map_| - 1]) + map_[|map_| - 1].numbytes
  }

  lemma TotalSnoc(map_: seq<Extent>, e: Extent)
    ensures Total(map_ + [e]) == Total(map_) + e.numbytes
  {
    assert (map_ + [e])[..|map_|] == map_;
  }

  lemma MapsSnoc(file: seq<byte>, map_: seq<Extent>, e: Extent)
    requires MapsPrefix(file, map_)
    requires |map_| > 0 ==> map_[|map_| - 1].numbytes % BLOCKSIZE == 0
    requires End(map_, |map_|) <= e.offset && e.offset + e.numbytes <= |file|
    requires ZeroRange(file, End(map_, |map_|), e.offset)
    ensures MapsPrefix(file, map_ + [e])
    ensures End(map_ + [e], |map_| + 1) == e.offset + e.numbytes
  {
    var m := map_ + [e];
    forall i | 0 <= i < |m| ensures ExtentOk(file, m, i) {
      assert End(m, i) == End(map_, i);
      if i < |map_| {
        assert ExtentOk(file, map_, i) && m[i] == map_[i];
      }
    }
  }

  /** zero_block_p. */
  method ZeroBlockP(buffer: seq<byte>) returns (zero: bool)
    ensures zero <==> forall k :: 0 <= k < |buffer| ==> buffer[k] == NUL
  {
    for i := 0 to |buffer|
      invariant forall k :: 0 <= k < i ==> buffer[k] == NUL
    {
      if buffer[i] != NUL {
        return false;
      }
    }
    return true;
  }

  /** What the scan has found up to offset: finished extents, and the one in progress (none if its
      length is zero). */
  ghost predicate Scanned(file: seq<byte>, map_: seq<Extent>, sp: Extent, offset: nat, size: nat) {
    && offset <= |file| && (offset < |file| ==> offset % BLOCKSIZE == 0)
    && MapsPrefix(file, map_) && End(map_, |map_|) <= offset
    && (|map_| > 0 ==> map_[|map_| - 1].numbytes % BLOCKSIZE == 0)
    && size == Total(map_) + sp.numbytes
    && if sp.numbytes == 0 then ZeroRange(file, End(map_, |map_|), offset)
       else && sp.offset + sp.numbytes == offset && End(map_, |map_|) <= sp.offset && sp.offset % BLOCKSIZE == 0
            && ZeroRange(file, End(map_, |map_|), sp.offset)
  }

  lemma ScanZero(file: seq<byte>, map_: seq<Extent>, sp: Extent, offset: nat, size: nat, count: nat)
    requires Scanned(file, map_, sp, offset, size) && offset + count <= |file|
    requires count == BLOCKSIZE || offset + count == |file|
    requires offset < |file| && ZeroRange(file, offset, offset + count)
    ensures sp.numbytes == 0 ==> Scanned(file, map_, sp, offset + count, size)
    ensures sp.numbytes > 0 ==> Scanned(file, map_ + [sp], sp.(numbytes := 0), offset + count, size)
  {
    hide MapsPrefix, Total;
    if sp.numbytes > 0 {
      MapsSnoc(file, map_, sp);
      TotalSnoc(map_, sp);
    }
  }

  lemma ScanData(file: seq<byte>, map_: seq<Extent>, sp: Extent, offset: nat, size: nat, count: nat)
    requires Scanned(file, map_, sp, offset, size) && offset + count <= |file| && count > 0
    requires count == BLOCKSIZE || offset + count == |file|
    requires offset < |file|
    ensures var sp' := if sp.numbytes == 0 then Extent(offset, count) else Extent(sp.offset, sp.numbytes + count);
            Scanned(file, map_, sp', offset + count, size + count)
  {
  }

  lemma ScanEnd(file: seq<byte>, map_: seq<Extent>, sp: Extent, size: nat)
    requires Scanned(file, map_, sp, |file|, size)
    ensures var sp' := if sp.numbytes == 0 then Extent(|file|, 0) else sp;
            Maps(file, map_ + [sp']) && size == Total(map_ + [sp'])
  {
    var sp' := if sp.numbytes == 0 then Extent(|file|, 0) else sp;
    MapsSnoc(file, map_, sp');
    TotalSnoc(map_, sp');
  }

  // ----- nothing but data is stored

  /** The block at offset o holds a byte that is not zero. */
  ghost predicate DataBlock(file: seq<byte>, o: nat) {
    exists k :: o <= k < o + 512 && k < |file| && file[k] != 0
  }

  /** The extent is made of whole blocks, or reaches the end of the file, and each of them holds data. */
  ghost predicate Tight(file: seq<byte>, e: Extent) {
    && (e.numbytes > 0 ==> e.offset % 512 == 0)
    && forall j: nat :: e.offset <= 512 * j < e.offset + e.numbytes ==> DataBlock(file, 512 * j)
  }

  /** Every extent is made of data blocks only, and extents do not touch. */
  ghost predicate Precise(file: seq<byte>, map_: seq<Extent>) {
    && (forall i :: 0 <= i < |map_| ==> Tight(file, map_[i]))
    && (forall i :: 0 < i < |map_| ==> End(map_, i) < map_[i].offset)
  }

  /** The same during the scan: the extent in progress is tight, and behind a finished one a block was skipped. */
  ghost predicate PreciseSoFar(file: seq<byte>, map_: seq<Extent>, sp: Extent, offset: nat) {
    && Precise(file, map_) && Tight(file, sp)
    && (|map_| > 0 ==> End(map_, |map_|) < if sp.numbytes > 0 then sp.offset else offset)
  }

  lemma PreciseSnoc(file: seq<byte>, map_: seq<Extent>, e: Extent)
    requires Precise(file, map_) && Tight(file, e) && (|map_| > 0 ==> End(map_, |map_|) < e.offset)
    ensures Precise(file, map_ + [e])
  {
    hide Tight;
    var m := map_ + [e];
    forall i | 0 < i < |m| ensures End(m, i) < m[i].offset {
      assert End(m, i) == End(map_, i);
    }
  }

  lemma PreciseZero(file: seq<byte>, map_: seq<Extent>, sp: Extent, offset: nat, count: nat)
    requires PreciseSoFar(file, map_, sp, offset) && count > 0 && (sp.numbytes > 0 ==> sp.offset + sp.numbytes == offset)
    ensures sp.numbytes == 0 ==> PreciseSoFar(file, map_, sp, offset + count)
    ensures sp.numbytes > 0 ==> PreciseSoFar(file, map_ + [sp], sp.(numbytes := 0), offset + count)
  {
    if sp.numbytes > 0 {
      PreciseSnoc(file, map_, sp);
    }
  }

  lemma PreciseData(file: seq<byte>, map_: seq<Extent>, sp: Extent, offset: nat, count: nat)
    requires PreciseSoFar(file, map_, sp, offset) && 0 < count <= 512 && offset % 512 == 0 && DataBlock(file, offset)
    requires sp.numbytes > 0 ==> sp.offset + sp.numbytes == offset
    ensures var sp' := if sp.numbytes == 0 then Extent(offset, count) else Extent(sp.offset, sp.numbytes + count);
            PreciseSoFar(file, map_, sp', offset + count)
  {
    hide DataBlock, Precise;
    var sp' := if sp.numbytes == 0 then Extent(offset, count) else Extent(sp.offset, sp.numbytes + count);
    forall j: nat | sp'.offset <= 512 * j < sp'.offset + sp'.numbytes ensures DataBlock(file, 512 * j) {
      if offset <= 512 * j {
        assert 512 * j == offset;
      }
    }
  }

  lemma PreciseEnd(file: seq<byte>, map_: seq<Extent>, sp: Extent)
    requires PreciseSoFar(file, map_, sp, |file|)
    ensures Precise(file, map_ + [if sp.numbytes == 0 then Extent(|file|, 0) else sp])
  {
    PreciseSnoc(file, map_, if sp.numbytes == 0 then Extent(|file|, 0) else sp);
  }

  lemma DataSlice(file: seq<byte>, offset: nat, buffer: seq<byte>)
    requires offset + |buffer| <= |file| && buffer == file[offset..offset + |buffer|] && |buffer| <= 512
    requires !(forall k :: 0 <= k < |buffer| ==> buffer[k] == NUL)
    ensures DataBlock(file, offset)
  {
    var k :| 0 <= k < |buffer| && buffer[k] != NUL;
    assert file[offset + k] == buffer[k];
  }

  lemma InProgress(file: seq<byte>, map_: seq<Extent>, sp: Extent, offset: nat, size: nat)
    requires Scanned(file, map_, sp, offset, size)
    ensures sp.numbytes > 0 ==> sp.offset + sp.numbytes == offset
  {
  }

  /** sparse_scan_file_raw: the map it builds describes the whole file, a final hole included, and
      archive_file_size is the number of bytes in its extents.  A block is in an extent exactly if it holds
      a byte that is not zero. */
  method ScanFileRaw(file: seq<byte>) returns (map_: seq<Extent>, size: nat)
    ensures Maps(file, map_) && size == Total(map_) && |map_| <= BlocksFor(|file|) + 1
    ensures Precise(file, map_)
  {
    hide Scanned, Maps, Total, PreciseSoFar, Precise, DataBlock;
    var offset := 0;
    var sp := Extent(0, 0);
    map_, size := [], 0;
    ScanStart(file);
    while true
      invariant Scanned(file, map_, sp, offset, size) && offset <= |file|
      invariant PreciseSoFar(file, map_, sp, offset)
      invariant offset < |file| ==> offset % BLOCKSIZE == 0
      invariant |map_| + (if sp.numbytes > 0 then 1 else 0) <= BlocksFor(offset)
      decreases |file| - offset
    {
      var count := Min(BLOCKSIZE, |file| - offset);
      if count == 0 {
        break;
      }
      var buffer := file[offset..offset + count];
      var zero := ZeroBlockP(buffer);
      InProgress(file, map_, sp, offset, size);
      if zero {
        PreciseZero(file, map_, sp, offset, count);
        ZeroSlice(file, offset, buffer);
        ScanZero(file, map_, sp, offset, size, count);
        if sp.numbytes != 0 {
          map_ := map_ + [sp];
          sp := sp.(numbytes := 0);
        }
      } else {
        ScanData(file, map_, sp, offset, size, count);
        DataSlice(file, offset, buffer);
        PreciseData(file, map_, sp, offset, count);
        if sp.numbytes == 0 {
          sp := sp.(offset := offset);
        }
        sp := sp.(numbytes := sp.numbytes + count);
        size := size + count;
      }
      offset := offset + count;
      if count < BLOCKSIZE {
        break;
      }
    }
    ScanEnd(file, map_, sp, size);
    PreciseEnd(file, map_, sp);
    if sp.numbytes == 0 {
      sp := sp.(offset := offset);
    }
    map_ := map_ + [sp];
  }

  lemma ScanStart(file: seq<byte>)
    ensures Scanned(file, [], Extent(0, 0), 0, 0) && PreciseSoFar(file, [], Extent(0, 0), 0)
  {
  }

  lemma ZeroSlice(file: seq<byte>, offset: nat, buffer: seq<byte>)
    requires offset + |buffer| <= |file| && buffer == file[offset..offset + |buffer|]
    requires forall k :: 0 <= k < |buffer| ==> buffer[k] == NUL
    ensures ZeroRange(file, offset, offset + |buffer|)
  {
    forall k | offset <= k < offset + |buffer| ensures file[k] == NUL {
      assert buffer[k - offset] == file[k];
    }
  }

  // ----- dumping the regions

  /** How many blocks the first i regions take, and where region i starts among the dumped bytes. */
  function RegionBlock(map_: seq<Extent>, i: nat): nat
    requires i <= |map_|
  {
    if i == 0 then 0 else RegionBlock(map_, i - 1) + BlocksFor(map_[i - 1].numbytes)
  }

  function RegionAt(map_: seq<Extent>, i: nat): nat
    requires i <= |map_|
  {
    BLOCKSIZE * RegionBlock(map_, i)
  }

  /** The dumped bytes hold the first n regions of the file. */
  ghost predicate HoldsRegions(dump: seq<byte>, file: seq<byte>, map_: seq<Extent>, n: nat)
    requires n <= |map_|
  {
    forall i :: 0 <= i < n ==> HoldsRegion(dump, file, map_, i)
  }

  ghost predicate HoldsRegion(dump: seq<byte>, file: seq<byte>, map_: seq<Extent>, i: nat)
    requires i < |map_|
  {
    && map_[i].offset + map_[i].numbytes <= |file|
    && RegionAt(map_, i) + map_[i].numbytes <= |dump|
    && file[map_[i].offset..map_[i].offset + map_[i].numbytes]
       == dump[RegionAt(map_, i)..RegionAt(map_, i) + map_[i].numbytes]
  }

  lemma RegionAdded(dump: seq<byte>, file: seq<byte>, map_: seq<Extent>, n: nat, data: seq<byte>, junk: seq<byte>)
    requires n < |map_| && HoldsRegions(dump, file, map_, n) && |dump| == RegionAt(map_, n)
    requires map_[n].offset + map_[n].numbytes <= |file|
    requires data == file[map_[n].offset..map_[n].offset + map_[n].numbytes]
    requires |data| + |junk| == BLOCKSIZE * BlocksFor(|data|)
    ensures HoldsRegions(dump + data + junk, file, map_, n + 1)
    ensures |dump + data + junk| == RegionAt(map_, n + 1)
  {
    hide RegionAt;
    var dump' := dump + data + junk;
    assert RegionAt(map_, n + 1) == RegionAt(map_, n) + BLOCKSIZE * BlocksFor(map_[n].numbytes) by { RegionNext(map_, n); }
    forall i | 0 <= i < n + 1 ensures HoldsRegion(dump', file, map_, i) {
      if i < n {
        assert HoldsRegion(dump, file, map_, i);
        var at, len := RegionAt(map_, i), map_[i].numbytes;
        assert dump'[at..at + len] == dump[at..at + len];
      } else {
        assert dump'[|dump|..|dump| + |data|] == data;
      }
    }
  }

  lemma RegionNext(map_: seq<Extent>, n: nat)
    requires n < |map_|
    ensures RegionAt(map_, n + 1) == RegionAt(map_, n) + BLOCKSIZE * BlocksFor(map_[n].numbytes)
  {
  }

  /** sparse_dump_region for every extent of the map. */
  method DumpRegions(w: Writer, file: seq<byte>, map_: seq<Extent>) returns (ghost dump: seq<byte>)
    requires w.Valid() && Maps(file, map_)
    modifies w, w.record
    ensures w.Valid() && w.Contents() == old(w.Contents()) + dump
    ensures HoldsRegions(dump, file, map_, |map_|) && |dump| == RegionAt(map_, |map_|)
  {
    hide HoldsRegions, RegionAt, Flatten, BlocksFor;
    dump := [];
    DumpStart(file, map_, old(w.Contents()));
    for i := 0 to |map_|
      invariant w.Valid() && w.Contents() == old(w.Contents()) + dump
      invariant HoldsRegions(dump, file, map_, i) && |dump| == RegionAt(map_, i)
    {
      assert ExtentOk(file, map_, i);
      var data := file[map_[i].offset..map_[i].offset + map_[i].numbytes];
      ghost var junk := w.WriteRegion(data);
      RegionAdded(dump, file, map_, i, data, junk);
      Append(old(w.Contents()), dump, data);
      Append(old(w.Contents()), dump + data, junk);
      dump := dump + data + junk;
    }
  }

  lemma DumpStart(file: seq<byte>, map_: seq<Extent>, c: seq<byte>)
    ensures HoldsRegions([], file, map_, 0) && RegionAt(map_, 0) == 0 == BlocksFor(0) && c == c + []
  {
  }

  /** Because only the last extent may end inside a block, the regions take exactly the blocks of a file
      of archive_file_size bytes, so that skipping the member by its size ends at the same block. */
  lemma {:induction false} RegionsFillSize(file: seq<byte>, map_: seq<Extent>, n: nat)
    requires n <= |map_| && MapsPrefix(file, map_)
    ensures RegionAt(map_, n) == BLOCKSIZE * BlocksFor(Total(map_[..n]))
    ensures n < |map_| ==> Total(map_[..n]) % BLOCKSIZE == 0
  {
    hide RegionAt, BlocksFor, ExtentOk;
    DumpStart(file, map_, []);
    if n > 0 {
      RegionsFillSize(file, map_, n - 1);
      assert map_[..n][..n - 1] == map_[..n - 1];
      RegionNext(map_, n - 1);
      BlocksAdd(Total(map_[..n - 1]), map_[n - 1].numbytes);
    }
  }

  /** The extents hold no more than the file. */
  lemma {:induction false} TotalInside(file: seq<byte>, map_: seq<Extent>, n: nat)
    requires n <= |map_| && MapsPrefix(file, map_)
    ensures Total(map_[..n]) <= End(map_, n)
  {
    if n > 0 {
      TotalInside(file, map_, n - 1);
      assert map_[..n][..n - 1] == map_[..n - 1];
      assert ExtentOk(file, map_, n - 1);
    }
  }

  /** Where the scan stores a block and where it does not, is decided by its contents. */
  lemma StoredIff(file: seq<byte>, map_: seq<Extent>, j: nat)
    requires Maps(file, map_) && Precise(file, map_) && 512 * j < |file|
    ensures (exists i :: 0 <= i < |map_| && Inside(map_[i], 512 * j)) <==> DataBlock(file, 512 * j)
  {
    hide Maps, DataBlock, Inside, Tight, MapsPrefix;
    if exists i :: 0 <= i < |map_| && Inside(map_[i], 512 * j) {
      var i :| 0 <= i < |map_| && Inside(map_[i], 512 * j);
      StoredIsData(file, map_[i], j);
    }
    if DataBlock(file, 512 * j) {
      var i := DataIsStored(file, map_, j);
    }
  }

  lemma StoredIsData(file: seq<byte>, e: Extent, j: nat)
    requires Tight(file, e) && Inside(e, 512 * j)
    ensures DataBlock(file, 512 * j)
  {
    hide DataBlock;
  }

  lemma DataIsStored(file: seq<byte>, map_: seq<Extent>, j: nat) returns (i: nat)
    requires Maps(file, map_) && Precise(file, map_) && DataBlock(file, 512 * j)
    ensures i < |map_| && Inside(map_[i], 512 * j)
  {
    hide MapsPrefix;
    var k :| 512 * j <= k < 512 * j + 512 && k < |file| && file[k] != 0;
    i := Covered(file, map_, |map_|, k);
    BlockInside(file, map_[i], j, k);
  }

  lemma BlockInside(file: seq<byte>, e: Extent, j: nat, k: nat)
    requires Tight(file, e) && Inside(e, k) && 512 * j <= k < 512 * j + 512
    ensures Inside(e, 512 * j)
  {
    hide DataBlock;
  }

  predicate Inside(e: Extent, k: nat) {
    e.offset <= k < e.offset + e.numbytes
  }

  lemma {:induction false} Covered(file: seq<byte>, map_: seq<Extent>, n: nat, k: nat) returns (i: nat)
    requires MapsPrefix(file, map_) && n <= |map_| && k < End(map_, n) && k < |file| && file[k] != 0
    ensures i < |map_| && Inside(map_[i], k)
  {
    assert ExtentOk(file, map_, n - 1);
    if map_[n - 1].offset <= k {
      i := n - 1;
    } else {
      i := Covered(file, map_, n - 1, k);
    }
  }
}

/** A sparse file through an archive and back: sparse_dump_file and sparse_extract_file of src/sparse.c. */
module SparseArchive {
  import opened Bytes
  import opened RecordWriter
  import opened RecordReader
  import opened HeaderBlock
  import opened SparseFiles
  import opened SparseExtract
  import opened PaxSparseMap
  import opened PaxMapReading
  import opened OldGnuSparseMap

  /** dump holds all regions of the map, and nothing else. */
  ghost predicate Dumped(dump: seq<byte>, file: seq<byte>, map_: seq<Extent>) {
    && Maps(file, map_) && |map_| <= INTMAX_MAX
    && HoldsRegions(dump, file, map_, |map_|) && |dump| == RegionAt(map_, |map_|)
  }

  /** The bytes after the header block of a sparse member in PAX format 1.0. */
  ghost predicate PaxSparse(bytes: seq<byte>, file: seq<byte>) {
    exists map_, dump :: Dumped(dump, file, map_) && bytes == Padded(MapText(map_)) + dump
  }

  /** The bytes of a sparse member in the old GNU format, header block included; h is what start_header made. */
  ghost predicate OldGnuSparse(bytes: seq<byte>, h: Block, file: seq<byte>) {
    exists map_, dump :: Dumped(dump, file, map_) && AllStorable(map_)
      && Total(map_) <= |file| <= INTMAX_MAX
      && bytes == Finished(MapHeader(SparseHeader(h, |file|, Total(map_)), map_)) + Extensions(map_, SPARSES_IN_OLDGNU_HEADER) + dump
  }

  lemma InsideFile(file: seq<byte>, map_: seq<Extent>)
    requires Maps(file, map_) && |file| <= INTMAX_MAX
    ensures AllInside(map_, |file|) && AllStorable(map_) && Total(map_) <= |file|
  {
    TotalInside(file, map_, |map_|);
    assert map_[..|map_|] == map_;
    forall i | 0 <= i < |map_| ensures map_[i].offset + map_[i].numbytes <= |file| {
      assert ExtentOk(file, map_, i);
    }
  }

  /** sparse_dump_file, pax format 1.0, after the header block. */
  method PaxDumpFile(w: Writer, file: seq<byte>) returns (ghost bytes: seq<byte>)
    requires w.Valid() && |file| <= INTMAX_MAX
    modifies w, w.record
    ensures w.Valid() && w.Contents() == old(w.Contents()) + bytes && PaxSparse(bytes, file)
  {
    hide MapText, Padded, Maps, HoldsRegions, RegionAt, Writer.Contents;
    var map_, size := ScanFileRaw(file);
    PaxDumpMap(w, map_);
    ghost var dump := DumpRegions(w, file, map_);
    bytes := Padded(MapText(map_)) + dump;
    Append(old(w.Contents()), Padded(MapText(map_)), dump);
    assert Dumped(dump, file, map_);
  }

  /** sparse_extract_file, pax format 1.0: the file comes back byte for byte, on a seekable file and on a
      pipe, and exactly the member's blocks have been consumed. */
  method PaxExtractFile(r: Reader, out: Output, size: nat, ghost file: seq<byte>, ghost bytes: seq<byte>) returns (ok: bool)
    requires r.Valid() && r.readFullRecords && out.Valid() && out.data == []
    requires PaxSparse(bytes, file) && DumpOnMedia(r.archive, r.Ordinal(), bytes) && size == |file| <= INTMAX_MAX
    modifies r, r.record, out
    ensures ok && r.Valid() && out.data == file
    ensures BLOCKSIZE * r.Ordinal() == BLOCKSIZE * old(r.Ordinal()) + |bytes|
  {
    hide MapText, Padded, Maps, HoldsRegions, RegionBlock, ParseMap, Reader.Valid, BlocksFor, Readable, DumpOnMedia, DumpPart, RegionsComplete, Reader.Ordinal;
    ghost var start := r.Ordinal();
    ghost var map_, dump :| Dumped(dump, file, map_) && bytes == Padded(MapText(map_)) + dump;
    PaxMapOnMedia(r.archive, start, file, map_, dump);
    var d := PaxDecodeMap(r, size);
    RegionsThere(r.archive, r.Ordinal(), map_, dump);
    ok := ExtractRegions(r, out, d.extents, file, dump);
  }

  lemma RegionsThere(archive: seq<byte>, start: nat, map_: seq<Extent>, dump: seq<byte>)
    requires DumpOnMedia(archive, start, dump) && |dump| == RegionAt(map_, |map_|)
    ensures DumpPart(archive, start, dump) && RegionsComplete(archive, start, map_, |map_|)
  {
    hide RegionBlock;
    WholeDump(archive, start, dump);
  }

  lemma PaxMapOnMedia(archive: seq<byte>, start: nat, file: seq<byte>, map_: seq<Extent>, dump: seq<byte>)
    requires Dumped(dump, file, map_) && |file| <= INTMAX_MAX
    requires DumpOnMedia(archive, start, Padded(MapText(map_)) + dump)
    ensures BLOCKSIZE * start <= Readable(archive)
    ensures var d := ParseMap(archive, BLOCKSIZE * start, Readable(archive), |file|);
            && d.Decoded? && d.extents == map_ && DumpOnMedia(archive, BlocksFor(d.next), dump)
            && BLOCKSIZE * BlocksFor(d.next) == BLOCKSIZE * start + |Padded(MapText(map_))|
  {
    hide MapText, Padded, Maps, HoldsRegions, RegionBlock, ParseMap, BlocksFor, Readable;
    var text, p := Padded(MapText(map_)), BLOCKSIZE * start;
    InsideFile(file, map_);
    SplitSlice(archive, p, text, dump);
    MapRoundTrip(archive, start, |file|, map_);
  }

  lemma SplitSlice(s: seq<byte>, p: nat, a: seq<byte>, b: seq<byte>)
    requires p + |a + b| <= |s| && s[p..p + |a + b|] == a + b
    ensures s[p..p + |a|] == a && s[p + |a|..p + |a| + |b|] == b
  {
    assert s[p..p + |a + b|][..|a|] == s[p..p + |a|];
    assert s[p..p + |a + b|][|a|..] == s[p + |a|..p + |a| + |b|];
  }

  /** sparse_dump_file, old GNU format, into a header that start_header has filled in. */
  method OldGnuDumpFile(w: Writer, h: array<byte>, file: seq<byte>) returns (ghost bytes: seq<byte>)
    requires w.Valid() && |file| <= INTMAX_MAX && h.Length == BLOCKSIZE && h != w.record
    modifies w, w.record, h
    ensures w.Valid() && w.Contents() == old(w.Contents()) + bytes && OldGnuSparse(bytes, old(h[..]), file)
  {
    hide Maps, HoldsRegions, RegionAt, Writer.Contents, MapHeader, SparseHeader, Finished, Extensions, AllStorable, Total;
    var map_, size := ScanFileRaw(file);
    InsideFile(file, map_);
    OldgnuDumpHeader(w, h, map_, |file|, size);
    ghost var head := Finished(MapHeader(SparseHeader(old(h[..]), |file|, size), map_)) + Extensions(map_, SPARSES_IN_OLDGNU_HEADER);
    ghost var dump := DumpRegions(w, file, map_);
    bytes := head + dump;
    Append(old(w.Contents()), head, dump);
    assert Dumped(dump, file, map_);
  }

  /** oldgnu_fixup_header and sparse_extract_file, after the header block has been marked as used: the
      real size comes from the header. */
  method OldGnuExtractFile(r: Reader, header: Block, out: Output,
                           ghost h: Block, ghost file: seq<byte>, ghost bytes: seq<byte>) returns (ok: bool)
    requires r.Valid() && r.readFullRecords && out.Valid() && out.data == []
    requires OldGnuSparse(bytes, h, file) && NoEntries(h)
    requires BLOCKSIZE <= |bytes| && header == bytes[..BLOCKSIZE] && DumpOnMedia(r.archive, r.Ordinal(), bytes[BLOCKSIZE..])
    modifies r, r.record, out
    ensures ok && r.Valid() && out.data == file
    ensures BLOCKSIZE * (r.Ordinal() + 1) == BLOCKSIZE * old(r.Ordinal()) + |bytes|
  {
    hide Maps, HoldsRegions, RegionBlock, Reader.Valid, BlocksFor, DumpOnMedia, DumpPart, RegionsComplete, Reader.Ordinal,
         MapHeader, SparseHeader, Finished, Extensions, LoadMap, ExtensionCount, Total, OffAt, AllStorable;
    ghost var start := r.Ordinal();
    ghost var map_, dump :| Dumped(dump, file, map_) && AllStorable(map_) && Total(map_) <= |file| <= INTMAX_MAX
      && bytes == Finished(MapHeader(SparseHeader(h, |file|, Total(map_)), map_)) + Extensions(map_, SPARSES_IN_OLDGNU_HEADER) + dump;
    ghost var h' := SparseHeader(h, |file|, Total(map_));
    SparseFields(h, |file|, Total(map_));
    OldGnuMapOnMedia(header, h', r.archive, start, file, map_, dump, bytes);
    SparseHeaderReads(h, map_, |file|, Total(map_));
    var realSize := OffFromHeader(header, HEADER_REALSIZE);
    if realSize < 0 {
      return false;
    }
    var l := GetSparseInfo(r, header, realSize);
    RegionsThere(r.archive, r.Ordinal(), map_, dump);
    ok := ExtractRegions(r, out, l.extents, file, dump);
  }

  lemma OldGnuMapOnMedia(header: Block, h: Block, archive: seq<byte>, start: nat, file: seq<byte>, map_: seq<Extent>,
                         dump: seq<byte>, bytes: seq<byte>)
    requires Dumped(dump, file, map_) && AllStorable(map_) && |file| <= INTMAX_MAX
    requires NoEntries(h)
    requires bytes == Finished(MapHeader(h, map_)) + Extensions(map_, SPARSES_IN_OLDGNU_HEADER) + dump
    requires header == bytes[..BLOCKSIZE] && DumpOnMedia(archive, start, bytes[BLOCKSIZE..])
    ensures header == Finished(MapHeader(h, map_))
    ensures var (l, next) := LoadMap(header, archive, start, |file|);
            && Complete(l, map_) && DumpOnMedia(archive, next, dump)
            && BLOCKSIZE * next == BLOCKSIZE * start + |bytes| - BLOCKSIZE - |dump|
  {
    hide Maps, HoldsRegions, RegionBlock, MapHeader, Finished, Extensions, LoadMap, ExtensionCount;
    var first, ext, p := Finished(MapHeader(h, map_)), Extensions(map_, SPARSES_IN_OLDGNU_HEADER), BLOCKSIZE * start;
    Append(first, ext, dump);
    assert bytes[..BLOCKSIZE] == first && bytes[BLOCKSIZE..] == ext + dump;
    InsideFile(file, map_);
    SplitSlice(archive, p, ext, dump);
    assert archive[p..][..|ext|] == archive[p..p + |ext|];
    OldGnuRoundTrip(h, map_, archive, start, |file|);
    ExtensionsLength(map_, SPARSES_IN_OLDGNU_HEADER);
  }

  lemma {:induction false} ExtensionsLength(map_: seq<Extent>, i: nat)
    requires AllStorable(map_)
    ensures |Extensions(map_, i)| == BLOCKSIZE * ExtensionCount(|map_|, i)
    decreases |map_| - i
  {
    hide ExtensionBlock;
    if i < |map_| {
      ExtensionsLength(map_, i + SPARSES_IN_SPARSE_HEADER);
    }
  }

  // ----- end to end

  /** An archive that is closed after what the writer holds, opened by a reader that has taken one block. */
  method CloseAndOpen(w: Writer, blockingFactor: nat, ghost header: Block, ghost bytes: seq<byte>)
    returns (r: Reader, first: Block)
    requires w.Valid() && w.Contents() == header + bytes && 0 < blockingFactor
    modifies w, w.record
    ensures fresh(r) && fresh(r.record) && r.Valid() && r.readFullRecords
    ensures first == header && DumpOnMedia(r.archive, r.Ordinal(), bytes)
  {
    hide Flatten;
    w.WriteEot();
    ghost var rest := Zeros(2 * BLOCKSIZE) + w.record[BLOCKSIZE * w.cur..];
    Append(header + bytes, Zeros(2 * BLOCKSIZE), w.record[BLOCKSIZE * w.cur..]);
    w.Close();
    var archive := Flatten(w.media);
    OnMedia(archive, header, bytes, rest);
    r := new Reader(archive, blockingFactor, true);
    hide *;
    var found;
    first, found := TakeBlock(r);
    OneTaken(archive, header, bytes);
  }

  lemma OnMedia(archive: seq<byte>, header: Block, bytes: seq<byte>, rest: seq<byte>)
    requires archive == header + bytes + rest
    ensures header + bytes <= archive
  {
  }

  lemma OneTaken(archive: seq<byte>, header: Block, bytes: seq<byte>)
    requires header + bytes <= archive
    ensures 0 < WholeBlocks(archive) && BlockAt(archive, 0) == header && DumpOnMedia(archive, 1, bytes)
  {
    var both := header + bytes;
    assert archive[..BLOCKSIZE] == both[..BLOCKSIZE] == header;
    assert archive[BLOCKSIZE..BLOCKSIZE + |bytes|] == both[BLOCKSIZE..] == bytes;
  }

  /** Scan, dump, close, open, decode, extract: every file comes back, whatever the two blocking factors,
      however the medium splits its reads, and whatever kind of output there is. */
  method PaxSparseRoundTrip(file: seq<byte>, header: Block, writeFactor: nat, readFactor: nat, seekable: bool)
    returns (restored: seq<byte>)
    requires 0 < writeFactor && 0 < readFactor && |file| <= INTMAX_MAX
    ensures restored == file
  {
    hide *;
    var w := new Writer(writeFactor);
    w.WriteBlock(header);
    ghost var bytes := PaxDumpFile(w, file);
    OneMember(header, bytes);
    var r, first := CloseAndOpen(w, readFactor, header, bytes);
    var out := new Output(seekable);
    var ok := PaxExtractFile(r, out, |file|, file, bytes);
    restored := out.data;
  }

  lemma OneMember(header: Block, bytes: seq<byte>)
    ensures [] + header + bytes == header + bytes
  {
  }

  method OldGnuSparseRoundTrip(file: seq<byte>, h: array<byte>, writeFactor: nat, readFactor: nat, seekable: bool)
    returns (restored: seq<byte>)
    requires 0 < writeFactor && 0 < readFactor && |file| <= INTMAX_MAX
    requires h.Length == BLOCKSIZE && NoEntries(h[..])
    modifies h
    ensures restored == file
  {
    hide *;
    var w := new Writer(writeFactor);
    ghost var start := h[..];
    ghost var bytes := OldGnuDumpFile(w, h, file);
    HeaderFirst(bytes, start, file);
    var r, first := CloseAndOpen(w, readFactor, bytes[..BLOCKSIZE], bytes[BLOCKSIZE..]);
    var out := new Output(seekable);
    var ok := OldGnuExtractFile(r, first, out, start, file, bytes);
    restored := out.data;
  }

  lemma HeaderFirst(bytes: seq<byte>, h: Block, file: seq<byte>)
    requires OldGnuSparse(bytes, h, file)
    ensures BLOCKSIZE <= |bytes| && [] + bytes == bytes[..BLOCKSIZE] + bytes[BLOCKSIZE..]
  {
    hide Finished, MapHeader, SparseHeader, Extensions, Dumped, Total;
  }
}

/** The sparse map of the old GNU format: four extents in the header block, and twenty-one in each of the
    extension blocks that follow it (src/sparse.c). */
module OldGnuSparseMap {
  import opened Bytes
  import opened HeaderNumbers
  import opened HeaderNumberLaws
  import opened HeaderBlock
  import opened RecordWriter
  import opened RecordReader
  import opened ArchiveFormat
  import opened SparseFiles

  const SPARSES_IN_OLDGNU_HEADER: nat := 4
  const SPARSES_IN_SPARSE_HEADER: nat := 21
  const ENTRY: nat := 24
  const HEADER_MAP: nat := 386        // offsets in the header: the extents, and isextended
  const HEADER_EXTENDED: nat := 482
  const HEADER_TYPE: nat := 156
  const HEADER_SIZE: nat := 124
  const HEADER_REALSIZE: nat := 483
  const GNUTYPE_SPARSE: byte := 83
  const BLOCK_EXTENDED: nat := 504    // offset of isextended in an extension block

  // ----- storing the map

  predicate Storable(e: Extent) {
    e.offset <= INTMAX_MAX && e.numbytes <= INTMAX_MAX
  }

  ghost predicate AllStorable(map_: seq<Extent>) {
    forall i :: 0 <= i < |map_| ==> Storable(map_[i])
  }

  function OffText(x: nat): (t: seq<byte>)
    requires x <= INTMAX_MAX
    ensures |t| == 12
  {
    LongSizeFits(x);
    FieldTextSize(true, x, 12);
    FieldText(true, x, 12).value
  }

  function EntryText(e: Extent): (t: seq<byte>)
    requires Storable(e)
    ensures |t| == ENTRY
  {
    OffText(e.offset) + OffText(e.numbytes)
  }

  /** The block b with extents i .. i + n of the map stored from index at on. */
  ghost function Stored(b: seq<byte>, at: nat, map_: seq<Extent>, i: nat, n: nat): (r: seq<byte>)
    requires i + n <= |map_| && at + ENTRY * n <= |b| && AllStorable(map_)
    ensures |r| == |b|
  {
    if n == 0 then b
    else Put(Stored(b, at, map_, i, n - 1), at + ENTRY * (n - 1), EntryText(map_[i + n - 1]))
  }

  /** OFF_TO_CHARS. */
  method OffToChars(x: nat, where: array<byte>, at: nat)
    requires x <= INTMAX_MAX && at + 12 <= where.Length
    modifies where
    ensures where[..] == Put(old(where[..]), at, OffText(x))
  {
    hide FieldText, Put;
    LongSizeFits(x);
    OffValue(x);
    var ok := ToChars(true, x, 8, where, at, 12);
  }

  lemma OffValue(x: nat)
    requires x <= INTMAX_MAX
    ensures ValueOfSize(x, 8)
  {
    Pow2Limits();
  }

  /** One turn of oldgnu_store_sparse_info. */
  method StoreEntry(e: Extent, where: array<byte>, at: nat)
    requires Storable(e) && at + ENTRY <= where.Length
    modifies where
    ensures where[..] == Put(old(where[..]), at, EntryText(e))
  {
    hide Put, OffText;
    PutTwice(where[..], at, OffText(e.offset), OffText(e.numbytes));
    OffToChars(e.offset, where, at);
    OffToChars(e.numbytes, where, at + 12);
  }

  /** oldgnu_store_sparse_info: as many of the remaining extents as there is room for. */
  method StoreSparseInfo(map_: seq<Extent>, index: nat, where: array<byte>, at: nat, capacity: nat) returns (i: nat)
    requires index <= |map_| && AllStorable(map_) && at + ENTRY * capacity <= where.Length
    modifies where
    ensures i == Min(|map_|, index + capacity)
    ensures where[..] == Stored(old(where[..]), at, map_, index, i - index)
  {
    hide Put, EntryText;
    i := index;
    var sp, left := at, capacity;
    while i < |map_| && left > 0
      invariant index <= i <= |map_| && 0 <= left == capacity - (i - index) && sp == at + ENTRY * (i - index)
      invariant where[..] == Stored(old(where[..]), at, map_, index, i - index)
    {
      StoreEntry(map_[i], where, sp);
      left, sp, i := left - 1, sp + ENTRY, i + 1;
    }
  }

  /** The extension block that holds the extents from index i on. */
  ghost function ExtensionBlock(map_: seq<Extent>, i: nat): (b: seq<byte>)
    requires i < |map_| && AllStorable(map_)
    ensures |b| == BLOCKSIZE
  {
    var n := Min(SPARSES_IN_SPARSE_HEADER, |map_| - i);
    Put(Stored(Zeros(BLOCKSIZE), 0, map_, i, n), BLOCK_EXTENDED, [if i + n < |map_| then 1 else 0])
  }

  ghost function Extensions(map_: seq<Extent>, i: nat): seq<byte>
    requires AllStorable(map_)
    decreases |map_| - i
  {
    if |map_| <= i then [] else ExtensionBlock(map_, i) + Extensions(map_, i + SPARSES_IN_SPARSE_HEADER)
  }

  /** The header block h with the first extents of the map. */
  ghost function MapHeader(h: seq<byte>, map_: seq<Extent>): (b: seq<byte>)
    requires |h| == BLOCKSIZE && AllStorable(map_)
    ensures |b| == BLOCKSIZE
  {
    var n := Min(SPARSES_IN_OLDGNU_HEADER, |map_|);
    Put(Stored(h, HEADER_MAP, map_, 0, n), HEADER_EXTENDED, [if n < |map_| then 1 else 0])
  }

  /** A header h that start_header made, with type flag, real size and stored size. */
  ghost function SparseHeader(h: seq<byte>, realSize: nat, size: nat): (b: seq<byte>)
    requires |h| == BLOCKSIZE && realSize <= INTMAX_MAX && size <= INTMAX_MAX
    ensures |b| == BLOCKSIZE
  {
    Put(Put(Put(h, HEADER_TYPE, [GNUTYPE_SPARSE]), HEADER_REALSIZE, OffText(realSize)), HEADER_SIZE, OffText(size))
  }

  /** oldgnu_dump_header.  The flag that oldgnu_dump_header sets early is left out: it is stored again
      after the extents. */
  method OldgnuDumpHeader(w: Writer, h: array<byte>, map_: seq<Extent>, realSize: nat, size: nat)
    requires w.Valid() && AllStorable(map_) && h.Length == BLOCKSIZE && h != w.record
    requires realSize <= INTMAX_MAX && size <= INTMAX_MAX
    modifies w, w.record, h
    ensures w.Valid()
    ensures w.Contents() == old(w.Contents())
              + (Finished(MapHeader(SparseHeader(old(h[..]), realSize, size), map_)) + Extensions(map_, SPARSES_IN_OLDGNU_HEADER))
  {
    hide Put, Finished, MapHeader, Extensions, Writer.Contents, OffText, Flatten, Padded;
    StoreByte(h, HEADER_TYPE, GNUTYPE_SPARSE);
    OffToChars(realSize, h, HEADER_REALSIZE);
    OffToChars(size, h, HEADER_SIZE);
    OldgnuDumpMap(w, h, map_);
  }

  /** Its second half, from the extents on. */
  method OldgnuDumpMap(w: Writer, h: array<byte>, map_: seq<Extent>)
    requires w.Valid() && AllStorable(map_) && h.Length == BLOCKSIZE && h != w.record
    modifies w, w.record, h
    ensures w.Valid()
    ensures w.Contents()
         == old(w.Contents()) + (Finished(MapHeader(old(h[..]), map_)) + Extensions(map_, SPARSES_IN_OLDGNU_HEADER))
  {
    hide Put, Finished, Stored, ExtensionBlock, Padded, Flatten, Writer.Contents;
    var i := StoreSparseInfo(map_, 0, h, HEADER_MAP, SPARSES_IN_OLDGNU_HEADER);
    StoreByte(h, HEADER_EXTENDED, if i < |map_| then 1 else 0);
    SimpleFinishHeader(h);
    ghost var start := w.Contents();
    ghost var header := h[..];
    w.WriteBlock(h[..]);
    ghost var left := Extensions(map_, SPARSES_IN_OLDGNU_HEADER);
    ghost var next := SPARSES_IN_OLDGNU_HEADER;
    while i < |map_|
      invariant w.Valid() && i == Min(|map_|, next)
      invariant w.Contents() + Extensions(map_, next) == start + header + left
      decreases |map_| - i
    {
      ghost var c := w.Contents();
      Append(c, ExtensionBlock(map_, i), Extensions(map_, i + SPARSES_IN_SPARSE_HEADER));
      var b;
      b, i := StoreExtension(map_, i);
      w.WriteBlock(b);
      next := next + SPARSES_IN_SPARSE_HEADER;
    }
    Append(start, header, left);
    Nothing(w.Contents());
  }

  lemma Nothing(c: seq<byte>)
    ensures c + [] == c
  {
  }

  /** An extension block is zeroed and filled. */
  method StoreExtension(map_: seq<Extent>, index: nat) returns (b: seq<byte>, i: nat)
    requires index < |map_| && AllStorable(map_)
    ensures b == ExtensionBlock(map_, index) && i == Min(|map_|, index + SPARSES_IN_SPARSE_HEADER)
  {
    hide Put, Stored;
    var blk := new byte[BLOCKSIZE](_ => NUL);
    assert blk[..] == Zeros(BLOCKSIZE);
    i := StoreSparseInfo(map_, index, blk, 0, SPARSES_IN_SPARSE_HEADER);
    ghost var stored := blk[..];
    if i < |map_| {
      StoreByte(blk, BLOCK_EXTENDED, 1);
    } else {
      StoredElsewhere(Zeros(BLOCKSIZE), 0, map_, index, i - index, BLOCK_EXTENDED);
      PutSame(stored, BLOCK_EXTENDED);
    }
    b := blk[..];
  }

  lemma PutSame(b: seq<byte>, at: nat)
    requires at < |b|
    ensures Put(b, at, [b[at]]) == b
  {
  }

  /** Storing extents changes nothing beside them. */
  lemma {:induction false} StoredElsewhere(b: seq<byte>, at: nat, map_: seq<Extent>, i: nat, n: nat, k: nat)
    requires i + n <= |map_| && at + ENTRY * n <= |b| && AllStorable(map_)
    requires k < |b| && (k < at || at + ENTRY * n <= k)
    ensures Stored(b, at, map_, i, n)[k] == b[k]
  {
    hide EntryText;
    if n > 0 {
      StoredElsewhere(b, at, map_, i, n - 1, k);
    }
  }

  // ----- loading it

  /** OFF_FROM_HEADER: -1 if the field is not a number in range. */
  function OffAt(b: seq<byte>, at: nat): int
    requires at + 12 <= |b|
  {
    var v := ParseField(b[at..at + 12], true, 0, INTMAX_MAX, false);
    if v.Some? then v.value else -1
  }

  /** The extents found so far, and what the last call of oldgnu_add_sparse returned: add_ok,
      add_finish or add_fail; or the archive ended. */
  datatype Loaded = More(extents: seq<Extent>) | Done(extents: seq<Extent>) | Invalid | Truncated

  function AddSparse(b: seq<byte>, at: nat, size: nat, l: Loaded): Loaded
    requires at + ENTRY <= |b|
  {
    if !l.More? then l
    else if b[at + 12] == NUL then Done(l.extents)
    else
      var offset, numbytes := OffAt(b, at), OffAt(b, at + 12);
      if offset < 0 || numbytes < 0 || INTMAX_MAX < offset + numbytes || size < offset + numbytes then Invalid
      else More(l.extents + [Extent(offset, numbytes)])
  }

  /** The first n entries from index at on. */
  function AddMany(b: seq<byte>, at: nat, n: nat, size: nat, l: Loaded): Loaded
    requires at + ENTRY * n <= |b|
  {
    if n == 0 then l else AddSparse(b, at + ENTRY * (n - 1), size, AddMany(b, at, n - 1, size, l))
  }

  /** The extension blocks from an ordinal on, while there are more. */
  function LoadExtensions(archive: seq<byte>, ordinal: nat, extended: bool, size: nat, l: Loaded): (r: (Loaded, nat))
    decreases |archive| - BLOCKSIZE * ordinal
  {
    if !l.More? || !extended then (l, ordinal)
    else if WholeBlocks(archive) <= ordinal then (Truncated, ordinal)
    else
      var b := BlockAt(archive, ordinal);
      LoadExtensions(archive, ordinal + 1, b[BLOCK_EXTENDED] != NUL, size,
                     AddMany(b, 0, SPARSES_IN_SPARSE_HEADER, size, l))
  }

  /** The map of a member whose header is h and whose other blocks start at an ordinal. */
  function LoadMap(h: Block, archive: seq<byte>, ordinal: nat, size: nat): (Loaded, nat) {
    LoadExtensions(archive, ordinal, h[HEADER_EXTENDED] != NUL, size,
                   AddMany(h, HEADER_MAP, SPARSES_IN_OLDGNU_HEADER, size, More([])))
  }

  method OffFromHeader(b: seq<byte>, at: nat) returns (x: int)
    requires at + 12 <= |b|
    ensures x == OffAt(b, at)
  {
    var v := FromHeader(b[at..at + 12], true, 0, INTMAX_MAX, false);
    x := if v.Some? then v.value else -1;
  }

  /** oldgnu_add_sparse. */
  method AddSparseEntry(b: seq<byte>, at: nat, size: nat, l: Loaded) returns (r: Loaded)
    requires at + ENTRY <= |b| && l.More?
    ensures r == AddSparse(b, at, size, l)
  {
    hide OffAt;
    if b[at + 12] == NUL {
      return Done(l.extents);
    }
    var offset := OffFromHeader(b, at);
    var numbytes := OffFromHeader(b, at + 12);
    if offset < 0 || numbytes < 0 || INTMAX_MAX < offset + numbytes || size < offset + numbytes {
      return Invalid;
    }
    r := More(l.extents + [Extent(offset, numbytes)]);
  }

  /** The loop over the entries of one block. */
  method AddEntries(b: seq<byte>, at: nat, n: nat, size: nat, l: Loaded) returns (r: Loaded)
    requires at + ENTRY * n <= |b|
    ensures r == AddMany(b, at, n, size, l)
  {
    hide AddSparse;
    r := l;
    var i := 0;
    while i < n && r.More?
      invariant i <= n && r == AddMany(b, at, i, size, l)
    {
      r := AddSparseEntry(b, at + ENTRY * i, size, r);
      i := i + 1;
    }
    AddedEnough(b, at, i, n, size, l);
  }

  lemma {:induction false} AddedEnough(b: seq<byte>, at: nat, i: nat, n: nat, size: nat, l: Loaded)
    requires i <= n && at + ENTRY * n <= |b|
    requires i == n || !AddMany(b, at, i, size, l).More?
    ensures AddMany(b, at, n, size, l) == AddMany(b, at, i, size, l)
    decreases n
  {
    if i < n {
      AddedEnough(b, at, i, n - 1, size, l);
    }
  }

  /** oldgnu_get_sparse_info: the map, and the reader stands after the last extension block. */
  method GetSparseInfo(r: Reader, h: Block, size: nat) returns (l: Loaded)
    requires r.Valid() && r.readFullRecords
    modifies r, r.record
    ensures r.Valid() && (l, r.Ordinal()) == LoadMap(h, r.archive, old(r.Ordinal()), size)
  {
    hide AddMany, BlockAt, WholeBlocks, Reader.Valid, Reader.Ordinal;
    l := AddEntries(h, HEADER_MAP, SPARSES_IN_OLDGNU_HEADER, size, More([]));
    var extended := h[HEADER_EXTENDED] != NUL;
    while l.More? && extended
      invariant r.Valid()
      invariant LoadExtensions(r.archive, r.Ordinal(), extended, size, l) == LoadMap(h, r.archive, old(r.Ordinal()), size)
      decreases |r.archive| - BLOCKSIZE * r.Ordinal()
    {
      ghost var ordinal := r.Ordinal();
      var b, found := TakeBlock(r);
      if !found {
        l := Truncated;
        break;
      }
      l := AddEntries(b, 0, SPARSES_IN_SPARSE_HEADER, size, l);
      extended := b[BLOCK_EXTENDED] != NUL;
    }
  }

  /** find_next_block and set_next_block_after. */
  method TakeBlock(r: Reader) returns (b: Block, found: bool)
    requires r.Valid() && r.readFullRecords
    modifies r, r.record
    ensures r.Valid() && (found <==> old(r.Ordinal()) < WholeBlocks(r.archive))
    ensures found ==> b == BlockAt(r.archive, old(r.Ordinal()))
    ensures r.Ordinal() == old(r.Ordinal()) + if found then 1 else 0
    ensures found ==> BLOCKSIZE * r.Ordinal() <= |r.archive|
  {
    hide Reader.OnBoundary, Reader.PositionOk, Buffered;
    var fatal;
    found, fatal := r.FindNextBlock();
    b := Zeros(BLOCKSIZE);
    if found {
      BufferedBlock(r.record[..], r.archive, r.start, r.cur, r.end);
      b := r.record[BLOCKSIZE * r.cur..BLOCKSIZE * (r.cur + 1)];
      r.SetNextBlockAfter(BLOCKSIZE * r.cur);
    }
  }

  // ----- loading inverts storing

  /** A stored number is read back, and it never starts with the NUL that ends a map. */
  lemma OffRoundTrip(b: seq<byte>, at: nat, x: nat)
    requires x <= INTMAX_MAX && at + 12 <= |b| && b[at..at + 12] == OffText(x)
    ensures OffAt(b, at) == x && b[at] != NUL
  {
    hide ParseField;
    LongSizeFits(x);
    FieldRoundTrip(true, x, 12, true, 0, INTMAX_MAX);
    FirstByte(x);
    assert b[at] == b[at..at + 12][0];
  }

  lemma FirstByte(x: nat)
    requires x <= INTMAX_MAX
    ensures OffText(x)[0] != NUL
  {
    hide Octal, Base256, MaxVal;
    LongSizeFits(x);
    assert OctalAt(Octal(x, 11), 0, 11);
    assert IsOctal(Octal(x, 11)[0]);
  }

  lemma EntryRoundTrip(b: seq<byte>, at: nat, e: Extent, size: nat, extents: seq<Extent>)
    requires at + ENTRY <= |b| && Storable(e) && b[at..at + ENTRY] == EntryText(e)
    requires e.offset + e.numbytes <= size <= INTMAX_MAX
    ensures AddSparse(b, at, size, More(extents)) == More(extents + [e])
  {
    hide OffText, OffAt;
    assert b[at..at + 12] == b[at..at + ENTRY][..12] == OffText(e.offset);
    assert b[at + 12..at + ENTRY] == b[at..at + ENTRY][12..] == OffText(e.numbytes);
    OffRoundTrip(b, at, e.offset);
    OffRoundTrip(b, at + 12, e.numbytes);
  }

  /** Entries stored later do not disturb entry k. */
  lemma {:induction false} StoredEntry(b: seq<byte>, at: nat, map_: seq<Extent>, i: nat, n: nat, k: nat)
    requires i + n <= |map_| && at + ENTRY * n <= |b| && AllStorable(map_) && k < n
    ensures Stored(b, at, map_, i, n)[at + ENTRY * k..at + ENTRY * (k + 1)] == EntryText(map_[i + k])
  {
    hide EntryText;
    if k < n - 1 {
      StoredEntry(b, at, map_, i, n - 1, k);
      PutBeside(Stored(b, at, map_, i, n - 1), at + ENTRY * (n - 1), EntryText(map_[i + n - 1]), at + ENTRY * k, at + ENTRY * (k + 1));
    }
  }

  lemma PutBeside(b: seq<byte>, at: nat, text: seq<byte>, i: nat, j: nat)
    requires at + |text| <= |b| && i <= j <= |b| && (j <= at || at + |text| <= i)
    ensures Put(b, at, text)[i..j] == b[i..j]
  {
  }

  /** The entries at index at of block b are extents i .. i + n of the map. */
  ghost predicate HoldsEntries(b: seq<byte>, at: nat, map_: seq<Extent>, i: nat, n: nat) {
    && i + n <= |map_| && at + ENTRY * n <= |b| && AllStorable(map_)
    && forall k :: 0 <= k < n ==> HoldsEntry(b, at, map_, i, k)
  }

  ghost predicate HoldsEntry(b: seq<byte>, at: nat, map_: seq<Extent>, i: nat, k: nat)
    requires i + k < |map_| && AllStorable(map_) && at + ENTRY * (k + 1) <= |b|
  {
    b[at + ENTRY * k..at + ENTRY * (k + 1)] == EntryText(map_[i + k])
  }

  lemma {:induction false} EntriesRoundTrip(b: seq<byte>, at: nat, map_: seq<Extent>, i: nat, n: nat, size: nat)
    requires HoldsEntries(b, at, map_, i, n) && size <= INTMAX_MAX && AllInside(map_, size)
    ensures AddMany(b, at, n, size, More(map_[..i])) == More(map_[..i + n])
  {
    hide AddSparse, EntryText;
    if n > 0 {
      EntriesRoundTrip(b, at, map_, i, n - 1, size);
      assert HoldsEntry(b, at, map_, i, n - 1);
      EntryRoundTrip(b, at + ENTRY * (n - 1), map_[i + n - 1], size, map_[..i + n - 1]);
      assert map_[..i + n - 1] + [map_[i + n - 1]] == map_[..i + n];
    }
  }

  /** All extents lie inside a file of the given size. */
  ghost predicate AllInside(map_: seq<Extent>, size: nat) {
    forall i :: 0 <= i < |map_| ==> map_[i].offset + map_[i].numbytes <= size
  }

  /** A block that is not full ends the map at its first free entry. */
  lemma PartialBlock(b: seq<byte>, at: nat, map_: seq<Extent>, i: nat, n: nat, capacity: nat, size: nat)
    requires HoldsEntries(b, at, map_, i, n) && size <= INTMAX_MAX && AllInside(map_, size)
    requires n < capacity && at + ENTRY * capacity <= |b| && b[at + ENTRY * n + 12] == NUL
    ensures AddMany(b, at, capacity, size, More(map_[..i])) == Done(map_[..i + n])
  {
    EntriesRoundTrip(b, at, map_, i, n, size);
    AddedEnough(b, at, n + 1, capacity, size, More(map_[..i]));
  }

  /** Block b, made from a block with free entries, holds n extents from i on, and the flag after them. */
  ghost predicate Made(b: seq<byte>, at: nat, flag: nat, map_: seq<Extent>, i: nat, n: nat, base: seq<byte>) {
    && i + n <= |map_| && AllStorable(map_)
    && |base| == BLOCKSIZE && at + ENTRY * n <= flag < BLOCKSIZE
    && (forall k :: at <= k < flag ==> base[k] == NUL)
    && b == Put(Stored(base, at, map_, i, n), flag, [if i + n < |map_| then 1 else 0])
  }

  lemma MadeHolds(b: seq<byte>, at: nat, flag: nat, map_: seq<Extent>, i: nat, n: nat, base: seq<byte>)
    requires Made(b, at, flag, map_, i, n, base)
    ensures HoldsEntries(b, at, map_, i, n) && |b| == BLOCKSIZE
    ensures b[flag] != NUL <==> i + n < |map_|
    ensures at + ENTRY * n + 12 < flag ==> b[at + ENTRY * n + 12] == NUL
  {
    hide Stored, Put, EntryText;
    assert b[flag] == b[flag..flag + 1][0];
    forall k | 0 <= k < n ensures HoldsEntry(b, at, map_, i, k) {
      StoredEntry(base, at, map_, i, n, k);
      PutBeside(Stored(base, at, map_, i, n), flag, [if i + n < |map_| then 1 else 0], at + ENTRY * k, at + ENTRY * (k + 1));
    }
    if at + ENTRY * n + 12 < flag {
      StoredElsewhere(base, at, map_, i, n, at + ENTRY * n + 12);
    }
  }

  /** What such a block means to the reader. */
  lemma BlockRoundTrip(b: seq<byte>, at: nat, flag: nat, map_: seq<Extent>, i: nat, n: nat, capacity: nat, base: seq<byte>, size: nat)
    requires Made(b, at, flag, map_, i, n, base) && AllInside(map_, size) && size <= INTMAX_MAX
    requires flag == at + ENTRY * capacity && n == Min(capacity, |map_| - i) && |b| == BLOCKSIZE
    ensures AddMany(b, at, capacity, size, More(map_[..i])) == (if n < capacity then Done(map_) else More(map_[..i + n]))
    ensures b[flag] != NUL <==> i + n < |map_|
  {
    MadeHolds(b, at, flag, map_, i, n, base);
    hide Made, AddMany, HoldsEntries;
    if n < capacity {
      PartialBlock(b, at, map_, i, n, capacity, size);
      assert map_[..i + n] == map_;
    } else {
      EntriesRoundTrip(b, at, map_, i, n, size);
    }
  }

  function ExtensionCount(n: nat, i: nat): nat
    decreases n - i
  {
    if n <= i then 0 else 1 + ExtensionCount(n, i + SPARSES_IN_SPARSE_HEADER)
  }

  /** The loader leaves the state l with map_ as its extents. */
  ghost predicate Complete(l: Loaded, map_: seq<Extent>) {
    (l.More? || l.Done?) && l.extents == map_
  }

  lemma {:induction false} ExtensionsRoundTrip(archive: seq<byte>, ordinal: nat, map_: seq<Extent>, i: nat, size: nat)
    requires i < |map_| && AllStorable(map_) && AllInside(map_, size) && size <= INTMAX_MAX
    requires Extensions(map_, i) <= archive[Min(BLOCKSIZE * ordinal, |archive|)..]
    ensures var (l, next) := LoadExtensions(archive, ordinal, true, size, More(map_[..i]));
            Complete(l, map_) && next == ordinal + ExtensionCount(|map_|, i)
    decreases |map_| - i
  {
    hide Stored, Put, AddMany, ExtensionBlock;
    var b, j := ExtensionBlock(map_, i), i + SPARSES_IN_SPARSE_HEADER;
    NextBlock(archive, ordinal, b, Extensions(map_, j));
    ExtensionRoundTrip(map_, i, size);
    if j < |map_| {
      ExtensionsRoundTrip(archive, ordinal + 1, map_, j, size);
    } else {
      assert map_[..|map_|] == map_;
    }
  }

  lemma ExtensionRoundTrip(map_: seq<Extent>, i: nat, size: nat)
    requires i < |map_| && AllStorable(map_) && AllInside(map_, size) && size <= INTMAX_MAX
    ensures var b, n := ExtensionBlock(map_, i), Min(SPARSES_IN_SPARSE_HEADER, |map_| - i);
            && AddMany(b, 0, SPARSES_IN_SPARSE_HEADER, size, More(map_[..i]))
               == (if n < SPARSES_IN_SPARSE_HEADER then Done(map_) else More(map_[..i + n]))
            && (b[BLOCK_EXTENDED] != NUL <==> i + n < |map_|)
  {
    hide Stored, Put, AddMany;
    var n := Min(SPARSES_IN_SPARSE_HEADER, |map_| - i);
    BlockRoundTrip(ExtensionBlock(map_, i), 0, BLOCK_EXTENDED, map_, i, n, SPARSES_IN_SPARSE_HEADER, Zeros(BLOCKSIZE), size);
  }

  lemma NextBlock(archive: seq<byte>, ordinal: nat, b: seq<byte>, rest: seq<byte>)
    requires |b| == BLOCKSIZE && b + rest <= archive[Min(BLOCKSIZE * ordinal, |archive|)..]
    ensures ordinal < WholeBlocks(archive) && BlockAt(archive, ordinal) == b
    ensures rest <= archive[Min(BLOCKSIZE * (ordinal + 1), |archive|)..]
  {
    var at := Min(BLOCKSIZE * ordinal, |archive|);
    var tail := archive[at..];
    assert |tail| >= BLOCKSIZE;
    assert tail[..BLOCKSIZE] == archive[at..at + BLOCKSIZE];
    assert tail[..BLOCKSIZE] == b;
    assert tail[BLOCKSIZE..] == archive[at + BLOCKSIZE..];
    assert rest == (b + rest)[BLOCKSIZE..];
  }

  /** A header whose map has not been stored yet. */
  ghost predicate NoEntries(h: seq<byte>) {
    |h| == BLOCKSIZE && forall k :: HEADER_MAP <= k < HEADER_EXTENDED ==> h[k] == NUL
  }

  /** Storing and loading: whatever number of extents, the map comes back and exactly the extension
      blocks that were written have been read. */
  lemma OldGnuRoundTrip(h: Block, map_: seq<Extent>, archive: seq<byte>, ordinal: nat, size: nat)
    requires AllStorable(map_) && AllInside(map_, size) && size <= INTMAX_MAX
    requires NoEntries(h)
    requires Extensions(map_, SPARSES_IN_OLDGNU_HEADER) <= archive[Min(BLOCKSIZE * ordinal, |archive|)..]
    ensures var (l, next) := LoadMap(Finished(MapHeader(h, map_)), archive, ordinal, size);
            Complete(l, map_) && next == ordinal + ExtensionCount(|map_|, SPARSES_IN_OLDGNU_HEADER)
  {
    hide Stored, Put, AddMany, Extensions, Finished;
    var b, n := MapHeader(h, map_), Min(SPARSES_IN_OLDGNU_HEADER, |map_|);
    assert map_[..0] == [];
    BlockRoundTrip(b, HEADER_MAP, HEADER_EXTENDED, map_, 0, n, SPARSES_IN_OLDGNU_HEADER, h, size);
    FinishedKeepsMap(b, size);
    if n < |map_| {
      ExtensionsRoundTrip(archive, ordinal, map_, n, size);
    } else {
      assert map_[..|map_|] == map_;
    }
  }

  /** The checksum is stored elsewhere. */
  lemma FinishedKeepsMap(b: Block, size: nat)
    ensures Finished(b)[HEADER_EXTENDED] == b[HEADER_EXTENDED]
    ensures AddMany(Finished(b), HEADER_MAP, SPARSES_IN_OLDGNU_HEADER, size, More([]))
         == AddMany(b, HEADER_MAP, SPARSES_IN_OLDGNU_HEADER, size, More([]))
  {
    hide OffAt, AddSparse;
    var f := Finished(b);
    assert forall k :: HEADER_MAP <= k < BLOCKSIZE ==> f[k] == b[k];
    SameEntry(b, f, HEADER_MAP, size);
    SameEntry(b, f, HEADER_MAP + ENTRY, size);
    SameEntry(b, f, HEADER_MAP + 2 * ENTRY, size);
    SameEntry(b, f, HEADER_MAP + 3 * ENTRY, size);
    FourEntries(b, size);
    FourEntries(f, size);
  }

  lemma FourEntries(b: Block, size: nat)
    ensures AddMany(b, HEADER_MAP, SPARSES_IN_OLDGNU_HEADER, size, More([]))
         == AddSparse(b, HEADER_MAP + 3 * ENTRY, size, AddSparse(b, HEADER_MAP + 2 * ENTRY, size,
              AddSparse(b, HEADER_MAP + ENTRY, size, AddSparse(b, HEADER_MAP, size, More([])))))
  {
    hide AddSparse;
    assert AddMany(b, HEADER_MAP, 2, size, More([])) == AddSparse(b, HEADER_MAP + ENTRY, size, AddMany(b, HEADER_MAP, 1, size, More([])));
  }

  lemma SameEntry(b: Block, f: Block, at: nat, size: nat)
    requires at + ENTRY <= BLOCKSIZE && forall k :: at <= k < at + ENTRY ==> f[k] == b[k]
    ensures forall l :: AddSparse(f, at, size, l) == AddSparse(b, at, size, l)
  {
    assert f[at..at + 12] == b[at..at + 12];
    assert f[at + 12..at + ENTRY] == b[at + 12..at + ENTRY];
  }

  /** The map and the checksum leave the other fields alone. */
  lemma MapHeaderElsewhere(h: Block, map_: seq<Extent>, i: nat, j: nat)
    requires AllStorable(map_) && i <= j <= BLOCKSIZE
    requires (j <= HEADER_MAP || HEADER_EXTENDED < i) && (j <= CHKSUM || CHKSUM + 8 <= i)
    ensures Finished(MapHeader(h, map_))[i..j] == h[i..j]
  {
    hide Stored, Octal;
    var n := Min(SPARSES_IN_OLDGNU_HEADER, |map_|);
    var b := Stored(h, HEADER_MAP, map_, 0, n);
    forall k | i <= k < j ensures b[k] == h[k] {
      StoredElsewhere(h, HEADER_MAP, map_, 0, n, k);
    }
    var m := MapHeader(h, map_);
    assert forall k :: i <= k < j ==> m[k] == h[k];
    var f := Finished(m);
    assert forall k :: i <= k < j ==> f[k] == m[k];
  }

  lemma SparseFields(h: Block, realSize: nat, size: nat)
    requires realSize <= INTMAX_MAX && size <= INTMAX_MAX
    ensures var b := SparseHeader(h, realSize, size);
            && b[HEADER_TYPE] == GNUTYPE_SPARSE
            && b[HEADER_REALSIZE..HEADER_REALSIZE + 12] == OffText(realSize)
            && b[HEADER_SIZE..HEADER_SIZE + 12] == OffText(size)
            && (NoEntries(h) ==> NoEntries(b))
  {
    hide OffText;
    var t := Put(h, HEADER_TYPE, [GNUTYPE_SPARSE]);
    assert t[HEADER_TYPE] == t[HEADER_TYPE..HEADER_TYPE + 1][0];
    var r := Put(t, HEADER_REALSIZE, OffText(realSize));
    PutBeside(r, HEADER_SIZE, OffText(size), HEADER_REALSIZE, HEADER_REALSIZE + 12);
  }

  /** read_header accepts the header, and the reader finds the type flag, the real size and the size of
      what is stored. */
  lemma SparseHeaderReads(h: Block, map_: seq<Extent>, realSize: nat, size: nat)
    requires AllStorable(map_) && realSize <= INTMAX_MAX && size <= INTMAX_MAX
    ensures var b := Finished(MapHeader(SparseHeader(h, realSize, size), map_));
            && ChecksumStatus(b) == Success && b[HEADER_TYPE] == GNUTYPE_SPARSE
            && OffAt(b, HEADER_REALSIZE) == realSize && OffAt(b, HEADER_SIZE) == size
  {
    hide Finished, MapHeader, SparseHeader, OffText, OffAt, ChecksumStatus;
    var b := SparseHeader(h, realSize, size);
    var f := Finished(MapHeader(b, map_));
    SparseFields(h, realSize, size);
    FinishedAccepted(MapHeader(b, map_));
    MapHeaderElsewhere(b, map_, HEADER_TYPE, HEADER_TYPE + 1);
    assert f[HEADER_TYPE] == f[HEADER_TYPE..HEADER_TYPE + 1][0] == b[HEADER_TYPE..HEADER_TYPE + 1][0];
    MapHeaderElsewhere(b, map_, HEADER_REALSIZE, HEADER_REALSIZE + 12);
    MapHeaderElsewhere(b, map_, HEADER_SIZE, HEADER_SIZE + 12);
    OffRoundTrip(f, HEADER_REALSIZE, realSize);
    OffRoundTrip(f, HEADER_SIZE, size);
  }

  // ----- where everything is

  /** The field of twelve bytes at an index holds x. */
  predicate FieldHolds(b: seq<byte>, at: nat, x: nat) {
    at + 12 <= |b| && ParseField(b[at..at + 12], true, 0, 0x7fff_ffff_ffff_ffff, false) == Some(x)
  }

  lemma FieldStored(b: seq<byte>, at: nat, x: nat)
    requires x <= INTMAX_MAX && at + 12 <= |b| && b[at..at + 12] == OffText(x)
    ensures FieldHolds(b, at, x)
  {
    hide ParseField, FieldText;
    LongSizeFits(x);
    FieldRoundTrip(true, x, 12, true, 0, INTMAX_MAX);
  }

  lemma EntryStored(b: seq<byte>, at: nat, e: Extent)
    requires Storable(e) && at + 24 <= |b| && b[at..at + 24] == EntryText(e)
    ensures FieldHolds(b, at, e.offset) && FieldHolds(b, at + 12, e.numbytes)
  {
    hide OffText, FieldHolds;
    assert b[at..at + 12] == b[at..at + 24][..12] == OffText(e.offset);
    assert b[at + 12..at + 24] == b[at..at + 24][12..] == OffText(e.numbytes);
    FieldStored(b, at, e.offset);
    FieldStored(b, at + 12, e.numbytes);
  }

  /** The header block: type S at 156, the stored size at 124, the real size at 483, four extents from 386 on
      with twelve bytes for offset and length, and at 482 whether there are more. */
  lemma HeaderMapLayout(h: Block, map_: seq<Extent>, realSize: nat, size: nat, k: nat)
    requires AllStorable(map_) && realSize <= INTMAX_MAX && size <= INTMAX_MAX
    ensures var b := Finished(MapHeader(SparseHeader(h, realSize, size), map_));
            && b[156] == 83 && FieldHolds(b, 124, size) && FieldHolds(b, 483, realSize)
            && b[482] == (if 4 < |map_| then 1 else 0)
            && (k < 4 && k < |map_| ==> FieldHolds(b, 386 + 24 * k, map_[k].offset) && FieldHolds(b, 398 + 24 * k, map_[k].numbytes))
  {
    hide Finished, MapHeader, SparseHeader, OffText, FieldHolds, EntryText;
    var h' := SparseHeader(h, realSize, size);
    var b := Finished(MapHeader(h', map_));
    SparseFields(h, realSize, size);
    MapHeaderElsewhere(h', map_, 156, 157);
    assert b[156] == b[156..157][0] == h'[156..157][0];
    MapHeaderElsewhere(h', map_, 483, 495);
    MapHeaderElsewhere(h', map_, 124, 136);
    FieldStored(b, 483, realSize);
    FieldStored(b, 124, size);
    HeaderFlag(h', map_);
    if k < 4 && k < |map_| {
      HeaderEntry(h', map_, k);
      EntryStored(b, 386 + 24 * k, map_[k]);
    }
  }

  lemma HeaderFlag(h: Block, map_: seq<Extent>)
    requires AllStorable(map_)
    ensures Finished(MapHeader(h, map_))[482] == if 4 < |map_| then 1 else 0
  {
    hide Stored, Octal, UnsignedSum;
    var m := MapHeader(h, map_);
    assert m[482] == m[482..483][0];
  }

  lemma HeaderEntry(h: Block, map_: seq<Extent>, k: nat)
    requires AllStorable(map_) && k < 4 && k < |map_|
    ensures Finished(MapHeader(h, map_))[386 + 24 * k..386 + 24 * (k + 1)] == EntryText(map_[k])
  {
    hide Stored, EntryText, Octal, UnsignedSum;
    var n := Min(4, |map_|);
    StoredEntry(h, 386, map_, 0, n, k);
    var s := Stored(h, 386, map_, 0, n);
    PutBeside(s, 482, [if n < |map_| then 1 else 0], 386 + 24 * k, 386 + 24 * (k + 1));
    var m := MapHeader(h, map_);
    PutBeside(m, CHKSUM, Octal(UnsignedSum(m), 6) + [NUL, SPACE], 386 + 24 * k, 386 + 24 * (k + 1));
  }

  /** An extension block: twenty-one extents from its start on, and at 504 whether there are more. */
  lemma ExtensionLayout(map_: seq<Extent>, i: nat, k: nat)
    requires AllStorable(map_) && i < |map_|
    ensures var b := ExtensionBlock(map_, i);
            && b[504] == (if i + 21 < |map_| then 1 else 0)
            && (k < 21 && i + k < |map_| ==> FieldHolds(b, 24 * k, map_[i + k].offset) && FieldHolds(b, 24 * k + 12, map_[i + k].numbytes))
  {
    hide Stored, EntryText, FieldHolds;
    var b, n := ExtensionBlock(map_, i), Min(21, |map_| - i);
    assert b[504] == b[504..505][0];
    if k < n {
      StoredEntry(Zeros(BLOCKSIZE), 0, map_, i, n, k);
      PutBeside(Stored(Zeros(BLOCKSIZE), 0, map_, i, n), 504, [if i + n < |map_| then 1 else 0], 24 * k, 24 * (k + 1));
      EntryStored(b, 24 * k, map_[i + k]);
    }
  }

  // ----- what is refused

  /** A NUL where a length should begin ends the map; otherwise both fields must hold numbers, and the extent
      must lie inside the file. */
  lemma EntryAccepted(b: seq<byte>, at: nat, size: nat, extents: seq<Extent>, offset: nat, numbytes: nat)
    requires at + 24 <= |b| && size <= INTMAX_MAX
    ensures b[at + 12] == 0 ==> AddSparse(b, at, size, More(extents)) == Done(extents)
    ensures b[at + 12] != 0 && FieldHolds(b, at, offset) && FieldHolds(b, at + 12, numbytes) ==>
              AddSparse(b, at, size, More(extents))
                == if offset + numbytes <= size then More(extents + [Extent(offset, numbytes)]) else Invalid
    ensures b[at + 12] != 0 && (ParseField(b[at..at + 12], true, 0, 0x7fff_ffff_ffff_ffff, false) == None
                                || ParseField(b[at + 12..at + 24], true, 0, 0x7fff_ffff_ffff_ffff, false) == None) ==>
              AddSparse(b, at, size, More(extents)) == Invalid
  {
    hide ParseField;
  }
}

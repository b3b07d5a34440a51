/** Reading an archive through the record buffer: src/buffer.c and skim_file of src/list.c. */
module RecordReader {
  import opened Bytes

  /** The number of whole blocks of an archive; a final partial block does not count. */
  function WholeBlocks(archive: seq<byte>): nat {
    |archive| / BLOCKSIZE
  }

  /** The block of an archive with the given ordinal. */
  function BlockAt(archive: seq<byte>, i: nat): (b: seq<byte>)
    requires i < WholeBlocks(archive)
    ensures |b| == BLOCKSIZE
  {
    archive[BLOCKSIZE * i..BLOCKSIZE * (i + 1)]
  }

  /** The unread blocks cur .. end of the record are those of the archive from ordinal start + cur. */
  ghost predicate Buffered(record: seq<byte>, archive: seq<byte>, start: nat, cur: nat, end: nat) {
    && cur <= end && BLOCKSIZE * end <= |record|
    && (cur < end ==> BLOCKSIZE * (start + end) <= |archive|)
    && forall k :: BLOCKSIZE * cur <= k < BLOCKSIZE * end ==> record[k] == archive[BLOCKSIZE * start + k]
  }

  class Reader {
    const archive: seq<byte>            // what the medium holds
    const blockingFactor: nat
    const record: array<byte>
    const readFullRecords: bool
    var position: nat                   // byte offset of the archive descriptor
    var cur: nat                        // current_block - record_start
    var end: nat                        // record_end - record_start
    var start: nat                      // record_start_block
    var hitEof: bool
    var recordsRead: nat
    ghost var fullRecords: nat          // whole records before the buffered one

    ghost predicate Valid()
      reads this, record
    {
      && 0 < blockingFactor && record.Length == BLOCKSIZE * blockingFactor
      && end <= blockingFactor
      && Buffered(record[..], archive, start, cur, end)
      && PositionOk()
      && (readFullRecords ==> OnBoundary())
      && (hitEof ==> cur == end && WholeBlocks(archive) <= start + end)
    }

    /** The descriptor stands right after the buffered blocks, or at the end of the archive with
        only a partial block between. */
    ghost predicate PositionOk()
      reads this
    {
      || position == BLOCKSIZE * (start + end)
      || (end < blockingFactor && position == |archive|
          && BLOCKSIZE * (start + end) <= position < BLOCKSIZE * (start + end + 1))
    }

    /** Until the archive ends, records are full, so the buffered one starts on a record boundary. */
    ghost predicate OnBoundary()
      reads this
    {
      && (position < |archive| ==> end == 0 || end == blockingFactor)
      && (end == blockingFactor || position < |archive| ==> start == Times(fullRecords, blockingFactor))
    }

    /** current_block_ordinal. */
    ghost function Ordinal(): nat
      reads this
    {
      start + cur
    }

    constructor (archive: seq<byte>, blockingFactor: nat, readFullRecords: bool)
      requires 0 < blockingFactor
      ensures Valid() && fresh(record) && Ordinal() == 0 && !hitEof
      ensures this.archive == archive && this.blockingFactor == blockingFactor
      ensures this.readFullRecords == readFullRecords
    {
      this.archive, this.blockingFactor, this.readFullRecords := archive, blockingFactor, readFullRecords;
      record := new byte[BLOCKSIZE * blockingFactor];
      position, cur, end, start, hitEof, recordsRead, fullRecords := 0, 0, 0, 0, false, 0, 0;
    }

    /** rmtread: any positive number of the bytes asked for, or zero at the end of the archive. */
    method Read(at: nat, left: nat) returns (n: nat)
      requires at + left <= record.Length
      modifies this`position, record
      ensures n <= left && (n == 0 <==> left == 0 || |archive| <= old(position))
      ensures position == old(position) + n && (n > 0 ==> position <= |archive|)
      ensures forall k :: 0 <= k < at ==> record[k] == old(record[k])
      ensures forall k :: at <= k < at + n ==> record[k] == archive[old(position) + k - at]
    {
      if left == 0 || |archive| <= position {
        return 0;
      }
      n :| 0 < n <= left && n <= |archive| - position;
      forall k | 0 <= k < n {
        record[at + k] := archive[position + k];
      }
      position := position + n;
    }

    /** What reading has achieved: the record's first got bytes follow archive offset from. */
    ghost predicate Filling(from: nat, got: nat)
      reads this, record
    {
      && got <= record.Length
      && position == from + got && (got > 0 ==> position <= |archive|)
      && forall k :: 0 <= k < got ==> record[k] == archive[from + k]
    }

    /** short_read: go on reading until the record is full or the archive ends.  Without
        read_full_records, a record that does not end on a block boundary is a fatal error. */
    method ShortRead(first: nat, ghost from: nat) returns (fatal: bool)
      requires 0 < blockingFactor && record.Length == BLOCKSIZE * blockingFactor
      requires first < record.Length && Filling(from, first) && (first == 0 ==> |archive| <= from)
      modifies this`position, this`end, this`recordsRead, record
      ensures fatal ==> !readFullRecords
      ensures !fatal ==> end == (position - from) / BLOCKSIZE && position - from <= record.Length
      ensures !fatal ==> Filling(from, position - from)
      ensures !fatal ==> (position - from) % BLOCKSIZE == 0 || |archive| <= position
      ensures !fatal && position == from ==> |archive| <= from
      ensures !fatal && readFullRecords ==> |archive| <= position || position - from == record.Length
      ensures recordsRead == old(recordsRead) + if fatal then 0 else 1
    {
      var status, left := first, record.Length - first;
      while left % BLOCKSIZE != 0 || (left != 0 && status != 0 && readFullRecords)
        invariant left <= record.Length && Filling(from, record.Length - left)
        invariant status == 0 ==> |archive| <= position
        invariant unchanged(`end) && unchanged(`recordsRead)
        invariant left < record.Length || status == 0
        decreases left, status
      {
        if status != 0 {
          status := Read(record.Length - left, left);
        }
        if status == 0 {
          break;
        }
        if !readFullRecords {
          return true;
        }
        left := left - status;
      }
      end := (record.Length - left) / BLOCKSIZE;
      recordsRead := recordsRead + 1;
      return false;
    }

    /** flush_read: fill the record from the descriptor's position. */
    method FlushRead(ghost from: nat) returns (fatal: bool)
      requires 0 < blockingFactor && record.Length == BLOCKSIZE * blockingFactor && end == blockingFactor && position == from
      modifies this`position, this`end, this`recordsRead, record
      ensures fatal ==> !readFullRecords
      ensures !fatal ==> from <= position && end == (position - from) / BLOCKSIZE && Filling(from, position - from)
      ensures !fatal ==> (position - from) % BLOCKSIZE == 0 || |archive| <= position
      ensures !fatal && position == from ==> |archive| <= from
      ensures !fatal && readFullRecords ==> |archive| <= position || position - from == record.Length
      ensures recordsRead == old(recordsRead) + if fatal then 0 else 1
    {
      var nread := Read(0, record.Length);
      fatal := false;
      if nread == record.Length {
        recordsRead := recordsRead + 1;
      } else {
        fatal := ShortRead(nread, from);
      }
    }

    /** flush_archive while reading: the next record replaces the one that is used up. */
    method FlushArchive() returns (fatal: bool)
      requires Valid() && cur == end && !hitEof
      modifies this, record
      ensures fatal ==> !readFullRecords
      ensures !fatal ==> Valid() && Ordinal() == old(Ordinal()) && !hitEof
      ensures !fatal ==> (cur < end <==> Ordinal() < WholeBlocks(archive))
      ensures recordsRead == old(recordsRead) + if fatal then 0 else 1
    {
      hide Times, Buffered;
      ghost var from := position;
      if end == blockingFactor {
        TimesStep(fullRecords, blockingFactor);
        fullRecords := fullRecords + 1;
      }
      start := start + end;
      cur, end := 0, blockingFactor;
      NothingBuffered(old(record[..]), archive, old(start), old(cur), old(end));
      fatal := FlushRead(from);
      if !fatal {
        RecordFilled(record[..], archive, start, from, position - from);
      }
    }

    /** find_next_block: there is a next block exactly when the archive holds one more whole block,
        however the medium splits its reads. */
    method FindNextBlock() returns (found: bool, fatal: bool)
      requires Valid()
      modifies this, record
      ensures fatal ==> !readFullRecords
      ensures !fatal ==> Valid() && Ordinal() == old(Ordinal())
      ensures !fatal ==> (found <==> cur < end) && (found <==> Ordinal() < WholeBlocks(archive))
    {
      fatal := false;
      if cur == end {
        if hitEof {
          return false, false;
        }
        fatal := FlushArchive();
        if fatal {
          return false, true;
        }
        if cur == end {
          hitEof := true;
          return false, false;
        }
      }
      found := true;
    }

    /** set_next_block_after, for a byte of the record at offset p. */
    method SetNextBlockAfter(p: int)
      requires Valid() && p < BLOCKSIZE * end
      modifies this`cur
      ensures Valid()
      ensures cur == if BLOCKSIZE * old(cur) <= p then p / BLOCKSIZE + 1 else old(cur)
    {
      var offset := p - BLOCKSIZE * cur;
      if 0 <= offset {
        cur := cur + offset / BLOCKSIZE + 1;
      }
    }

    /** Hand out the blocks one by one until there is none left. */
    method ReadBlocks() returns (blocks: seq<seq<byte>>)
      requires Valid() && readFullRecords && Ordinal() == 0
      modifies this, record
      ensures |blocks| == WholeBlocks(archive)
      ensures forall i :: 0 <= i < |blocks| ==> blocks[i] == BlockAt(archive, i)
    {
      hide Valid, WholeBlocks, BlockAt;
      blocks := [];
      var found, fatal := FindNextBlock();
      while found
        invariant Valid() && !fatal && |blocks| == Ordinal() <= WholeBlocks(archive)
        invariant (found <==> cur < end) && (found <==> Ordinal() < WholeBlocks(archive))
        invariant forall i :: 0 <= i < |blocks| ==> blocks[i] == BlockAt(archive, i)
        decreases WholeBlocks(archive) - Ordinal()
      {
        var b := TakeBlock();
        blocks := blocks + [b];
        found, fatal := FindNextBlock();
      }
    }

    /** The current block, which is marked as used. */
    method TakeBlock() returns (b: seq<byte>)
      requires Valid() && cur < end
      modifies this`cur
      ensures Valid() && Ordinal() == old(Ordinal()) + 1 && old(Ordinal()) < WholeBlocks(archive)
      ensures b == BlockAt(archive, old(Ordinal()))
    {
      hide OnBoundary, PositionOk, WholeBlocks;
      b := record[BLOCKSIZE * cur..BLOCKSIZE * (cur + 1)];
      BufferedBlock(record[..], archive, start, cur, end);
      SetNextBlockAfter(BLOCKSIZE * cur);
    }

    /** Take what the record holds, up to left bytes, and mark its blocks as used. */
    method TakeChunk(left: nat) returns (chunk: seq<byte>, found: bool, fatal: bool)
      requires Valid() && left > 0
      modifies this, record
      ensures fatal ==> !readFullRecords && !found
      ensures !fatal ==> Valid()
      ensures !fatal ==> (found <==> old(Ordinal()) < WholeBlocks(archive))
      ensures !fatal && !found ==> Ordinal() == old(Ordinal())
      ensures found ==> IsChunk(archive, old(Ordinal()), left, chunk)
      ensures found ==> Ordinal() == old(Ordinal()) + BlocksFor(|chunk|)
    {
      hide IsChunk, Buffered, WholeBlocks, BlocksFor, OnBoundary, PositionOk;
      chunk := [];
      found, fatal := FindNextBlock();
      if found && !fatal {
        var written := BLOCKSIZE * (end - cur);
        if written > left {
          written := left;
        }
        ChunkOf(record[..], archive, start, cur, end, left);
        chunk := record[BLOCKSIZE * cur..BLOCKSIZE * cur + written];
        SetNextBlockAfter(BLOCKSIZE * cur + written - 1);
      } else {
        found := false;
      }
    }

    /** The reading loop of extract_file, get_gnu_dumpdir and the long-name records: chunk by chunk
        until all of the wanted size has been taken. */
    method ReadData(size: nat) returns (data: seq<byte>, ok: bool, fatal: bool)
      requires Valid()
      modifies this, record
      ensures fatal ==> !readFullRecords && !ok
      ensures !fatal ==> Valid()
      ensures !fatal ==> (ok <==> size == 0 || old(Ordinal()) + BlocksFor(size) <= WholeBlocks(archive))
      ensures ok ==> Ordinal() == old(Ordinal()) + BlocksFor(size)
      ensures ok && size == 0 ==> data == []
      ensures ok && size > 0 ==> data == archive[BLOCKSIZE * old(Ordinal())..BLOCKSIZE * old(Ordinal()) + size]
    {
      hide *;
      data, fatal := [], false;
      ghost var from := Ordinal();
      var left: nat := size;
      TakenNothing(archive, from, size);
      while left > 0
        invariant Valid() && !fatal
        invariant Taken(archive, from, size, left, Ordinal(), data)
      {
        ghost var ordinal := Ordinal();
        var chunk, found;
        chunk, found, fatal := TakeChunk(left);
        if !found {
          if !fatal {
            TakenShort(archive, from, size, left, ordinal, data);
          }
          ok := false;
          return;
        }
        TakeMore(archive, from, size, left, ordinal, data, chunk);
        data := data + chunk;
        left := left - |chunk|;
      }
      TakenAll(archive, from, size, Ordinal(), data);
      ok := true;
    }

    /** seek_archive: skip whole records by moving the descriptor. */
    method SeekArchive(size: nat) returns (nblk: nat, fatal: bool)
      requires Valid() && !hitEof
      modifies this
      ensures fatal ==> !readFullRecords
      ensures !fatal ==> Valid() && Ordinal() == old(Ordinal()) + nblk && !hitEof
      ensures nblk * BLOCKSIZE <= size && recordsRead == old(recordsRead) + Quotient(nblk, blockingFactor)
      ensures !fatal && old(end) == blockingFactor ==>
                size - nblk * BLOCKSIZE < BLOCKSIZE * blockingFactor
                || (nblk == 0 && size < BLOCKSIZE * (2 * blockingFactor - old(cur)))
    {
      hide Times, Quotient, Remainder;
      nblk, fatal := 0, false;
      NoSpan(blockingFactor);
      if end < blockingFactor {
        return;
      }
      var recordSize := BLOCKSIZE * blockingFactor;
      var skipped := BLOCKSIZE * (blockingFactor - cur);
      if size <= skipped {
        return;
      }
      var nrec := Quotient(size - skipped, recordSize);
      SeekSpan(size - skipped, blockingFactor, nrec, fullRecords);
      if nrec == 0 {
        return;
      }
      hide Buffered;
      NothingBuffered(record[..], archive, start, cur, end);
      position := position + Times(nrec, recordSize);
      if Remainder(position, recordSize) != 0 {
        return 0, true;
      }
      var offset := position / BLOCKSIZE;
      nblk := offset - (start + cur);
      recordsRead := recordsRead + Quotient(nblk, blockingFactor);
      start := offset - blockingFactor;
      cur := end;
      fullRecords := fullRecords + nrec;
    }

    /** skim_file: skip a member's data, by seeking if the archive allows it and then block by block.
        Whichever way is taken, the same block comes next. */
    method SkimFile(size: nat, seekable: bool) returns (ok: bool, fatal: bool)
      requires Valid() && (seekable ==> !hitEof)
      modifies this, record
      ensures fatal ==> !readFullRecords && !ok
      ensures ok ==> Valid() && Ordinal() == old(Ordinal()) + BlocksFor(size)
      ensures !fatal && old(Ordinal()) + BlocksFor(size) <= WholeBlocks(archive) ==> ok
    {
      var left: int := size;
      ok, fatal := false, false;
      if seekable {
        var nblk;
        nblk, fatal := SeekArchive(size);
        if fatal {
          return;
        }
        left := left - nblk * BLOCKSIZE;
      }
      while left > 0
        invariant Valid() && !ok && !fatal
        invariant Ordinal() == old(Ordinal()) + BlocksFor(size) - (if left > 0 then BlocksFor(left) else 0)
        decreases left
      {
        var found;
        found, fatal := FindNextBlock();
        if !found || fatal {
          return;
        }
        SetNextBlockAfter(BLOCKSIZE * cur);
        left := left - BLOCKSIZE;
      }
      ok := true;
    }
  }

  /** A record whose first got bytes were read from a block boundary, or that got nothing. */
  lemma RecordFilled(record: seq<byte>, archive: seq<byte>, start: nat, from: nat, got: nat)
    requires got <= |record| && (got > 0 ==> from == BLOCKSIZE * start && from + got <= |archive|)
    requires forall k :: 0 <= k < got ==> record[k] == archive[from + k]
    ensures Buffered(record, archive, start, 0, got / BLOCKSIZE)
  {
  }

  /** Arithmetic on two variables, under names that proofs can treat as unknown. */
  function Times(a: nat, b: nat): nat {
    a * b
  }

  function Quotient(a: nat, b: nat): nat
    requires b > 0
  {
    a / b
  }

  function Remainder(a: nat, b: nat): nat
    requires b > 0
  {
    a % b
  }

  lemma TimesStep(a: nat, b: nat)
    ensures Times(a + 1, b) == Times(a, b) + b
  {
  }

  lemma NoSpan(bf: nat)
    requires bf > 0
    ensures Quotient(0, bf) == 0 && Times(0, bf) == 0
  {
  }

  lemma NothingBuffered(record: seq<byte>, archive: seq<byte>, start: nat, cur: nat, end: nat)
    requires Buffered(record, archive, start, cur, end)
    ensures cur <= end && forall s: nat :: Buffered(record, archive, s, end, end)
  {
  }

  /** The bytes that nrec whole records span, after k whole records and the current one. */
  lemma SeekSpan(size: nat, bf: nat, nrec: nat, k: nat)
    requires bf > 0 && nrec == Quotient(size, BLOCKSIZE * bf)
    ensures Times(nrec, BLOCKSIZE * bf) == BLOCKSIZE * Times(nrec, bf) <= size < BLOCKSIZE * Times(nrec, bf) + BLOCKSIZE * bf
    ensures Times(k + nrec, bf) == Times(k, bf) + Times(nrec, bf)
    ensures Remainder(BLOCKSIZE * (Times(k, bf) + bf) + Times(nrec, BLOCKSIZE * bf), BLOCKSIZE * bf) == 0
  {
    var d := BLOCKSIZE * bf;
    assert nrec * d <= size;
    assert BLOCKSIZE * (k * bf + bf) + nrec * d == (k + 1 + nrec) * d;
    MultipleOf(k + 1 + nrec, d);
  }

  lemma MultipleOf(k: nat, d: nat)
    requires d > 0
    ensures Remainder(k * d, d) == 0
  {
    var x, q := k * d, k * d / d;
    assert q * d <= x < (q + 1) * d;
    if q < k {
      Monotone(q + 1, k, d);
    } else if k < q {
      Monotone(k + 1, q, d);
    }
    assert x % d == x - q * d;
  }

  lemma Monotone(a: nat, b: nat, d: nat)
    requires a <= b
    ensures a * d <= b * d
  {
  }

  /** All but left bytes of the size bytes from block ordinal from have been taken as data. */
  ghost predicate Taken(archive: seq<byte>, from: nat, size: nat, left: nat, ordinal: nat, data: seq<byte>) {
    var at := BLOCKSIZE * from;
    && left <= size
    && (left > 0 ==> at + size - left == BLOCKSIZE * ordinal)
    && (left == 0 ==> ordinal == from + BlocksFor(size) && (size > 0 ==> ordinal <= WholeBlocks(archive)))
    && (left == size ==> data == [])
    && (left < size ==> at + size - left <= |archive| && data == archive[at..at + size - left])
  }

  /** A chunk of the bytes from a block ordinal on: all that is left, or a number of blocks. */
  ghost predicate IsChunk(archive: seq<byte>, ordinal: nat, left: nat, chunk: seq<byte>) {
    && 0 < |chunk| <= left && (|chunk| == left || |chunk| % BLOCKSIZE == 0)
    && BLOCKSIZE * (ordinal + BlocksFor(|chunk|)) <= |archive|
    && chunk == archive[BLOCKSIZE * ordinal..BLOCKSIZE * ordinal + |chunk|]
  }

  lemma TakenNothing(archive: seq<byte>, from: nat, size: nat)
    ensures Taken(archive, from, size, size, from, [])
  {
  }

  lemma TakeMore(archive: seq<byte>, from: nat, size: nat, left: nat, ordinal: nat, data: seq<byte>, chunk: seq<byte>)
    requires Taken(archive, from, size, left, ordinal, data) && left > 0
    requires IsChunk(archive, ordinal, left, chunk)
    ensures |chunk| <= left
    ensures Taken(archive, from, size, left - |chunk|, ordinal + BlocksFor(|chunk|), data + chunk)
    ensures |chunk| > 0
  {
    var at, n := BLOCKSIZE * from, |chunk|;
    var done := at + size - left;
    assert archive[at..done] + archive[done..done + n] == archive[at..done + n];
  }

  lemma TakenShort(archive: seq<byte>, from: nat, size: nat, left: nat, ordinal: nat, data: seq<byte>)
    requires Taken(archive, from, size, left, ordinal, data) && left > 0 && WholeBlocks(archive) <= ordinal
    ensures WholeBlocks(archive) < from + BlocksFor(size)
  {
  }

  lemma TakenAll(archive: seq<byte>, from: nat, size: nat, ordinal: nat, data: seq<byte>)
    requires Taken(archive, from, size, 0, ordinal, data)
    ensures ordinal == from + BlocksFor(size)
    ensures size > 0 ==> ordinal <= WholeBlocks(archive) && data == archive[BLOCKSIZE * from..BLOCKSIZE * from + size]
    ensures size == 0 ==> data == []
  {
  }

  lemma ChunkOf(record: seq<byte>, archive: seq<byte>, start: nat, cur: nat, end: nat, left: nat)
    requires Buffered(record, archive, start, cur, end) && cur < end && left > 0
    ensures var n := Min(left, BLOCKSIZE * (end - cur));
            && BLOCKSIZE * cur + n <= |record|
            && IsChunk(archive, start + cur, left, record[BLOCKSIZE * cur..BLOCKSIZE * cur + n])
            && (BLOCKSIZE * cur + n - 1) / BLOCKSIZE + 1 == cur + BlocksFor(n)
  {
  }

  lemma BufferedBlock(record: seq<byte>, archive: seq<byte>, start: nat, cur: nat, end: nat)
    requires Buffered(record, archive, start, cur, end) && cur < end
    ensures start + cur < WholeBlocks(archive)
    ensures record[BLOCKSIZE * cur..BLOCKSIZE * (cur + 1)] == BlockAt(archive, start + cur)
  {
  }

  /** The unread bytes of the archive. */
  ghost function Remaining(r: Reader): seq<byte>
    reads r
  {
    if BLOCKSIZE * r.Ordinal() <= |r.archive| then r.archive[BLOCKSIZE * r.Ordinal()..] else []
  }

  ghost predicate Ready(r: Reader)
    reads r, r.record
  {
    r.Valid() && r.readFullRecords && BLOCKSIZE * r.Ordinal() <= |r.archive|
  }

  /** set_next_block_after (current_header). */
  method SkipBlock(r: Reader)
    requires Ready(r) && r.cur < r.end && BLOCKSIZE <= |Remaining(r)|
    modifies r
    ensures Ready(r) && Remaining(r) == old(Remaining(r))[BLOCKSIZE..]
  {
    r.SetNextBlockAfter(BLOCKSIZE * r.cur);
  }
}

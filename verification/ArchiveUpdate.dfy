/** Deleting members in place: one file is read and written at two positions, src/delete.c and the
    reading half of src/buffer.c. */
module ArchiveUpdate {
  import opened Bytes
  import opened HeaderBlock
  import opened RecordReader
  import opened Deletion

  // ----- positions

  /** The byte offset of record q. */
  function RecordAt(q: nat, bf: nat): nat {
    BLOCKSIZE * Times(q, bf)
  }

  function Product(a: int, b: int): int {
    a * b
  }

  lemma AtNext(q: nat, bf: nat)
    ensures RecordAt(q + 1, bf) == RecordAt(q, bf) + BLOCKSIZE * bf && RecordAt(0, bf) == 0
  {
  }

  lemma AtMove(q: nat, bf: nat, count: int)
    requires 0 <= q + count
    ensures RecordAt(q, bf) + Product(BLOCKSIZE * bf, count) == RecordAt(q + count, bf)
  {
  }

  lemma AtNegative(q: nat, bf: nat, count: int)
    requires q + count < 0 < bf
    ensures RecordAt(q, bf) + Product(BLOCKSIZE * bf, count) < 0
  {
    var m := -(q + count);
    assert RecordAt(q, bf) + Product(BLOCKSIZE * bf, count) == -(BLOCKSIZE * (bf * m));
    assert bf * m >= bf;
  }

  lemma AtMonotone(a: nat, b: nat, bf: nat)
    requires a <= b
    ensures Times(a, bf) <= Times(b, bf) && RecordAt(a, bf) <= RecordAt(b, bf)
  {
    Monotone(a, b, bf);
  }

  /** The first record boundary at or after a position. */
  function RoundUp(position: nat, size: nat): nat
    requires size > 0
  {
    var short := Remainder(position, size);
    position + if short != 0 then size - short else 0
  }

  lemma RoundUpIs(position: nat, q: nat, bf: nat)
    requires 0 < bf && RecordAt(q, bf) - BLOCKSIZE * bf < position <= RecordAt(q, bf)
    ensures RoundUp(position, BLOCKSIZE * bf) == RecordAt(q, bf)
  {
    var d := BLOCKSIZE * bf;
    assert RecordAt(q, bf) == q * d;
    if position == q * d {
      MultipleOf(q, d);
    } else {
      assert q >= 1;
      assert (q - 1) * d == q * d - d;
      DivisionOf(position, q - 1, d);
    }
  }

  lemma DivisionOf(x: nat, k: nat, d: nat)
    requires d > 0 && k * d <= x < k * d + d
    ensures Remainder(x, d) == x - k * d
  {
    var q := x / d;
    var qd, kd := q * d, k * d;
    assert qd <= x < qd + d && x % d == x - qd;
    if q < k {
      Monotone(q + 1, k, d);
      assert false;
    } else if k < q {
      Monotone(k + 1, q, d);
      assert false;
    }
  }

  // ----- moving and writing

  /** Where move_archive goes from a position: count records from the next record boundary. */
  function Target(position: nat, size: nat, count: int): int
    requires size > 0
  {
    if count == 0 then position else RoundUp(position, size) + Product(size, count)
  }

  /** A target before the start of the file is an error, and nothing moves. */
  function Moved(position: nat, size: nat, count: int): nat
    requires size > 0
  {
    if Target(position, size, count) < 0 then position else Target(position, size, count)
  }

  /** Moving between records: q is the record after the one in which the position lies. */
  lemma TargetIs(position: nat, q: nat, bf: nat, count: int)
    requires 0 < bf && RecordAt(q, bf) - BLOCKSIZE * bf < position <= RecordAt(q, bf)
    requires count == 0 ==> position == RecordAt(q, bf)
    ensures 0 <= q + count ==> Target(position, BLOCKSIZE * bf, count) == RecordAt(q + count, bf)
    ensures q + count < 0 ==> Target(position, BLOCKSIZE * bf, count) < 0
  {
    hide RecordAt, Product, RoundUp;
    RoundUpIs(position, q, bf);
    if 0 <= q + count {
      AtMove(q, bf, count);
    } else {
      AtNegative(q, bf, count);
    }
  }

  /** The file with bytes written at a position. */
  function Overwritten(file: seq<byte>, position: nat, bytes: seq<byte>): (r: seq<byte>)
    ensures position + |bytes| <= |r|
  {
    if |file| <= position then file + Zeros(position - |file|) + bytes
    else file[..position] + bytes + if position + |bytes| < |file| then file[position + |bytes|..] else []
  }

  /** What has been put out: done records in the file, and newBlocks blocks of the next one. */
  ghost predicate Output(file: seq<byte>, bf: nat, done: nat, newRecord: seq<byte>, newBlocks: nat, out: seq<byte>) {
    && newBlocks <= bf && |newRecord| == BLOCKSIZE * bf && RecordAt(done, bf) <= |file|
    && out == file[..RecordAt(done, bf)] + newRecord[..BLOCKSIZE * newBlocks]
  }

  // ----- the invariant, on values

  /** No whole block follows block ordinal next. */
  predicate AtEnd(a: seq<byte>, next: nat) {
    |a| < BLOCKSIZE * (next + 1)
  }

  /** The first end blocks of the record are those of a from block ordinal start on. */
  ghost predicate HoldsBlocks(a: seq<byte>, record: seq<byte>, start: nat, end: nat) {
    && BLOCKSIZE * end <= |record| && BLOCKSIZE * (start + end) <= |a|
    && forall k :: 0 <= k < BLOCKSIZE * end ==> record[k] == a[BLOCKSIZE * start + k]
  }

  /** Block ordinal next is the first one that is not in the buffer, after q records.  A seek can leave it
      beyond the end of the archive. */
  ghost predicate Continues(a: seq<byte>, bf: nat, next: nat, q: nat) {
    next == Times(q, bf) || (BLOCKSIZE * next <= |a| <= RecordAt(q, bf) && AtEnd(a, next))
  }

  /** The buffer holds record q - 1 of the original archive a. */
  ghost predicate InBuffer(a: seq<byte>, bf: nat, record: seq<byte>, start: nat, cur: nat, end: nat, q: nat) {
    && cur <= end <= bf && |record| == BLOCKSIZE * bf
    && (cur < end ==> HoldsBlocks(a, record, start, end))
    && (0 < end ==> 0 < q && start == Times(q - 1, bf))
    && (end == bf ==> start + end == Times(q, bf))
    && Continues(a, bf, start + end, q)
  }

  ghost predicate OnFileBytes(a: seq<byte>, file: seq<byte>, lim: nat) {
    && (forall k :: lim <= k < |a| ==> k < |file| && file[k] == a[k])
    && (lim < |a| ==> |file| == |a|) && |file| <= Max(|a|, lim)
  }

  /** The file still holds the original from record q on, and the descriptor stands there, or at the end
      of the file in the middle of record q - 1. */
  ghost predicate OnFile(a: seq<byte>, file: seq<byte>, position: nat, lim: nat, size: nat) {
    && OnFileBytes(a, file, lim)
    && (position == lim || (position == |a| == |file| && lim - size < position <= lim))
  }

  /** How much a read of size bytes gets. */
  function Available(file: seq<byte>, position: nat, size: nat): (n: nat)
    ensures n <= size && (n > 0 ==> position + n <= |file|)
  {
    if |file| <= position then 0 else Min(size, |file| - position)
  }

  /** Reading a record keeps the invariant. */
  lemma Refilled(a: seq<byte>, bf: nat, next: nat, q: nat, file: seq<byte>, position: nat, n: nat, record: seq<byte>)
    requires 0 < bf && Continues(a, bf, next, q) && OnFile(a, file, position, RecordAt(q, bf), BLOCKSIZE * bf)
    requires n == Available(file, position, BLOCKSIZE * bf) && |record| == BLOCKSIZE * bf
    requires forall k :: 0 <= k < n ==> record[k] == file[position + k]
    ensures 0 < n / BLOCKSIZE <==> !AtEnd(a, next)
    ensures n > 0 ==> InBuffer(a, bf, record, next, 0, n / BLOCKSIZE, q + 1)
                      && OnFile(a, file, position + n, RecordAt(q + 1, bf), BLOCKSIZE * bf)
    ensures n == 0 ==> InBuffer(a, bf, record, next, 0, 0, q)
    ensures n / BLOCKSIZE == 0 ==> |a| <= RecordAt(if n > 0 then q + 1 else q, bf)
    ensures |a| <= RecordAt(q, bf) <==> n == 0
    ensures BLOCKSIZE * next <= |a| ==> BLOCKSIZE * (next + n / BLOCKSIZE) <= |a|
  {
    hide Times;
    TimesStep(q, bf);
    var size, lim := BLOCKSIZE * bf, RecordAt(q, bf);
    if n > 0 {
      assert position == lim == BLOCKSIZE * next && lim < |a| && |file| == |a|;
      assert n == Min(size, |a| - lim);
      RefilledBlocks(a, bf, next, file, n, record);
    }
  }

  lemma RefilledBlocks(a: seq<byte>, bf: nat, next: nat, file: seq<byte>, n: nat, record: seq<byte>)
    requires |record| == BLOCKSIZE * bf && n <= |record| && BLOCKSIZE * next + n <= |a| == |file|
    requires forall k :: BLOCKSIZE * next <= k < |a| ==> file[k] == a[k]
    requires forall k :: 0 <= k < n ==> record[k] == file[BLOCKSIZE * next + k]
    ensures HoldsBlocks(a, record, next, n / BLOCKSIZE)
  {
  }

  /** Writing record done, which has been read, disturbs nothing that is still to be read. */
  lemma RecordWritten(a: seq<byte>, bf: nat, file: seq<byte>, done: nat, q: nat, newRecord: seq<byte>, out: seq<byte>)
    requires 0 < bf && done < q
    requires OnFileBytes(a, file, RecordAt(q, bf)) && Output(file, bf, done, newRecord, bf, out)
    ensures var file' := Overwritten(file, RecordAt(done, bf), newRecord);
            OnFileBytes(a, file', RecordAt(q, bf)) && Output(file', bf, done + 1, newRecord, 0, out)
  {
    hide RecordAt;
    AtNext(done, bf);
    AtMonotone(done + 1, q, bf);
    var p := RecordAt(done, bf);
    var file' := Overwritten(file, p, newRecord);
    assert newRecord[..BLOCKSIZE * bf] == newRecord;
    assert file'[..p + BLOCKSIZE * bf] == file[..p] + newRecord;
  }

  /** What a seek over nrec records does to the positions. */
  lemma Sought(a: seq<byte>, file: seq<byte>, position: nat, bf: nat, start: nat, cur: nat, q: nat, size: nat, nrec: nat)
    requires 0 < cur <= bf && 0 < q && start + bf == Times(q, bf)
    requires OnFile(a, file, position, RecordAt(q, bf), BLOCKSIZE * bf) && BLOCKSIZE * (start + bf) <= |a|
    requires BLOCKSIZE * (bf - cur) <= size && nrec == Quotient(size - BLOCKSIZE * (bf - cur), BLOCKSIZE * bf)
    ensures position + Times(nrec, BLOCKSIZE * bf) == RecordAt(q + nrec, bf)
    ensures OnFileBytes(a, file, RecordAt(q + nrec, bf))
  {
    hide Times, Quotient;
    SeekSpan(size - BLOCKSIZE * (bf - cur), bf, nrec, q);
  }

  /** How many blocks it passes over, and how much of the data that leaves. */
  lemma SoughtBlocks(bf: nat, start: nat, cur: nat, q: nat, size: nat, nrec: nat)
    requires 0 < cur <= bf && 0 < q && start + bf == Times(q, bf)
    requires BLOCKSIZE * (bf - cur) <= size && nrec == Quotient(size - BLOCKSIZE * (bf - cur), BLOCKSIZE * bf)
    ensures 0 < q + nrec && Times(q + nrec, bf) == Times(q + nrec - 1, bf) + bf
    ensures RecordAt(q + nrec, bf) == BLOCKSIZE * Times(q + nrec, bf)
    ensures var n := Times(q + nrec, bf) - (start + cur);
            && n >= 0 && Quotient(n, bf) == nrec
            && size - BLOCKSIZE * n == Remainder(BLOCKSIZE * (start + cur) + size, BLOCKSIZE * bf)
  {
    hide Times, Quotient, Remainder;
    SeekSpan(size - BLOCKSIZE * (bf - cur), bf, nrec, q);
    TimesStep(q + nrec - 1, bf);
    SeekCount(nrec, bf, cur);
    SeekLeft(BLOCKSIZE * (start + cur) + size, bf, q + nrec);
  }

  lemma SeekLeft(x: nat, bf: nat, k: nat)
    requires 0 < bf && BLOCKSIZE * Times(k, bf) <= x < BLOCKSIZE * Times(k, bf) + BLOCKSIZE * bf
    ensures Remainder(x, BLOCKSIZE * bf) == x - BLOCKSIZE * Times(k, bf)
  {
    AtIs(k, bf);
    DivisionOf(x, k, BLOCKSIZE * bf);
  }

  lemma SeekCount(nrec: nat, bf: nat, cur: nat)
    requires 0 < cur <= bf
    ensures Quotient(Times(nrec, bf) + bf - cur, bf) == nrec
  {
    DivisionOf(nrec * bf + (bf - cur), nrec, bf);
    QuotientIs(nrec * bf + (bf - cur), nrec, bf);
  }

  lemma QuotientIs(x: nat, k: nat, d: nat)
    requires 0 < d && x % d == x - k * d
    ensures x / d == k
  {
    assert (x / d) * d == k * d;
  }

  /** A seek over size bytes of data after header block number at passes over all of them: they end with a
      record, not the header's own, and that one was full. */
  predicate SeeksAll(total: nat, at: nat, size: nat, bf: nat)
    requires 0 < bf
  {
    var next := RecordAt(Quotient(at, bf) + 1, bf);
    next <= total && next < BLOCKSIZE * (at + 1) + size && Remainder(BLOCKSIZE * (at + 1) + size, BLOCKSIZE * bf) == 0
  }

  /** The file ends with less than a block in a record of its own. */
  predicate StrayBytes(total: nat, bf: nat)
    requires 0 < bf
  {
    0 < Remainder(total, BLOCKSIZE * bf) < BLOCKSIZE
  }

  /** Where the record of a block that was consumed ends. */
  lemma OwnRecord(a: seq<byte>, bf: nat, record: seq<byte>, start: nat, cur: nat, end: nat, q: nat)
    requires InBuffer(a, bf, record, start, cur, end, q) && 0 < cur && BLOCKSIZE * (start + end) <= |a|
    ensures 0 < bf && Quotient(start + cur - 1, bf) == q - 1 && RecordAt(q, bf) == BLOCKSIZE * (start + bf)
    ensures end == bf <==> RecordAt(q, bf) <= |a|
  {
    hide Times;
    TimesStep(q - 1, bf);
    QuotientAt(q - 1, bf, cur - 1);
  }

  lemma QuotientAt(k: nat, bf: nat, i: nat)
    requires i < bf
    ensures Quotient(Times(k, bf) + i, bf) == k
  {
    DivisionOf(k * bf + i, k, bf);
    QuotientIs(k * bf + i, k, bf);
  }

  /** When the blocks have run out, a read finds something exactly if stray bytes are left. */
  lemma StrayRead(a: seq<byte>, bf: nat, record: seq<byte>, start: nat, cur: nat, end: nat, q: nat)
    requires InBuffer(a, bf, record, start, cur, end, q) && 0 < end && BLOCKSIZE * (start + end) <= |a|
    requires AtEnd(a, start + end)
    ensures 0 < bf && (RecordAt(q, bf) < |a| <==> StrayBytes(|a|, bf))
  {
    hide Times;
    TimesStep(q - 1, bf);
    var size := BLOCKSIZE * bf;
    AtIs(q, bf);
    AtIs(q - 1, bf);
    if RecordAt(q, bf) <= |a| {
      DivisionOf(|a|, q, size);
    } else {
      DivisionOf(|a|, q - 1, size);
    }
  }

  lemma AtIs(q: nat, bf: nat)
    ensures RecordAt(q, bf) == q * (BLOCKSIZE * bf)
  {
  }

  class Updater {
    ghost const original: seq<byte>     // the archive before anything was written
    const blockingFactor: nat
    const record: array<byte>
    const newRecord: array<byte>
    var file: seq<byte>
    var position: nat
    var cur: nat                        // current_block - record_start
    var end: nat                        // record_end - record_start
    var recordStartBlock: int           // record_start_block
    var hitEof: bool
    var recordsRead: nat
    var recordsWritten: nat
    var recordsSkipped: nat
    var newBlocks: nat
    var seekError: bool
    ghost var start: nat                // ordinal of the first block in the buffer, also while copying
    ghost var q: nat                    // records passed on the medium
    ghost var eofReads: nat             // reads that found nothing, which records_read counts too

    ghost predicate Valid()
      reads this, record, newRecord
    {
      && 0 < blockingFactor && record != newRecord && newRecord.Length == BLOCKSIZE * blockingFactor
      && InBuffer(original, blockingFactor, record[..], start, cur, end, q)
      && OnFile(original, file, position, RecordAt(q, blockingFactor), BLOCKSIZE * blockingFactor)
      && recordsRead == q + eofReads
      && (hitEof || 0 < eofReads ==> cur == end && AtEnd(original, start + end))
    }

    ghost function Ordinal(): nat
      reads this
    {
      start + cur
    }

    /** What is in the buffer does not reach beyond the archive. */
    ghost predicate Inside()
      reads this
    {
      BLOCKSIZE * (start + end) <= |original|
    }

    constructor (file: seq<byte>, blockingFactor: nat)
      requires 0 < blockingFactor
      ensures Valid() && fresh(record) && fresh(newRecord)
      ensures original == this.file == file && this.blockingFactor == blockingFactor
      ensures Ordinal() == 0 && recordsWritten == 0 && eofReads == 0 && !seekError && newBlocks == 0 && !hitEof
      ensures recordStartBlock == start && Inside()
    {
      original := file;
      this.file, this.blockingFactor := file, blockingFactor;
      record := new byte[BLOCKSIZE * blockingFactor];
      newRecord := new byte[BLOCKSIZE * blockingFactor];
      position, cur, end, hitEof, seekError := 0, 0, 0, false, false;
      recordsRead, recordsWritten, recordsSkipped, newBlocks := 0, 0, 0, 0;
      recordStartBlock, start, q, eofReads := 0, 0, 0, 0;
    }

    /** simple_flush_read: a regular file gives all it has, so what short_read asks for in addition is
        never there.  The read is counted even if it finds nothing. */
    method FlushRead()
      requires 0 < blockingFactor && record != newRecord && newRecord.Length == record.Length == BLOCKSIZE * blockingFactor
      requires Continues(original, blockingFactor, start, q) && cur == 0 && (end == blockingFactor || AtEnd(original, start))
      requires OnFile(original, file, position, RecordAt(q, blockingFactor), BLOCKSIZE * blockingFactor)
      requires recordsRead == q + eofReads && (hitEof || 0 < eofReads ==> AtEnd(original, start))
      modifies this`position, this`end, this`recordsRead, this`q, this`eofReads, record
      ensures Valid() && (cur < end <==> !AtEnd(original, start))
      ensures old(eofReads) <= eofReads && (!AtEnd(original, start) ==> eofReads == old(eofReads))
      ensures cur == end ==> |original| <= RecordAt(q, blockingFactor)
      ensures if |original| <= RecordAt(old(q), blockingFactor) then 0 < eofReads else eofReads == old(eofReads)
      ensures BLOCKSIZE * start <= |original| ==> Inside()
      ensures newRecord[..] == old(newRecord[..])
    {
      hide Continues, OnFile, HoldsBlocks, RecordAt;
      var size := record.Length;
      var n := Available(file, position, size);
      forall k | 0 <= k < n {
        record[k] := file[position + k];
      }
      Refilled(original, blockingFactor, start, q, file, position, n, record[..]);
      if n > 0 {
        q := q + 1;
      } else {
        eofReads := eofReads + 1;
      }
      if n < size {
        end := n / BLOCKSIZE;
      }
      position := position + n;
      recordsRead := recordsRead + 1;
    }

    /** flush_archive while reading; blocks that are still in the buffer are passed over. */
    method FlushArchive()
      requires Valid()
      modifies this`position, this`cur, this`end, this`start, this`recordStartBlock, this`recordsRead, this`q, this`eofReads, record
      ensures Valid() && Ordinal() == old(start + end) && cur == 0
      ensures recordStartBlock - start == old(recordStartBlock - start)
      ensures cur < end <==> !AtEnd(original, Ordinal())
      ensures old(eofReads) <= eofReads && (!AtEnd(original, Ordinal()) ==> eofReads == old(eofReads))
      ensures cur == end ==> |original| <= RecordAt(q, blockingFactor)
      ensures if |original| <= RecordAt(old(q), blockingFactor) then 0 < eofReads else eofReads == old(eofReads)
      ensures old(Inside()) ==> Inside()
      ensures newRecord[..] == old(newRecord[..])
    {
      hide Continues, OnFile, HoldsBlocks, RecordAt;
      recordStartBlock := recordStartBlock + end;
      start := start + end;
      cur, end := 0, blockingFactor;
      FlushRead();
    }

    /** find_next_block. */
    method FindNextBlock() returns (found: bool)
      requires Valid()
      modifies this`position, this`cur, this`end, this`start, this`recordStartBlock, this`recordsRead, this`q, this`eofReads, this`hitEof, record
      ensures Valid() && Ordinal() == old(Ordinal()) && recordStartBlock - start == old(recordStartBlock - start)
      ensures (found <==> cur < end) && (found <==> !AtEnd(original, Ordinal()))
      ensures old(eofReads) <= eofReads && (found ==> eofReads == old(eofReads))
      ensures !found && !old(hitEof) ==>
                if |original| <= RecordAt(old(q), blockingFactor) then 0 < eofReads else eofReads == old(eofReads)
      ensures old(Inside()) ==> Inside()
      ensures newRecord[..] == old(newRecord[..])
    {
      hide OnFile, RecordAt;
      if cur == end {
        if hitEof {
          return false;
        }
        FlushArchive();
        if cur == end {
          hitEof := true;
          return false;
        }
      }
      found := true;
    }

    /** seek_archive, in the first pass: whole records inside a member's data are passed over, even beyond
        the end of the file.  Because the header was in the buffered record, nblk / blocking_factor counts
        them. */
    method SeekArchive(size: nat) returns (nblk: int)
      requires Valid() && Inside() && 0 < cur && recordStartBlock == start && eofReads == 0 && !hitEof
      modifies this`position, this`cur, this`start, this`recordStartBlock, this`recordsRead, this`q
      ensures Valid() && recordStartBlock == start && 0 <= nblk * BLOCKSIZE <= size
      ensures Ordinal() == old(Ordinal()) + nblk && (nblk == 0 || cur == end)
      ensures Inside() <==> BLOCKSIZE * (old(Ordinal()) + nblk) <= |original|
      ensures 0 < size ==> (nblk * BLOCKSIZE == size <==> SeeksAll(|original|, old(Ordinal()) - 1, size, blockingFactor))
    {
      hide Times, HoldsBlocks, OnFileBytes, Quotient, Remainder, RecordAt;
      OwnRecord(original, blockingFactor, record[..], start, cur, end, q);
      if end < blockingFactor {
        return 0;
      }
      var recordSize := BLOCKSIZE * blockingFactor;
      var skipped := BLOCKSIZE * (blockingFactor - cur);
      if size <= skipped {
        return 0;
      }
      var nrec := Quotient(size - skipped, recordSize);
      SoughtBlocks(blockingFactor, start, cur, q, size, nrec);
      if nrec == 0 {
        return 0;
      }
      nblk := SeekRecords(nrec, size);
    }

    method SeekRecords(nrec: nat, ghost size: nat) returns (nblk: int)
      requires Valid() && Inside() && 0 < cur && end == blockingFactor && recordStartBlock == start && eofReads == 0 && !hitEof
      requires var skipped := BLOCKSIZE * (blockingFactor - cur); skipped <= size && nrec == Quotient(size - skipped, BLOCKSIZE * blockingFactor)
      modifies this`position, this`cur, this`start, this`recordStartBlock, this`recordsRead, this`q
      ensures Valid() && recordStartBlock == start && cur == end && Ordinal() == Times(old(q) + nrec, blockingFactor)
      ensures nblk == Ordinal() - old(Ordinal())
    {
      hide Times, HoldsBlocks, OnFileBytes, Quotient, Remainder, RecordAt;
      SoughtBlocks(blockingFactor, start, cur, q, size, nrec);
      Sought(original, file, position, blockingFactor, start, cur, q, size, nrec);
      position := position + Times(nrec, BLOCKSIZE * blockingFactor);
      var offset := position / BLOCKSIZE;
      nblk := offset - (recordStartBlock + cur);
      recordsRead := recordsRead + Quotient(nblk, blockingFactor);
      recordStartBlock := offset - blockingFactor;
      start := offset - blockingFactor;
      cur := end;
      q := q + nrec;
    }

    /** move_archive. */
    method MoveArchive(count: int)
      requires 0 < blockingFactor
      modifies this`position, this`seekError
      ensures position == Moved(old(position), BLOCKSIZE * blockingFactor, count)
      ensures seekError <==> old(seekError) || Target(old(position), BLOCKSIZE * blockingFactor, count) < 0
    {
      if count == 0 {
        return;
      }
      var recordSize := BLOCKSIZE * blockingFactor;
      var shortSize := Remainder(position, recordSize);
      var startOffset := if shortSize != 0 then recordSize - shortSize else 0;
      var target := position + startOffset + Product(recordSize, count);
      if target < 0 {
        seekError := true;
      } else {
        position := target;
      }
    }

    /** write_record. */
    method WriteRecord(moveBack: bool)
      requires 0 < blockingFactor && newRecord.Length == BLOCKSIZE * blockingFactor
      modifies this`position, this`seekError, this`file, this`recordsWritten, this`newBlocks
      ensures recordsWritten == old(recordsWritten) + 1 && newBlocks == 0
      ensures var size := BLOCKSIZE * blockingFactor;
              var count := old(recordsWritten) + recordsSkipped - recordsRead;
              var at := Moved(old(position), size, count);
              && file == Overwritten(old(file), at, newRecord[..])
              && position == (if moveBack then Moved(at + size, size, -count - 1) else at + size)
              && (seekError <==> old(seekError) || Target(old(position), size, count) < 0
                                 || (moveBack && Target(at + size, size, -count - 1) < 0))
    {
      hide Moved, Target;
      var size := BLOCKSIZE * blockingFactor;
      MoveArchive(recordsWritten + recordsSkipped - recordsRead);
      file := Overwritten(file, position, newRecord[..]);
      position := position + size;
      recordsWritten := recordsWritten + 1;
      if moveBack {
        MoveArchive(recordsRead - (recordsWritten + recordsSkipped));
      }
      newBlocks := 0;
    }

    // ----- copying

    ghost function Done(): nat
      reads this
    {
      recordsSkipped + recordsWritten
    }

    /** out has been put out, no more of it than has been consumed, with n blocks in the new record. */
    ghost predicate Put(out: seq<byte>, n: nat)
      reads this, record, newRecord
    {
      && Valid() && Inside() && n == newBlocks
      && Output(file, blockingFactor, Done(), newRecord[..], n, out)
      && |out| <= BLOCKSIZE * Ordinal()
    }

    ghost predicate Holding(out: seq<byte>)
      reads this, record, newRecord
    {
      Put(out, newBlocks) && newBlocks < blockingFactor
    }

    /** The end of the archive has not been met. */
    ghost predicate Copying(out: seq<byte>)
      reads this, record, newRecord
    {
      Holding(out) && eofReads == 0 && !hitEof
    }

    /** A full new record is written over one that has been read. */
    method WriteFull(ghost out: seq<byte>)
      requires Put(out, blockingFactor) && eofReads == 0 && !hitEof
      modifies this`position, this`seekError, this`file, this`recordsWritten, this`newBlocks
      ensures Copying(out) && seekError == old(seekError)
    {
      hide RecordAt, OnFileBytes, InBuffer, Overwritten, Target, Output;
      ghost var done, bf, size := Done(), blockingFactor, BLOCKSIZE * blockingFactor;
      OutputSize(file, bf, done, newRecord[..], bf, out);
      BufferLimit(original, bf, record[..], start, cur, end, q);
      AtLess(done, q, bf);
      RecordWritten(original, bf, file, done, q, newRecord[..], out);
      TargetIs(position, q, bf, done - q);
      AtNext(done, bf);
      TargetIs(RecordAt(done + 1, bf), done + 1, bf, q - done - 1);
      WriteRecord(true);
    }

    /** Copy whole blocks into the new record. */
    method Fill(bytes: seq<byte>, ghost out: seq<byte>)
      requires Put(out, newBlocks) && |bytes| % BLOCKSIZE == 0
      requires BLOCKSIZE * newBlocks + |bytes| <= BLOCKSIZE * blockingFactor
      requires |out| + |bytes| <= BLOCKSIZE * Ordinal()
      modifies this`newBlocks, newRecord
      ensures Put(out + bytes, newBlocks) && newBlocks == old(newBlocks) + |bytes| / BLOCKSIZE
    {
      hide InBuffer, OnFile, Output;
      ghost var before := newRecord[..];
      var at := BLOCKSIZE * newBlocks;
      forall k | 0 <= k < |bytes| {
        newRecord[at + k] := bytes[k];
      }
      assert newRecord[..at] == before[..at] && newRecord[at..at + |bytes|] == bytes;
      OutputMore(file, blockingFactor, Done(), before, newRecord[..], newBlocks, out, bytes);
      newBlocks := newBlocks + |bytes| / BLOCKSIZE;
      assert record[..] == old(record[..]);
    }

    /** new_record[new_blocks++] = *block. */
    method PutBlock(block: seq<byte>, ghost out: seq<byte>)
      requires Copying(out) && |block| == BLOCKSIZE && |out| + BLOCKSIZE <= BLOCKSIZE * Ordinal()
      modifies this`position, this`seekError, this`file, this`recordsWritten, this`newBlocks, newRecord
      ensures Copying(out + block) && seekError == old(seekError)
    {
      hide InBuffer, OnFile, Output;
      Fill(block, out);
      if newBlocks == blockingFactor {
        WriteFull(out + block);
      }
    }

    /** write_recent_blocks. */
    method WriteRecentBlocks(blocks: seq<byte>, ghost out: seq<byte>)
      requires Copying(out) && |blocks| % BLOCKSIZE == 0 && |out| + |blocks| <= BLOCKSIZE * Ordinal()
      modifies this`position, this`seekError, this`file, this`recordsWritten, this`newBlocks, newRecord
      ensures Copying(out + blocks) && seekError == old(seekError)
    {
      hide Copying;
      assert out + blocks[..0] == out;
      var i := 0;
      while i < |blocks|
        invariant i <= |blocks| && i % BLOCKSIZE == 0 && seekError == old(seekError)
        invariant Copying(out + blocks[..i])
      {
        assert out + blocks[..i] + blocks[i..i + BLOCKSIZE] == out + blocks[..i + BLOCKSIZE];
        PutBlock(blocks[i..i + BLOCKSIZE], out + blocks[..i]);
        i := i + BLOCKSIZE;
      }
      assert blocks[..i] == blocks;
    }

    /** Hand out blocks of the buffer. */
    method Consume(count: nat) returns (bytes: seq<byte>)
      requires Valid() && cur + count <= end && cur < end
      modifies this`cur
      ensures Valid() && cur == old(cur) + count && !AtEnd(original, old(Ordinal()))
      ensures BLOCKSIZE * Ordinal() <= |original|
      ensures bytes == original[BLOCKSIZE * old(Ordinal())..BLOCKSIZE * Ordinal()]
    {
      hide OnFile, RecordAt, Times;
      bytes := record[BLOCKSIZE * cur..BLOCKSIZE * (cur + count)];
      BlocksOf(original, record[..], start, end, cur, count);
      cur := cur + count;
    }

    /** The next record, when a member's data should go on in it: flush_read is called directly here. */
    method NextDataRecord(ghost out: seq<byte>)
      requires Copying(out) && cur == end && 0 < end
      modifies this`position, this`cur, this`end, this`start, this`recordStartBlock, this`recordsRead, this`q, this`eofReads, record
      ensures Holding(out) && !hitEof && Ordinal() == old(Ordinal()) && cur == 0 <= end <= blockingFactor
      ensures 0 < end ==> Copying(out)
      ensures end == blockingFactor || AtEnd(original, start + end)
    {
      hide OnFile, RecordAt, HoldsBlocks, Output;
      if !AtEnd(original, Ordinal()) {
        FullBuffer(original, blockingFactor, record[..], start, cur, end, q);
      }
      start := start + end;
      cur := 0;
      FlushRead();
    }

    /** One round of the copying loop. */
    method CopyChunk(count: nat, ghost out: seq<byte>)
      requires Copying(out) && cur + count <= end && cur < end && newBlocks + count <= blockingFactor
      modifies this`position, this`seekError, this`file, this`recordsWritten, this`newBlocks, this`cur, newRecord
      ensures BLOCKSIZE * (old(Ordinal()) + count) <= |original|
      ensures Copying(out + original[BLOCKSIZE * old(Ordinal())..BLOCKSIZE * (old(Ordinal()) + count)])
      ensures cur == old(cur) + count && seekError == old(seekError)
    {
      hide InBuffer, OnFile, Output, AtEnd;
      var bytes := Consume(count);
      Fill(bytes, out);
      if newBlocks == blockingFactor {
        WriteFull(out + bytes);
      }
    }

    /** The copying of a member's data.  If the archive ends before they do, the source goes on with what
        the buffer held before; the copying is followed up to there. */
    method CopyData(blocks: nat, ghost out: seq<byte>) returns (stale: bool)
      requires Copying(out) && 0 < end
      modifies this, record, newRecord
      ensures stale <==> |original| < BLOCKSIZE * (old(Ordinal()) + blocks)
      ensures !stale ==> Copying(out + original[BLOCKSIZE * old(Ordinal())..BLOCKSIZE * (old(Ordinal()) + blocks)])
      ensures !stale ==> Ordinal() == old(Ordinal()) + blocks && seekError == old(seekError)
      ensures recordsSkipped == old(recordsSkipped)
    {
      hide Copying, Holding;
      ghost var from := Ordinal();
      var blocksToKeep: nat := blocks;
      CopyingBounds(out);
      CopiedNothing(original, from, out);
      var keptInRecord := Min(end - cur, blocksToKeep);
      while blocksToKeep > 0
        invariant blocksToKeep <= blocks && Ordinal() + blocksToKeep == from + blocks
        invariant BLOCKSIZE * Ordinal() <= |original|
        invariant Copying(out + original[BLOCKSIZE * from..BLOCKSIZE * Ordinal()])
        invariant 0 < end && cur <= end && seekError == old(seekError)
        invariant recordsSkipped == old(recordsSkipped)
        invariant keptInRecord == Min(end - cur, blocksToKeep)
      {
        ghost var sofar := out + original[BLOCKSIZE * from..BLOCKSIZE * Ordinal()];
        if cur == end {
          NextDataRecord(sofar);
          keptInRecord := Min(blockingFactor, blocksToKeep);
          if end < keptInRecord {
            return true;
          }
        }
        var count := CountFor(keptInRecord, sofar);
        ghost var ordinal := Ordinal();
        CopyChunk(count, sofar);
        CopiedMore(original, from, ordinal, ordinal + count, out);
        blocksToKeep := blocksToKeep - count;
        keptInRecord := keptInRecord - count;
      }
      stale := false;
    }

    /** flush_file: pass over a header and its data, as far as the archive goes.  If it ends right after
        them, this is noticed here already. */
    method FlushFile(blocks: nat, ghost out: seq<byte>)
      requires Copying(out) && cur < end
      modifies this`position, this`cur, this`end, this`start, this`recordStartBlock, this`recordsRead, this`q, this`eofReads, record
      ensures Holding(out) && !hitEof && old(Ordinal()) < Ordinal()
      ensures if BLOCKSIZE * (old(Ordinal()) + 1 + blocks) <= |original| then Ordinal() == old(Ordinal()) + 1 + blocks
              else AtEnd(original, Ordinal())
      ensures !AtEnd(original, Ordinal()) ==> Copying(out)
    {
      hide OnFile, Output, InBuffer;
      var skip: nat := blocks;
      ghost var goal := Ordinal() + 1 + blocks;
      BufferBounds();
      cur := cur + 1;
      StillBuffered(original, blockingFactor, record[..], start, cur - 1, cur, end, q);
      while end - cur <= skip
        invariant Holding(out) && Ordinal() + skip == goal && cur <= end && !hitEof && 0 < end
        invariant eofReads == 0
        decreases skip, if cur == end then 1 else 0
      {
        skip := skip - (end - cur);
        FlushArchive();
        if end == cur {
          assert AtEnd(original, Ordinal());
          return;
        }
        BufferBounds();
      }
      StillBuffered(original, blockingFactor, record[..], start, cur, cur + skip, end, q);
      cur := cur + skip;
    }

    lemma BufferBounds()
      requires Valid()
      ensures cur <= end <= blockingFactor && 0 < blockingFactor
    {
      hide OnFile;
    }

    lemma BufferInside()
      requires Valid() && cur < end
      ensures Inside()
    {
      hide OnFile;
    }

    lemma CopyingBounds(out: seq<byte>)
      requires Copying(out)
      ensures cur <= end <= blockingFactor && BLOCKSIZE * Ordinal() <= |original|
    {
      hide OnFile, Output;
    }

    method CountFor(kept: nat, ghost out: seq<byte>) returns (count: nat)
      requires Copying(out) && 0 < kept
      ensures 0 < count <= kept && newBlocks + count <= blockingFactor
    {
      hide InBuffer, OnFile, Output;
      count := Min(kept, blockingFactor - newBlocks);
    }

    // ----- reading headers while copying

    ghost function Remaining(): (rest: seq<byte>)
      requires Valid()
      reads this, record, newRecord
      ensures Inside() ==> BLOCKSIZE * Ordinal() + |rest| == |original|
      ensures AtEnd(original, Ordinal()) <==> |rest| < BLOCKSIZE
    {
      if BLOCKSIZE * Ordinal() <= |original| then original[BLOCKSIZE * Ordinal()..] else []
    }

    /** find_next_block, and the block it finds. */
    method CurrentBlock(ghost out: seq<byte>) returns (b: Block, found: bool)
      requires Holding(out) && !hitEof
      modifies this`position, this`cur, this`end, this`start, this`recordStartBlock, this`recordsRead, this`q, this`eofReads, this`hitEof, record
      ensures Holding(out) && Ordinal() == old(Ordinal()) && (found ==> Copying(out) && cur < end)
      ensures found <==> BLOCKSIZE <= |Remaining()|
      ensures if found then b == Remaining()[..BLOCKSIZE] else cur == end
      ensures !found && |original| <= RecordAt(old(q), blockingFactor) ==> 0 < eofReads
      ensures !found && 0 < old(end) && old(eofReads) == 0 ==> (eofReads == 0 <==> StrayBytes(|original|, blockingFactor))
    {
      hide OnFile, Output, RecordAt, Times, HoldsBlocks;
      if AtEnd(original, Ordinal()) && 0 < end {
        assert cur == end;
        StrayRead(original, blockingFactor, record[..], start, cur, end, q);
      }
      found := FindNextBlock();
      b := Zeros(BLOCKSIZE);
      if found {
        b := record[BLOCKSIZE * cur..BLOCKSIZE * (cur + 1)];
        BlocksOf(original, record[..], start, end, cur, 1);
      }
    }

    /** At most left blocks, as many as the buffer holds. */
    method TakeSome(left: nat, ghost out: seq<byte>) returns (bytes: seq<byte>, found: bool)
      requires Copying(out) && 0 < end && 0 < left
      modifies this`position, this`cur, this`end, this`start, this`recordStartBlock, this`recordsRead, this`q, this`eofReads, this`hitEof, record
      ensures Holding(out) && (found <==> !old(AtEnd(original, Ordinal())))
      ensures found ==> Copying(out) && 0 < end && old(Ordinal()) < Ordinal() <= old(Ordinal()) + left
      ensures found ==> BLOCKSIZE * Ordinal() <= |original|
      ensures found ==> bytes == original[BLOCKSIZE * old(Ordinal())..BLOCKSIZE * Ordinal()]
      ensures !found ==> Ordinal() == old(Ordinal()) && cur == end && (eofReads == 0 <==> StrayBytes(|original|, blockingFactor))
    {
      hide OnFile, Output, InBuffer;
      var b;
      b, found := CurrentBlock(out);
      BufferBounds();
      bytes := [];
      if found {
        bytes := Consume(Min(end - cur, left));
      }
    }

    /** The blocks of a long-name or long-link record, as much at a time as the buffer holds. */
    method TakeBlocks(count: nat, ghost out: seq<byte>) returns (bytes: seq<byte>, whole: bool)
      requires Copying(out) && cur < end && 0 < count
      modifies this`position, this`cur, this`end, this`start, this`recordStartBlock, this`recordsRead, this`q, this`eofReads, this`hitEof, record
      ensures Holding(out) && old(Ordinal()) < Ordinal()
      ensures whole <==> BLOCKSIZE * (old(Ordinal()) + count) <= |original|
      ensures whole ==> Copying(out) && 0 < end && Ordinal() == old(Ordinal()) + count
      ensures whole ==> bytes == original[BLOCKSIZE * old(Ordinal())..BLOCKSIZE * (old(Ordinal()) + count)]
      ensures !whole ==> cur == end && (eofReads == 0 <==> StrayBytes(|original|, blockingFactor))
    {
      hide Copying, Holding, StrayBytes;
      ghost var from := Ordinal();
      bytes := [];
      whole := true;
      var left: nat := count;
      CopyingBounds(out);
      assert Holding(out) && !AtEnd(original, from) by { CopyingMore(out); }
      while left > 0
        invariant Copying(out) && Holding(out) && 0 < end && BLOCKSIZE * Ordinal() <= |original|
        invariant left <= count && Ordinal() + left == from + count && (left == count ==> !AtEnd(original, from))
        invariant whole && bytes == original[BLOCKSIZE * from..BLOCKSIZE * Ordinal()]
      {
        ghost var ordinal := Ordinal();
        var chunk;
        chunk, whole := TakeSome(left, out);
        if !whole {
          return;
        }
        CopiedMore(original, from, ordinal, Ordinal(), []);
        bytes := bytes + chunk;
        left := left - |chunk| / BLOCKSIZE;
      }
    }

    lemma CopyingMore(out: seq<byte>)
      requires Copying(out)
      ensures Holding(out) && (cur < end ==> !AtEnd(original, Ordinal()))
    {
      hide OnFile, Output;
    }

    // ----- the end of the archive

    /** Fill the rest of the new record with zeros. */
    method ZeroRest(ghost out: seq<byte>) returns (zeroBlocks: nat)
      requires 0 < blockingFactor && newBlocks <= blockingFactor
      requires newRecord.Length == BLOCKSIZE * blockingFactor
      modifies newRecord
      ensures zeroBlocks == blockingFactor - newBlocks
      ensures old(Output(file, blockingFactor, Done(), newRecord[..], newBlocks, out))
              ==> Output(file, blockingFactor, Done(), newRecord[..], blockingFactor, out + Zeros(BLOCKSIZE * zeroBlocks))
    {
      hide Output;
      zeroBlocks := blockingFactor - newBlocks;
      ghost var before := newRecord[..];
      var at := BLOCKSIZE * newBlocks;
      forall k | at <= k < newRecord.Length {
        newRecord[k] := NUL;
      }
      assert newRecord[..at] == before[..at] && newRecord[at..at + BLOCKSIZE * zeroBlocks] == Zeros(BLOCKSIZE * zeroBlocks);
      if Output(file, blockingFactor, Done(), before, newBlocks, out) {
        OutputMore(file, blockingFactor, Done(), before, newRecord[..], newBlocks, out, Zeros(BLOCKSIZE * zeroBlocks));
      }
    }

    /** Where things stand after the first of two records of zeros, if no move failed. */
    ghost predicate Ending(out: seq<byte>, done: nat)
      reads this, record, newRecord
    {
      && newBlocks == 0 && done + 1 == Done() && eofReads <= done && recordsRead == q + eofReads
      && newRecord.Length == BLOCKSIZE * blockingFactor
      && position == RecordAt(q, blockingFactor) && |out| == RecordAt(done, blockingFactor) + BLOCKSIZE * (blockingFactor - 1)
      && (eofReads == 0 ==> done < q && Output(file, blockingFactor, done + 1, newRecord[..], 0, out + Zeros(BLOCKSIZE)))
    }

    /** Where things stand before the file is cut at the position. */
    ghost predicate Finished(out: seq<byte>, zeroBlocks: nat)
      reads this
    {
      && position <= |file|
      && if eofReads == 0 then OnBoundary(position, blockingFactor) && file[..position] == out + Zeros(BLOCKSIZE * zeroBlocks)
         else position < |out| + 2 * BLOCKSIZE
    }

    /** The first record of zeros. */
    method EndRecord(ghost out: seq<byte>) returns (zeroBlocks: nat)
      requires Holding(out) && !seekError && (eofReads == 0 ==> |out| < BLOCKSIZE * (start + end))
      modifies this`position, this`seekError, this`file, this`recordsWritten, this`newBlocks, newRecord
      ensures 0 < zeroBlocks <= blockingFactor && newBlocks == 0
      ensures eofReads == 0 ==> !seekError
      ensures seekError || if zeroBlocks < 2 then Ending(out, old(Done())) else Finished(out, zeroBlocks)
    {
      hide RecordAt, OnFileBytes, InBuffer, Overwritten, Target, Output, HoldsBlocks, OnBoundary, Zeros;
      ghost var done, bf, size := Done(), blockingFactor, BLOCKSIZE * blockingFactor;
      OutputSize(file, bf, done, newRecord[..], newBlocks, out);
      BufferLimit(original, bf, record[..], start, cur, end, q);
      zeroBlocks := ZeroRest(out);
      DoneAtMost(done, q, bf, |out|, BLOCKSIZE * (start + end));
      EndTargets(position, q, bf, done, eofReads);
      if eofReads == 0 {
        LastRecord(file, bf, done, newRecord[..], out + Zeros(BLOCKSIZE * zeroBlocks));
        AtBoundary(done + 1, bf);
      }
      WriteRecord(zeroBlocks < 2);
    }

    /** The second one, after a first one that had room for one block of zeros only. */
    method EndAgain(ghost out: seq<byte>, ghost done: nat) returns (zeroBlocks: nat)
      requires 0 < blockingFactor && newRecord.Length == BLOCKSIZE * blockingFactor && newBlocks == 0
      requires !seekError ==> Ending(out, done)
      requires eofReads == 0 ==> !seekError
      modifies this`position, this`seekError, this`file, this`recordsWritten, this`newBlocks, newRecord
      ensures zeroBlocks == blockingFactor
      ensures eofReads == 0 ==> !seekError
      ensures seekError || Finished(out, 1 + zeroBlocks)
    {
      hide RecordAt, Overwritten, Target, Output, OnBoundary, Zeros;
      ghost var bf := blockingFactor;
      zeroBlocks := ZeroRest(out + Zeros(BLOCKSIZE));
      if !seekError {
        ghost var k := done + 1 - eofReads;
        TargetIs(position, q, bf, k - q);
        AtNext(done, bf);
        AtNext(k, bf);
        if eofReads == 0 {
          ZerosTogether(out, bf);
          LastRecord(file, bf, done + 1, newRecord[..], out + Zeros(BLOCKSIZE * (1 + bf)));
          AtBoundary(done + 2, bf);
        } else {
          AtMonotone(k + 1, done + 1, bf);
        }
      }
      WriteRecord(false);
    }

    /** The end of the archive and the cutting of the file.  The loop around the zero records runs once or
        twice, for the second record holds at least one block.  If the end of the file was met, the file
        that results is not the one that was wanted. */
    method WriteEnd(ghost out: seq<byte>)
      requires Holding(out) && !seekError && (eofReads == 0 ==> |out| < BLOCKSIZE * (start + end))
      modifies this`position, this`seekError, this`file, this`recordsWritten, this`newBlocks, newRecord
      ensures eofReads == 0 <==> !seekError && ClosedBy(file, out, BLOCKSIZE * blockingFactor)
    {
      hide Ending, Finished, OnFile, InBuffer, Output, ClosedBy;
      ghost var done := Done();
      var total := EndRecord(out);
      if total < 2 {
        var more := EndAgain(out, done);
        total := total + more;
      }
      Cut(out, total);
      file := if position <= |file| then file[..position] else file + Zeros(position - |file|);
    }

    lemma Cut(out: seq<byte>, zeroBlocks: nat)
      requires 0 < blockingFactor && 2 <= zeroBlocks <= blockingFactor + 1
      requires eofReads == 0 ==> !seekError
      requires seekError || Finished(out, zeroBlocks)
      ensures !seekError ==> position <= |file|
      ensures !seekError ==> (eofReads == 0 <==> ClosedBy(file[..position], out, BLOCKSIZE * blockingFactor))
    {
    }
  }

  lemma ZerosTogether(out: seq<byte>, n: nat)
    ensures out + Zeros(BLOCKSIZE) + Zeros(BLOCKSIZE * n) == out + Zeros(BLOCKSIZE * (1 + n))
  {
  }

  ghost predicate OnBoundary(position: nat, bf: nat)
  {
    0 < bf && Remainder(position, BLOCKSIZE * bf) == 0
  }

  lemma AtBoundary(q: nat, bf: nat)
    requires 0 < bf
    ensures OnBoundary(RecordAt(q, bf), bf)
  {
    assert RecordAt(q, bf) == q * (BLOCKSIZE * bf);
    MultipleOf(q, BLOCKSIZE * bf);
  }

  /** Where the first record of zeros goes, with e reads too many counted, and the way back from there. */
  lemma EndTargets(position: nat, q: nat, bf: nat, done: nat, e: nat)
    requires 0 < bf && RecordAt(q, bf) - BLOCKSIZE * bf < position <= RecordAt(q, bf) && done <= q && (e == 0 ==> done < q)
    ensures RecordAt(done + 1, bf) == RecordAt(done, bf) + BLOCKSIZE * bf
    ensures done < e ==> Target(position, BLOCKSIZE * bf, done - q - e) < 0
    ensures e <= done ==> var k := done - e;
              && Target(position, BLOCKSIZE * bf, done - q - e) == RecordAt(k, bf)
              && Target(RecordAt(k, bf) + BLOCKSIZE * bf, BLOCKSIZE * bf, q - (k + 1)) == RecordAt(q, bf)
              && (0 < e ==> RecordAt(k, bf) + BLOCKSIZE * bf <= RecordAt(done, bf))
  {
    hide RecordAt, Target;
    TargetIs(position, q, bf, done - q - e);
    AtNext(done, bf);
    if e <= done {
      var k := done - e;
      AtNext(k, bf);
      TargetIs(RecordAt(k + 1, bf), k + 1, bf, q - (k + 1));
      if 0 < e {
        AtMonotone(k + 1, done, bf);
      }
    }
  }

  /** What has been put out does not reach beyond the records that were read. */
  lemma DoneAtMost(done: nat, q: nat, bf: nat, out: nat, next: nat)
    requires 0 < bf && RecordAt(done, bf) <= out <= next <= RecordAt(q, bf)
    ensures done <= q && (out < next ==> done < q)
  {
    if q < done {
      AtNext(q, bf);
      AtMonotone(q + 1, done, bf);
    }
  }

  /** Zeros fill the record: the last one written before the archive is cut. */
  lemma LastRecord(file: seq<byte>, bf: nat, done: nat, newRecord: seq<byte>, bytes: seq<byte>)
    requires 0 < bf && Output(file, bf, done, newRecord, bf, bytes)
    ensures var file' := Overwritten(file, RecordAt(done, bf), newRecord);
            |bytes| == RecordAt(done + 1, bf) <= |file'| && file'[..RecordAt(done + 1, bf)] == bytes
            && Output(file', bf, done + 1, newRecord, 0, bytes)
  {
    hide RecordAt;
    AtNext(done, bf);
    assert newRecord[..BLOCKSIZE * bf] == newRecord;
  }

  lemma StillBuffered(a: seq<byte>, bf: nat, record: seq<byte>, start: nat, cur: nat, cur': nat, end: nat, q: nat)
    requires InBuffer(a, bf, record, start, cur, end, q) && cur <= cur' <= end
    ensures InBuffer(a, bf, record, start, cur', end, q)
  {
    hide RecordAt, Times;
  }

  lemma CopiedNothing(a: seq<byte>, from: nat, out: seq<byte>)
    requires BLOCKSIZE * from <= |a|
    ensures out == out + a[BLOCKSIZE * from..BLOCKSIZE * from]
  {
  }

  lemma CopiedMore(a: seq<byte>, from: nat, i: nat, j: nat, out: seq<byte>)
    requires from <= i <= j && BLOCKSIZE * j <= |a|
    ensures out + a[BLOCKSIZE * from..BLOCKSIZE * i] + a[BLOCKSIZE * i..BLOCKSIZE * j]
         == out + a[BLOCKSIZE * from..BLOCKSIZE * j]
  {
  }

  lemma BlocksOf(a: seq<byte>, record: seq<byte>, start: nat, end: nat, cur: nat, count: nat)
    requires HoldsBlocks(a, record, start, end) && cur + count <= end
    ensures record[BLOCKSIZE * cur..BLOCKSIZE * (cur + count)]
         == a[BLOCKSIZE * (start + cur)..BLOCKSIZE * (start + cur + count)]
  {
  }

  /** A record after which the archive goes on is a full one. */
  lemma FullBuffer(a: seq<byte>, bf: nat, record: seq<byte>, start: nat, cur: nat, end: nat, q: nat)
    requires InBuffer(a, bf, record, start, cur, end, q) && 0 < end && !AtEnd(a, start + end)
    ensures end == bf
  {
    hide Times;
    TimesStep(q - 1, bf);
  }

  lemma OutputMore(file: seq<byte>, bf: nat, done: nat, old_: seq<byte>, new_: seq<byte>, n: nat, out: seq<byte>, bytes: seq<byte>)
    requires Output(file, bf, done, old_, n, out) && |new_| == |old_| && BLOCKSIZE * n + |bytes| <= BLOCKSIZE * bf
    requires |bytes| % BLOCKSIZE == 0
    requires new_[..BLOCKSIZE * n] == old_[..BLOCKSIZE * n] && new_[BLOCKSIZE * n..BLOCKSIZE * n + |bytes|] == bytes
    ensures Output(file, bf, done, new_, n + |bytes| / BLOCKSIZE, out + bytes)
  {
    hide RecordAt;
    var m := BLOCKSIZE * n + |bytes|;
    assert new_[..m] == new_[..BLOCKSIZE * n] + new_[BLOCKSIZE * n..m];
  }

  lemma OutputSize(file: seq<byte>, bf: nat, done: nat, newRecord: seq<byte>, newBlocks: nat, out: seq<byte>)
    requires Output(file, bf, done, newRecord, newBlocks, out)
    ensures |out| == RecordAt(done, bf) + BLOCKSIZE * newBlocks
  {
  }

  lemma BufferLimit(a: seq<byte>, bf: nat, record: seq<byte>, start: nat, cur: nat, end: nat, q: nat)
    requires InBuffer(a, bf, record, start, cur, end, q)
    ensures BLOCKSIZE * (start + cur) <= BLOCKSIZE * (start + end) <= RecordAt(q, bf)
  {
  }

  lemma AtLess(done: nat, q: nat, bf: nat)
    requires RecordAt(done, bf) + BLOCKSIZE * bf <= RecordAt(q, bf) && 0 < bf
    ensures done < q
  {
    if q <= done {
      AtMonotone(q, done, bf);
    }
  }
}

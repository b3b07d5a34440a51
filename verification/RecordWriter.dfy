/** Writing an archive through the record buffer: src/buffer.c and the writers of src/create.c. */
module RecordWriter {
  import opened Bytes

  /** The data of a member, filled up with zeros to a block boundary. */
  function Padded(data: seq<byte>): (p: seq<byte>)
    ensures |p| == BLOCKSIZE * BlocksFor(|data|) && data <= p
  {
    data + Zeros(BLOCKSIZE * BlocksFor(|data|) - |data|)
  }

  lemma PaddedConcat(a: seq<byte>, b: seq<byte>)
    requires |a| % BLOCKSIZE == 0
    ensures Padded(a) == a
    ensures Padded(a + b) == a + Padded(b)
  {
    hide BlocksFor;
    BlocksAdd(|a|, 0);
    BlocksAdd(|a|, |b|);
    assert |a + b| == |a| + |b|;
  }

  lemma PaddedStep(data: seq<byte>, done: nat, n: nat)
    requires done % BLOCKSIZE == 0 && done + n <= |data|
    ensures Padded(data[..done + n]) == Padded(data[..done]) + Padded(data[done..done + n])
  {
    assert data[..done] + data[done..done + n] == data[..done + n];
    PaddedConcat(data[..done], data[done..done + n]);
  }

  lemma DataStep(c: seq<byte>, data: seq<byte>, done: nat, n: nat)
    requires done % BLOCKSIZE == 0 && done + n <= |data|
    ensures c + Padded(data[..done]) + Padded(data[done..done + n]) == c + Padded(data[..done + n])
    ensures n % BLOCKSIZE == 0 ==> (done + n) % BLOCKSIZE == 0
  {
    hide Padded, BlocksFor;
    PaddedStep(data, done, n);
    Append(c, Padded(data[..done]), Padded(data[done..done + n]));
    BlocksAdd(done, n);
  }

  lemma PaddedNothing(c: seq<byte>, data: seq<byte>)
    ensures c == c + Padded(data[..0])
  {
  }

  lemma Append(a: seq<byte>, b: seq<byte>, c: seq<byte>)
    ensures (a + b) + c == a + (b + c)
  {
  }

  lemma RegionStart(c: seq<byte>, data: seq<byte>)
    ensures c == c + data[..0] + [] && BlocksFor(0) == 0
  {
  }

  lemma RegionStep(c: seq<byte>, data: seq<byte>, done: nat, n: nat, junk: seq<byte>)
    requires done + n <= |data| && done % BLOCKSIZE == 0 && done + |junk| == BLOCKSIZE * BlocksFor(done)
    ensures junk == []
    ensures c + data[..done] + junk + data[done..done + n] == c + data[..done + n]
    ensures BlocksFor(done + n) == done / BLOCKSIZE + BlocksFor(n) && done == BLOCKSIZE * (done / BLOCKSIZE)
    ensures n % BLOCKSIZE == 0 ==> (done + n) % BLOCKSIZE == 0
  {
    hide BlocksFor;
    BlocksAdd(done, n);
    assert data[..done] + data[done..done + n] == data[..done + n];
  }

  lemma TwoZeroBlocks(c: seq<byte>)
    ensures c + Padded(Zeros(BLOCKSIZE)) + Zeros(BLOCKSIZE) == c + Zeros(2 * BLOCKSIZE)
  {
  }

  /** All the records on the medium, one after the other. */
  function Flatten(records: seq<seq<byte>>): seq<byte> {
    if records == [] then [] else Flatten(records[..|records| - 1]) + records[|records| - 1]
  }

  /** Records of whole blocks make up whole blocks. */
  lemma {:induction false} FlattenAligned(records: seq<seq<byte>>, blockingFactor: nat)
    requires forall i :: 0 <= i < |records| ==> |records[i]| == BLOCKSIZE * blockingFactor
    ensures |Flatten(records)| % BLOCKSIZE == 0
  {
    if records != [] {
      FlattenAligned(records[..|records| - 1], blockingFactor);
      BlocksAdd(|Flatten(records[..|records| - 1])|, BLOCKSIZE * blockingFactor);
    }
  }

  lemma ContentsAligned(w: Writer)
    requires w.Valid()
    ensures |w.Contents()| % BLOCKSIZE == 0
  {
    hide Flatten;
    FlattenAligned(w.media, w.blockingFactor);
    BlocksAdd(|Flatten(w.media)|, BLOCKSIZE * w.cur);
  }

  class Writer {
    const blockingFactor: nat
    const record: array<byte>
    var media: seq<seq<byte>>           // the records written so far
    var cur: nat                        // current_block - record_start

    ghost predicate Valid()
      reads this, record
    {
      && 0 < blockingFactor && record.Length == BLOCKSIZE * blockingFactor
      && cur <= blockingFactor
      && forall i :: 0 <= i < |media| ==> |media[i]| == record.Length
    }

    /** Every block that has been filled and marked as used. */
    ghost function Contents(): seq<byte>
      requires Valid()
      reads this, record
    {
      Flatten(media) + record[..BLOCKSIZE * cur]
    }

    constructor (blockingFactor: nat)
      requires 0 < blockingFactor
      ensures Valid() && fresh(record) && Contents() == []
      ensures this.blockingFactor == blockingFactor
    {
      this.blockingFactor := blockingFactor;
      record := new byte[BLOCKSIZE * blockingFactor];
      media, cur := [], 0;
    }

    /** flush_archive while writing: the whole record goes out, used or not. */
    method FlushArchive()
      requires Valid()
      modifies this`media, this`cur
      ensures Valid() && cur == 0
      ensures media == old(media) + [record[..]]
      ensures old(cur) == blockingFactor ==> Contents() == old(Contents())
    {
      media := media + [record[..]];
      cur := 0;
      assert media[..|media| - 1] == old(media);
      assert record[..BLOCKSIZE * blockingFactor] == record[..];
    }

    /** find_next_block: afterwards there is room for at least one block. */
    method FindNextBlock()
      requires Valid()
      modifies this`media, this`cur
      ensures Valid() && cur < blockingFactor
      ensures Contents() == old(Contents())
      ensures if old(cur) < blockingFactor then media == old(media) && cur == old(cur) else cur == 0
    {
      if cur == blockingFactor {
        FlushArchive();
      }
    }

    /** Fill the free part of the record with text, zero the rest of its last block, and mark the
        blocks as used: the memcpy, memset and set_next_block_after that every writer does. */
    method Fill(text: seq<byte>)
      requires Valid() && 0 < |text| <= BLOCKSIZE * (blockingFactor - cur)
      modifies this`cur, record
      ensures Valid() && Contents() == old(Contents()) + Padded(text)
      ensures cur == old(cur) + BlocksFor(|text|)
    {
      ghost var before := record[..BLOCKSIZE * cur];
      var at, n := BLOCKSIZE * cur, BlocksFor(|text|);
      forall k | 0 <= k < BLOCKSIZE * n {
        record[at + k] := if k < |text| then text[k] else NUL;
      }
      cur := cur + n;
      assert record[..BLOCKSIZE * cur] == before + Padded(text);
    }

    /** Find the next block and fill it. */
    method WriteBlock(b: seq<byte>)
      requires Valid() && |b| == BLOCKSIZE
      modifies this, record
      ensures Valid() && Contents() == old(Contents()) + b
    {
      hide Flatten, Contents, Padded;
      FindNextBlock();
      PaddedConcat(b, []);
      Fill(b);
    }

    /** The writing loop of dump_regular_file and write_gnu_long_link: as much as the record takes,
        until all data has been stored. */
    method WriteData(data: seq<byte>)
      requires Valid()
      modifies this, record
      ensures Valid() && Contents() == old(Contents()) + Padded(data)
    {
      hide Padded, Flatten, Contents, BlocksFor;
      var done := 0;
      PaddedNothing(old(Contents()), data);
      while done < |data|
        invariant Valid() && done <= |data|
        invariant done < |data| ==> done % BLOCKSIZE == 0
        invariant Contents() == old(Contents()) + Padded(data[..done])
      {
        var n := PutChunk(data, done);
        DataStep(old(Contents()), data, done, n);
        done := done + n;
      }
      assert data[..done] == data;
    }

    /** As much of the data as the record takes. */
    method PutChunk(data: seq<byte>, done: nat) returns (n: nat)
      requires Valid() && done < |data|
      modifies this, record
      ensures Valid() && 0 < n && done + n <= |data| && (done + n == |data| || n % BLOCKSIZE == 0)
      ensures Contents() == old(Contents()) + Padded(data[done..done + n])
    {
      hide Padded, Flatten, Contents, BlocksFor;
      FindNextBlock();
      n := BLOCKSIZE * (blockingFactor - cur);
      if |data| - done < n {
        n := |data| - done;
      }
      Fill(data[done..done + n]);
    }

    /** Like Fill, but the way sparse_dump_region does it: the rest of the last block is zeroed only if
        less than one block was read, else it keeps whatever the record held there. */
    method FillRegion(text: seq<byte>) returns (ghost junk: seq<byte>)
      requires Valid() && 0 < |text| <= BLOCKSIZE * (blockingFactor - cur)
      modifies this`cur, record
      ensures Valid() && Contents() == old(Contents()) + text + junk
      ensures |text| + |junk| == BLOCKSIZE * BlocksFor(|text|)
      ensures |text| < BLOCKSIZE ==> junk == Zeros(|junk|)
    {
      ghost var before := record[..BLOCKSIZE * cur];
      var at, n := BLOCKSIZE * cur, BlocksFor(|text|);
      forall k | 0 <= k < |text| {
        record[at + k] := text[k];
      }
      if |text| < BLOCKSIZE {
        forall k | |text| <= k < BLOCKSIZE {
          record[at + k] := NUL;
        }
      }
      junk := record[at + |text|..at + BLOCKSIZE * n];
      cur := cur + n;
      assert record[..BLOCKSIZE * cur] == before + text + junk;
      Append(Flatten(media), before + text, junk);
      Append(Flatten(media), before, text);
    }

    /** The writing loop of sparse_dump_region. */
    method WriteRegion(data: seq<byte>) returns (ghost junk: seq<byte>)
      requires Valid()
      modifies this, record
      ensures Valid() && Contents() == old(Contents()) + data + junk
      ensures |data| + |junk| == BLOCKSIZE * BlocksFor(|data|)
    {
      hide Padded, Flatten, Contents, BlocksFor;
      var done := 0;
      junk := [];
      RegionStart(old(Contents()), data);
      while done < |data|
        invariant Valid() && done <= |data|
        invariant done < |data| ==> done % BLOCKSIZE == 0
        invariant done + |junk| == BLOCKSIZE * BlocksFor(done)
        invariant Contents() == old(Contents()) + data[..done] + junk
      {
        var n;
        ghost var more;
        n, more := PutRegionChunk(data, done);
        RegionStep(old(Contents()), data, done, n, junk);
        junk := more;
        done := done + n;
      }
      assert data[..done] == data;
    }

    /** As much of the region as the record takes. */
    method PutRegionChunk(data: seq<byte>, done: nat) returns (n: nat, ghost junk: seq<byte>)
      requires Valid() && done < |data|
      modifies this, record
      ensures Valid() && 0 < n && done + n <= |data| && (done + n == |data| || n % BLOCKSIZE == 0)
      ensures Contents() == old(Contents()) + data[done..done + n] + junk && n + |junk| == BLOCKSIZE * BlocksFor(n)
    {
      hide Padded, Flatten, Contents, BlocksFor;
      FindNextBlock();
      n := BLOCKSIZE * (blockingFactor - cur);
      if |data| - done < n {
        n := |data| - done;
      }
      junk := FillRegion(data[done..done + n]);
    }

    /** write_eot: a zero block, then zeros through the end of the record that holds the next one. */
    method WriteEot()
      requires Valid()
      modifies this, record
      ensures Valid() && 0 < cur
      ensures Contents() == old(Contents()) + Zeros(2 * BLOCKSIZE)
      ensures forall k :: BLOCKSIZE * cur <= k < record.Length ==> record[k] == NUL
    {
      hide Padded, Flatten;
      FindNextBlock();
      Fill(Zeros(BLOCKSIZE));
      FindNextBlock();
      ghost var before := record[..BLOCKSIZE * cur];
      var at := BLOCKSIZE * cur;
      forall k | at <= k < record.Length {
        record[k] := NUL;
      }
      cur := cur + 1;
      assert record[..BLOCKSIZE * cur] == before + Zeros(BLOCKSIZE);
      Append(Flatten(media), before, Zeros(BLOCKSIZE));
      TwoZeroBlocks(old(Contents()));
    }

    /** The flush loop of close_archive. */
    method Close()
      requires Valid()
      modifies this`media, this`cur
      ensures Valid() && cur == 0
      ensures media == old(media) + [record[..]]
      ensures Flatten(media) == old(Contents()) + record[BLOCKSIZE * old(cur)..]
    {
      FlushArchive();
      assert cur == 0;  // so the loop ends after its first pass
      assert media[..|media| - 1] == old(media);
      assert record[..] == record[..BLOCKSIZE * old(cur)] + record[BLOCKSIZE * old(cur)..];
    }
  }
}

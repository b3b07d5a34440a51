/** delete_archive_members of src/delete.c. */
module DeleteMembers {
  import opened Bytes
  import opened HeaderNumbers
  import opened HeaderBlock
  import opened ArchiveFormat
  import opened ArchiveReading
  import opened Deletion
  import opened ArchiveUpdate

  /** tar_checksum and the size field. */
  method CheckHeader(b: Block) returns (status: Status, size: nat)
    ensures status == HeaderStatus(b) && (status == Success ==> HeaderSize(b) == Some(size))
  {
    size := 0;
    status := TarChecksum(b);
    if status == Success {
      var field := FromHeader(b[124..136], true, 0, INTMAX_MAX, false);
      if field.None? || field.value < 0 {
        status := Failure;
      } else {
        size := field.value;
      }
    }
  }

  /** Pass over a long-name or long-link record, whose header is the current block, and return it. */
  method TakeLong(u: Updater, size: nat, ghost out: seq<byte>) returns (blocks: seq<byte>, whole: bool)
    requires u.Copying(out) && u.cur < u.end
    modifies u`position, u`cur, u`end, u`start, u`recordStartBlock, u`recordsRead, u`q, u`eofReads, u`hitEof, u.record
    ensures u.Holding(out) && old(u.Ordinal()) < u.Ordinal() && (whole <==> Span(size) <= |old(u.Remaining())|)
    ensures whole ==> u.Copying(out) && 0 < u.end && blocks == old(u.Remaining())[..Span(size)]
    ensures whole ==> u.Remaining() == old(u.Remaining())[Span(size)..]
    ensures !whole ==> u.cur == u.end && (u.eofReads == 0 <==> StrayBytes(|u.original|, u.blockingFactor))
  {
    hide OnFile, Output, InBuffer, BlocksFor, StrayBytes;
    ghost var a, from, n := u.original, BLOCKSIZE * u.Ordinal(), Span(size);
    blocks, whole := u.TakeBlocks(1 + BlocksFor(size), out);
    if whole {
      assert a[from..][..n] == a[from..from + n];
      assert a[from..][n..] == a[from + n..];
    }
  }

  /** Where the end of the archive leaves the reader of headers. */
  ghost predicate Ran(u: Updater, out: seq<byte>, rest: seq<byte>, q: nat)
    reads u, u.record, u.newRecord
  {
    && u.Holding(out)
    && if |rest| < BLOCKSIZE then |u.original| <= RecordAt(q, u.blockingFactor) ==> 0 < u.eofReads
       else (u.eofReads == 0 <==> StrayBytes(|u.original|, u.blockingFactor)) && |out| < BLOCKSIZE * (u.start + u.end)
  }

  /** read_header in the mode that passes over long-name and long-link records.  When the archive ends
      inside one, find_next_block gives nothing from then on. */
  method ReadHeader(u: Updater, ghost out: seq<byte>)
    returns (status: Status, longName: seq<byte>, longLink: seq<byte>, header: Block, name: seq<byte>, size: nat)
    requires u.Holding(out) && !u.hitEof
    modifies u`position, u`cur, u`end, u`start, u`recordStartBlock, u`recordsRead, u`q, u`eofReads, u`hitEof, u.record
    ensures u.Holding(out)
    ensures var n := NextMember(old(u.Remaining()), [], []);
            && status == n.status
            && (status != EndOfFile ==> u.Copying(out) && u.cur < u.end && u.Remaining() == n.rest && header == n.rest[..BLOCKSIZE])
            && (status == Success ==> longName == n.longName && longLink == n.longLink && name == n.name && size == n.size)
    ensures status == EndOfFile ==> Ran(u, out, old(u.Remaining()), old(u.q))
  {
    hide HeaderStatus, HeaderSize, NameOf, BlocksFor, OnFile, Output, InBuffer, RecordAt, StrayBytes;
    longName, longLink, name := [], [], [];
    ghost var n, from := NextMember(u.Remaining(), [], []), u.Ordinal();
    var first := true;
    while true
      invariant u.Holding(out) && !u.hitEof
      invariant NextMember(u.Remaining(), longName, longLink) == n
      invariant first ==> u.q == old(u.q) && u.Remaining() == old(u.Remaining())
      invariant !first ==> u.Copying(out) && BLOCKSIZE <= |old(u.Remaining())| && 0 < u.end && |out| < BLOCKSIZE * u.Ordinal()
      decreases |u.Remaining()|
    {
      var found;
      header, found := u.CurrentBlock(out);
      if !found {
        status, size := EndOfFile, 0;
        return;
      }
      status, size := CheckHeader(header);
      if status != Success {
        return;
      }
      if IsLong(header[156]) {
        var blocks, whole := TakeLong(u, size, out);
        if !whole {
          status := EndOfFile;
          return;
        }
        if header[156] == LONGNAME {
          longName := blocks;
        } else {
          longLink := blocks;
        }
        first := false;
      } else if IsPax(header[156]) {
        status := SuccessExtended;
        return;
      } else {
        name := NameOf(longName, header);
        size := if HasNoData(header[156]) then 0 else size;
        return;
      }
    }
  }

  /** The current member is kept: its long records, its header and its data are copied. */
  method KeepMember(u: Updater, longName: seq<byte>, longLink: seq<byte>, size: nat, ghost out: seq<byte>) returns (stale: bool)
    requires u.Copying(out) && u.cur < u.end
    requires |longName| % BLOCKSIZE == 0 && |longLink| % BLOCKSIZE == 0
    requires |out| + |longName| + |longLink| <= BLOCKSIZE * u.Ordinal()
    modifies u, u.record, u.newRecord
    ensures stale <==> |old(u.Remaining())| < Span(size)
    ensures !stale ==> u.Copying(out + longName + longLink + old(u.Remaining())[..Span(size)])
    ensures !stale ==> u.Remaining() == old(u.Remaining())[Span(size)..] && u.seekError == old(u.seekError)
  {
    hide OnFile, Output, InBuffer, BlocksFor, AtEnd, Span;
    u.WriteRecentBlocks(longName, out);
    u.WriteRecentBlocks(longLink, out + longName);
    stale := KeepBlocks(u, size, out + longName + longLink);
  }

  /** The header and the data of a kept member. */
  method KeepBlocks(u: Updater, size: nat, ghost out: seq<byte>) returns (stale: bool)
    requires u.Copying(out) && u.cur < u.end
    modifies u, u.record, u.newRecord
    ensures stale <==> |old(u.Remaining())| < Span(size)
    ensures !stale ==> u.Copying(out + old(u.Remaining())[..Span(size)])
    ensures !stale ==> u.Remaining() == old(u.Remaining())[Span(size)..] && u.seekError == old(u.seekError)
  {
    hide OnFile, Output, InBuffer, BlocksFor, AtEnd;
    ghost var a, from := u.original, u.Ordinal();
    var header := u.Consume(1);
    u.PutBlock(header, out);
    stale := u.CopyData(BlocksFor(size), out + header);
    if !stale {
      SpanOf(a, from, size, out);
    }
  }

  lemma SpanOf(a: seq<byte>, from: nat, size: nat, out: seq<byte>)
    requires BLOCKSIZE * from + Span(size) <= |a|
    ensures var i, j := from + 1, from + 1 + BlocksFor(size);
            && out + a[BLOCKSIZE * from..BLOCKSIZE * i] + a[BLOCKSIZE * i..BLOCKSIZE * j] == out + a[BLOCKSIZE * from..][..Span(size)]
            && a[BLOCKSIZE * from..][Span(size)..] == a[BLOCKSIZE * j..]
  {
    hide BlocksFor;
    CopiedMore(a, from, from + 1, from + 1 + BlocksFor(size), out);
    assert a[BLOCKSIZE * from..][..Span(size)] == a[BLOCKSIZE * from..BLOCKSIZE * (from + 1 + BlocksFor(size))];
  }

  method DropMember(u: Updater, size: nat, ghost out: seq<byte>)
    requires u.Copying(out) && u.cur < u.end
    modifies u`position, u`cur, u`end, u`start, u`recordStartBlock, u`recordsRead, u`q, u`eofReads, u.record
    ensures u.Holding(out) && !u.hitEof && |u.Remaining()| < |old(u.Remaining())|
    ensures if Span(size) <= |old(u.Remaining())| then u.Remaining() == old(u.Remaining())[Span(size)..]
            else |u.Remaining()| < BLOCKSIZE
  {
    hide OnFile, Output, InBuffer, BlocksFor;
    ghost var a, from := u.original, BLOCKSIZE * u.Ordinal();
    u.FlushFile(BlocksFor(size), out);
    if from + Span(size) <= |a| {
      assert a[from..][Span(size)..] == a[from + Span(size)..];
    }
  }

  method SkipBlock(u: Updater, ghost out: seq<byte>)
    requires u.Copying(out) && u.cur < u.end && BLOCKSIZE <= |u.Remaining()|
    modifies u`cur
    ensures u.Copying(out) && u.Remaining() == old(u.Remaining())[BLOCKSIZE..]
  {
    hide OnFile, Output, InBuffer, AtEnd;
    ghost var a, from := u.original, BLOCKSIZE * u.Ordinal();
    var header := u.Consume(1);
    assert a[from..][BLOCKSIZE..] == a[from + BLOCKSIZE..];
  }

  /** What is out, followed by what the unread bytes are to give, is the whole of what is wanted. */
  ghost predicate Progress(out: seq<byte>, rest: seq<byte>, wanted: seq<byte>, ending: Ending, doomed: seq<byte> -> bool) {
    EndingOf(rest, doomed) == ending && wanted == out + Kept(rest, doomed)
  }

  lemma ProgressMember(out: seq<byte>, rest: seq<byte>, wanted: seq<byte>, ending: Ending, doomed: seq<byte> -> bool)
    requires Progress(out, rest, wanted, ending, doomed) && NextMember(rest, [], []).status == Success
    ensures var n := NextMember(rest, [], []);
            && |n.longName| % BLOCKSIZE == 0 && |n.longLink| % BLOCKSIZE == 0
            && if Span(n.size) <= |n.rest|
               then Progress(if doomed(n.name) then out else out + n.longName + n.longLink + n.rest[..Span(n.size)],
                             n.rest[Span(n.size)..], wanted, ending, doomed)
               else ending == (if doomed(n.name) then FileEnd else KeptEnd) && wanted == out
  {
    hide NextMember, Span;
    LongBlocks(rest, [], []);
    var n := NextMember(rest, [], []);
    if Span(n.size) <= |n.rest| {
      Regroup(out, n.longName, n.longLink, n.rest[..Span(n.size)], Kept(n.rest[Span(n.size)..], doomed));
    }
  }

  lemma ProgressEnd(out: seq<byte>, rest: seq<byte>, doomed: seq<byte> -> bool)
    requires |rest| < BLOCKSIZE
    ensures Progress(out, rest, out, FileEnd, doomed)
  {
  }

  lemma Regroup(o: seq<byte>, a: seq<byte>, b: seq<byte>, c: seq<byte>, d: seq<byte>)
    ensures o + (a + b + c + d) == (o + a + b + c) + d
  {
  }

  lemma ProgressOther(out: seq<byte>, rest: seq<byte>, wanted: seq<byte>, ending: Ending, doomed: seq<byte> -> bool)
    requires Progress(out, rest, wanted, ending, doomed)
    ensures var n := NextMember(rest, [], []);
            match n.status
            case Success => true
            case Failure => Progress(out, n.rest[BLOCKSIZE..], wanted, ending, doomed)
            case ZeroBlock => ending == ZeroEnd && wanted == out
            case EndOfFile => ending == (if |rest| < BLOCKSIZE then FileEnd else LongEnd) && wanted == out
            case SuccessExtended => ending == PaxEnd
            case _ => false
  {
    hide NextMember, Span;
  }

  /** How deletion ends.  StaleData and Extended mark where this model stops. */
  datatype Outcome = Untouched | Deleted | Fatal | StaleData | Extended

  function OutcomeOf(ending: Ending): Outcome {
    match ending
    case KeptEnd => StaleData
    case PaxEnd => Extended
    case _ => Deleted
  }

  /** No read came back empty: a zero block ended the search, or less than a block that was left over. */
  predicate NoEmptyRead(ending: Ending, total: nat, bf: nat)
    requires 0 < bf
  {
    ending == ZeroEnd || (ending == LongEnd && StrayBytes(total, bf))
  }

  /** Where the copying loop must get to. */
  ghost predicate Copied(u: Updater, out: seq<byte>, ending: Ending)
    reads u, u.record, u.newRecord
  {
    && u.Holding(out) && !u.seekError
    && (u.eofReads == 0 <==> NoEmptyRead(ending, |u.original|, u.blockingFactor))
    && (u.eofReads == 0 ==> |out| < BLOCKSIZE * (u.start + u.end))
  }

  /** if (current_block == record_end) flush_archive () */
  method FillRecord(u: Updater, ghost out: seq<byte>)
    requires u.Holding(out) && !u.hitEof
    modifies u`position, u`cur, u`end, u`start, u`recordStartBlock, u`recordsRead, u`q, u`eofReads, u.record
    ensures u.Holding(out) && !u.hitEof && u.Remaining() == old(u.Remaining())
    ensures |u.Remaining()| < BLOCKSIZE ==> |u.original| <= RecordAt(u.q, u.blockingFactor)
  {
    hide OnFile, Output, RecordAt, HoldsBlocks;
    if u.cur == u.end {
      u.FlushArchive();
    }
  }

  /** A member whose header is the current block is dropped or kept. */
  method MoveMember(u: Updater, longName: seq<byte>, longLink: seq<byte>, name: seq<byte>, size: nat, doomed: seq<byte> -> bool,
                    ghost rest: seq<byte>, ghost out: seq<byte>, ghost wanted: seq<byte>, ghost ending: Ending)
    returns (stale: bool, ghost out': seq<byte>)
    requires u.Copying(out) && !u.seekError && u.cur < u.end && |out| + |rest| <= |u.original|
    requires Progress(out, rest, wanted, ending, doomed)
    requires NextMember(rest, [], []) == Next(Success, longName, longLink, name, size, u.Remaining())
    modifies u, u.record, u.newRecord
    ensures stale ==> ending == KeptEnd
    ensures !stale ==> u.Valid() && u.Holding(out') && !u.hitEof && !u.seekError && |u.Remaining()| < |rest|
    ensures !stale ==> Progress(out', u.Remaining(), wanted, ending, doomed)
  {
    hide Progress, Updater.Valid, Updater.Holding, NextMember, BlocksFor;
    ProgressMember(out, rest, wanted, ending, doomed);
    stale, out' := false, out;
    HoldingFacts(u, out);
    ghost var at := u.Remaining();
    if doomed(name) {
      DropMember(u, size, out);
      HoldingFacts(u, out);
      if |at| < Span(size) {
        ProgressEnd(out, u.Remaining(), doomed);
      }
    } else {
      stale := KeepMember(u, longName, longLink, size, out);
      if !stale {
        out' := out + longName + longLink + at[..Span(size)];
        HoldingFacts(u, out');
      }
    }
  }

  /** The second pass: skip matching members and move the rest up. */
  method CopyRest(u: Updater, doomed: seq<byte> -> bool, ghost out0: seq<byte>, ghost wanted: seq<byte>, ghost ending: Ending)
    returns (outcome: Outcome)
    requires u.Holding(out0) && !u.hitEof && !u.seekError
    requires Progress(out0, u.Remaining(), wanted, ending, doomed)
    modifies u, u.record, u.newRecord
    ensures outcome == OutcomeOf(ending) && (outcome == Deleted ==> Copied(u, wanted, ending))
  {
    hide Progress, Updater.Valid, Updater.Holding, NextMember, RecordAt, BlocksFor, StrayBytes;
    HoldingFacts(u, out0);
    ghost var out := out0;
    while true
      invariant u.Valid() && u.Holding(out) && !u.hitEof && !u.seekError
      invariant Progress(out, u.Remaining(), wanted, ending, doomed)
      decreases |u.Remaining()|
    {
      ghost var rest := u.Remaining();
      ProgressOther(out, rest, wanted, ending, doomed);
      FillRecord(u, out);
      HoldingFacts(u, out);
      var status, longName, longLink, header, name, size := ReadHeader(u, out);
      if status == Success {
        var stale;
        stale, out := MoveMember(u, longName, longLink, name, size, doomed, rest, out, wanted, ending);
        if stale {
          return StaleData;
        }
      } else if status == Failure {
        SkipBlock(u, out);
        HoldingFacts(u, out);
      } else if status == SuccessExtended {
        return Extended;
      } else {
        HoldingFacts(u, out);
        return Deleted;
      }
    }
  }

  lemma HoldingFacts(u: Updater, out: seq<byte>)
    requires u.Holding(out)
    ensures u.Valid() && |out| + |u.Remaining()| <= |u.original| == BLOCKSIZE * u.Ordinal() + |u.Remaining()|
  {
    hide Updater.Valid, Output;
  }


  // ----- the first pass

  /** Reading only: nothing has been written, and the end of the archive has not been met. */
  ghost predicate Passing(u: Updater)
    reads u, u.record, u.newRecord
  {
    && u.Valid() && u.recordStartBlock == u.start && u.eofReads == 0 && !u.hitEof
    && u.file == u.original && u.recordsWritten == 0 && !u.seekError
  }

  /** find_next_block in the first pass. */
  method NextBlock(u: Updater) returns (b: Block, found: bool)
    requires Passing(u)
    modifies u`position, u`cur, u`end, u`start, u`recordStartBlock, u`recordsRead, u`q, u`eofReads, u`hitEof, u.record
    ensures u.Valid() && u.Remaining() == old(u.Remaining()) && (old(u.Inside()) ==> u.Inside())
    ensures found <==> BLOCKSIZE <= |u.Remaining()|
    ensures found ==> Passing(u) && u.cur < u.end && b == u.Remaining()[..BLOCKSIZE]
  {
    hide OnFile, RecordAt, HoldsBlocks;
    found := u.FindNextBlock();
    b := Zeros(BLOCKSIZE);
    if found {
      b := u.record[BLOCKSIZE * u.cur..BLOCKSIZE * (u.cur + 1)];
      BlocksOf(u.original, u.record[..], u.start, u.end, u.cur, 1);
    }
  }

  /** skim_file in the first pass.  Data that is not all there is a fatal error, unless a seek passes over
      all of it: then the archive just seems to end. */
  method SkimFile(u: Updater, size: nat, seekable: bool) returns (fatal: bool)
    requires Passing(u) && u.Inside() && 0 < u.cur
    modifies u`position, u`cur, u`end, u`start, u`recordStartBlock, u`recordsRead, u`q, u`eofReads, u`hitEof, u.record
    ensures fatal <==> |old(u.Remaining())| < BLOCKSIZE * BlocksFor(size)
                       && !(seekable && SeeksAll(|u.original|, old(u.Ordinal()) - 1, size, u.blockingFactor))
    ensures !fatal ==> Passing(u)
    ensures if BLOCKSIZE * BlocksFor(size) <= |old(u.Remaining())|
            then u.Inside() && u.Remaining() == old(u.Remaining())[BLOCKSIZE * BlocksFor(size)..]
            else !fatal ==> u.Remaining() == []
  {
    hide Updater.Valid, SeeksAll;
    u.BufferBounds();
    ghost var a, from, goal := u.original, BLOCKSIZE * u.Ordinal(), u.Ordinal() + BlocksFor(size);
    var left: int := size;
    if seekable {
      var nblk := u.SeekArchive(size);
      left := left - nblk * BLOCKSIZE;
    }
    while left > 0
      invariant Passing(u) && u.Ordinal() + (if left > 0 then BlocksFor(left) else 0) == goal
      invariant u.Inside() <==> BLOCKSIZE * u.Ordinal() <= |a|
      invariant 0 < size && left <= 0 && |a| < BLOCKSIZE * goal ==> seekable && SeeksAll(|a|, from / BLOCKSIZE - 1, size, u.blockingFactor)
    {
      fatal := SkipNext(u);
      if fatal {
        return;
      }
      left := left - BLOCKSIZE;
    }
    fatal := false;
    if BLOCKSIZE * goal <= |a| {
      assert a[from..][BLOCKSIZE * BlocksFor(size)..] == a[BLOCKSIZE * goal..];
    }
  }

  /** Pass over one block, if it is there. */
  method SkipNext(u: Updater) returns (fatal: bool)
    requires Passing(u)
    modifies u`position, u`cur, u`end, u`start, u`recordStartBlock, u`recordsRead, u`q, u`eofReads, u`hitEof, u.record
    ensures fatal <==> old(AtEnd(u.original, u.Ordinal()))
    ensures !fatal ==> Passing(u) && u.Inside() && u.Ordinal() == old(u.Ordinal()) + 1
  {
    hide OnFile, InBuffer, AtEnd;
    var found := u.FindNextBlock();
    fatal := !found;
    if found {
      u.BufferInside();
      var x := u.Consume(1);
    }
  }

  /** skim_member. */
  method SkimMember(u: Updater, size: nat, seekable: bool) returns (fatal: bool)
    requires Passing(u) && u.Inside() && u.cur < u.end
    modifies u`position, u`cur, u`end, u`start, u`recordStartBlock, u`recordsRead, u`q, u`eofReads, u`hitEof, u.record
    ensures fatal <==> |old(u.Remaining())| < Span(size)
                       && !(seekable && SeeksAll(|u.original|, old(u.Ordinal()), size, u.blockingFactor))
    ensures !fatal ==> Passing(u)
    ensures if Span(size) <= |old(u.Remaining())| then u.Inside() && u.Remaining() == old(u.Remaining())[Span(size)..]
            else !fatal ==> u.Remaining() == []
  {
    hide OnFile, InBuffer, BlocksFor, AtEnd, SeeksAll;
    ghost var rest := u.Remaining();
    ghost var a, from := u.original, BLOCKSIZE * u.Ordinal();
    var x := u.Consume(1);
    assert a[from..][BLOCKSIZE..] == a[from + BLOCKSIZE..];
    fatal := SkimFile(u, size, seekable);
    if Span(size) <= |rest| {
      assert rest[BLOCKSIZE..][BLOCKSIZE * BlocksFor(size)..] == rest[Span(size)..];
    }
  }

  /** The archive is cut off inside the data of the member at rest, and a seek passes over all of it. */
  ghost predicate Unnoticed(file: seq<byte>, rest: seq<byte>, bf: nat)
    requires 0 < bf && BLOCKSIZE <= |rest| <= |file| && HeaderStatus(rest[..BLOCKSIZE]) == Success
  {
    SeeksAll(|file|, (|file| - |rest|) / BLOCKSIZE, SkippedSize(rest[..BLOCKSIZE]), bf)
  }

  /** The first pass is at a block it can go on from, or it has passed over the end unnoticed. */
  ghost predicate Searching(u: Updater, f: First, doomed: seq<byte> -> bool, seekable: bool)
    reads u, u.record, u.newRecord
  {
    && Passing(u)
    && if f.status == Failure && u.Remaining() == []
       then |f.rest| <= |u.original| && BLOCKSIZE <= |f.rest| && HeaderStatus(f.rest[..BLOCKSIZE]) == Success
            && seekable && Unnoticed(u.original, f.rest, u.blockingFactor)
       else u.Inside() && FirstDoomed(u.Remaining(), doomed) == f
  }

  /** A member that is not doomed, in the first pass. */
  method PassMember(u: Updater, size: nat, doomed: seq<byte> -> bool, seekable: bool, ghost f: First) returns (fatal: bool)
    requires Passing(u) && u.Inside() && u.cur < u.end && BLOCKSIZE <= |u.Remaining()|
    requires HeaderStatus(u.Remaining()[..BLOCKSIZE]) == Success && size == SkippedSize(u.Remaining()[..BLOCKSIZE])
    requires f == if |u.Remaining()| < Span(size) then First(Failure, u.Remaining()) else FirstDoomed(u.Remaining()[Span(size)..], doomed)
    modifies u`position, u`cur, u`end, u`start, u`recordStartBlock, u`recordsRead, u`q, u`eofReads, u`hitEof, u.record
    ensures |f.rest| <= |old(u.Remaining())|
    ensures fatal <==> |old(u.Remaining())| < Span(size) && !(seekable && Unnoticed(u.original, f.rest, u.blockingFactor))
    ensures !fatal ==> u.Valid() && Searching(u, f, doomed, seekable) && |u.Remaining()| < |old(u.Remaining())|
  {
    hide HeaderStatus, HeaderSize, SkippedSize, BlocksFor, OnFile, InBuffer, Updater.Valid, SeeksAll, FirstDoomed;
    PassingFacts(u);
    fatal := SkimMember(u, size, seekable);
    if !fatal && f.status == Failure && u.Remaining() == [] {
      FirstOfEnd([], doomed);
    }
  }

  lemma PassingFacts(u: Updater)
    requires Passing(u) && u.Inside()
    ensures 0 < u.blockingFactor && BLOCKSIZE * u.Ordinal() + |u.Remaining()| == |u.original|
  {
    hide OnFile, InBuffer;
  }

  /** One step of the search for a doomed member. */
  lemma FirstStep(rest: seq<byte>, doomed: seq<byte> -> bool)
    requires BLOCKSIZE <= |rest|
    ensures var b: Block := rest[..BLOCKSIZE];
            var f := FirstDoomed(rest, doomed);
            if HeaderStatus(b) == Success then
              if IsLong(b[156]) || IsPax(b[156]) then f == First(SuccessExtended, rest)
              else if doomed(HeaderName(b)) then
                f == First(Success, rest)
                && NextMember(rest, [], []) == Next(Success, [], [], HeaderName(b), if HasNoData(b[156]) then 0 else HeaderSize(b).value, rest)
              else f == if |rest| < Span(SkippedSize(b)) then First(Failure, rest) else FirstDoomed(rest[Span(SkippedSize(b))..], doomed)
            else if HeaderStatus(b) == Failure then f == FirstDoomed(rest[BLOCKSIZE..], doomed)
            else f == First(EndOfFile, rest)
  {
    hide HeaderStatus, HeaderSize, HeaderName, SkippedSize, BlocksFor;
  }

  /** Skip to the first member that matches the names. */
  method FirstPass(u: Updater, doomed: seq<byte> -> bool, seekable: bool) returns (status: Status, size: nat)
    requires Passing(u) && u.Inside()
    modifies u`position, u`cur, u`end, u`start, u`recordStartBlock, u`recordsRead, u`q, u`eofReads, u`hitEof, u.record
    ensures 0 < u.blockingFactor
    ensures var f := FirstDoomed(old(u.Remaining()), doomed);
            && |f.rest| <= |u.original|
            && status == (if f.status == Failure && seekable && Unnoticed(u.original, f.rest, u.blockingFactor) then EndOfFile else f.status)
            && (status == Success || status == SuccessExtended ==> Passing(u) && u.Inside() && u.cur < u.end && u.Remaining() == f.rest)
            && (status == Success ==> var n := NextMember(f.rest, [], []);
                                      n.status == Success && doomed(n.name) && n.size == size && n.rest == f.rest)
  {
    hide HeaderStatus, HeaderSize, HeaderName, OnFile, InBuffer, Updater.Valid, FirstDoomed, NextMember, Unnoticed, Span,
         IsLong, IsPax, HasNoData, IsDirectory;
    ghost var f := FirstDoomed(u.Remaining(), doomed);
    PassingFacts(u);
    FirstOfEnd([], doomed);
    while true
      invariant Searching(u, f, doomed, seekable)
      decreases |u.Remaining()|
    {
      var header, found := NextBlock(u);
      if !found {
        FirstOfEnd(u.Remaining(), doomed);
        return EndOfFile, 0;
      }
      FirstStep(u.Remaining(), doomed);
      status, size := CheckHeader(header);
      if status == Success {
        if IsLong(header[156]) || IsPax(header[156]) {
          return SuccessExtended, 0;
        }
        var name := HeaderName(header);
        if doomed(name) {
          return Success, if HasNoData(header[156]) then 0 else size;
        }
        if HasNoData(header[156]) || IsDirectory(header[156], name) {
          size := 0;
        }
        var fatal := PassMember(u, size, doomed, seekable, f);
        if fatal {
          return Failure, 0;
        }
      } else if status == Failure {
        SkipHeader(u);
      } else {
        return EndOfFile, 0;
      }
    }
  }

  lemma FirstOfEnd(rest: seq<byte>, doomed: seq<byte> -> bool)
    requires |rest| < BLOCKSIZE
    ensures FirstDoomed(rest, doomed) == First(EndOfFile, rest)
  {
  }

  method SkipHeader(u: Updater)
    requires Passing(u) && u.Inside() && u.cur < u.end
    modifies u`cur
    ensures BLOCKSIZE <= |old(u.Remaining())|
    ensures Passing(u) && u.Remaining() == old(u.Remaining())[BLOCKSIZE..]
  {
    hide OnFile, InBuffer, AtEnd;
    ghost var a, from := u.original, BLOCKSIZE * u.Ordinal();
    var x := u.Consume(1);
    assert a[from..][BLOCKSIZE..] == a[from + BLOCKSIZE..];
  }

  // ----- deletion

  /** Save away the blocks before the current one in its record. */
  method StartCopying(u: Updater)
    requires Passing(u) && u.Inside() && u.cur < u.end
    modifies u`recordsSkipped, u`newBlocks, u.newRecord
    ensures BLOCKSIZE * u.Ordinal() <= |u.original|
    ensures u.Copying(u.original[..BLOCKSIZE * u.Ordinal()]) && !u.seekError
  {
    hide OnFile, OnFileBytes;
    u.recordsSkipped := u.recordsRead - 1;
    u.newBlocks := u.cur;
    forall k | 0 <= k < BLOCKSIZE * u.cur {
      u.newRecord[k] := u.record[k];
    }
    assert u.record[..] == old(u.record[..]);
    SavedBlocks(u.original, u.blockingFactor, u.record[..], u.newRecord[..], u.start, u.cur, u.end, u.q);
  }

  lemma SavedBlocks(a: seq<byte>, bf: nat, record: seq<byte>, newRecord: seq<byte>, start: nat, cur: nat, end: nat, q: nat)
    requires InBuffer(a, bf, record, start, cur, end, q) && cur < end && |newRecord| == BLOCKSIZE * bf
    requires forall k :: 0 <= k < BLOCKSIZE * cur ==> newRecord[k] == record[k]
    ensures BLOCKSIZE * (start + cur) <= |a|
    ensures Output(a, bf, q - 1, newRecord, cur, a[..BLOCKSIZE * (start + cur)])
  {
    var p := BLOCKSIZE * start;
    assert a[..BLOCKSIZE * (start + cur)] == a[..p] + a[p..BLOCKSIZE * (start + cur)];
    assert newRecord[..BLOCKSIZE * cur] == a[p..BLOCKSIZE * (start + cur)];
  }

  /** What deletion has to leave: all before the first doomed member, and what is kept of the rest. */
  ghost function Wanted(file: seq<byte>, doomed: seq<byte> -> bool): seq<byte> {
    WantedFrom(file, FirstDoomed(file, doomed).rest, doomed)
  }

  ghost function WantedFrom(file: seq<byte>, rest: seq<byte>, doomed: seq<byte> -> bool): seq<byte>
    requires |rest| <= |file|
  {
    file[..|file| - |rest|] + Kept(rest, doomed)
  }

  /** delete_archive_members, on every file.  Without a member to delete the file is left alone, also if it
      is cut off before one.  Otherwise the result is the wanted archive exactly if no read came back empty:
      such reads are counted as records, and the last records are then written too far to the front. */
  method DeleteArchiveMembers(file: seq<byte>, blockingFactor: nat, doomed: seq<byte> -> bool, seekable: bool)
    returns (result: seq<byte>, outcome: Outcome, failed: bool)
    requires 0 < blockingFactor
    ensures var f := FirstDoomed(file, doomed);
            if f.status == EndOfFile then outcome == Untouched && result == file && !failed
            else if f.status == Failure then
              && outcome == (if seekable && Unnoticed(file, f.rest, blockingFactor) then Untouched else Fatal)
              && result == file && !failed
            else
              var ending := EndingOf(f.rest, doomed);
              && outcome == OutcomeOf(ending)
              && (outcome == Deleted ==>
                    (NoEmptyRead(ending, |file|, blockingFactor)
                     <==> !failed && ClosedBy(result, Wanted(file, doomed), BLOCKSIZE * blockingFactor)))
  {
    hide FirstDoomed, EndingOf, Kept, ClosedBy, NextMember, Updater.Valid, OnFile, Output, BlocksFor, Progress, Unnoticed, NoEmptyRead;
    var u := new Updater(file, blockingFactor);
    StartPassing(u);
    var status, size := FirstPass(u, doomed, seekable);
    outcome := if status == Failure then Fatal else Untouched;
    if status == Success || status == SuccessExtended {
      WantedProgress(file, doomed, BLOCKSIZE * u.Ordinal());
      outcome := SecondPass(u, status, size, doomed, Wanted(file, doomed), EndingOf(FirstDoomed(file, doomed).rest, doomed));
    }
    result, failed := u.file, u.seekError;
  }

  /** From the first doomed member on. */
  method SecondPass(u: Updater, status: Status, size: nat, doomed: seq<byte> -> bool, ghost wanted: seq<byte>, ghost ending: Ending)
    returns (outcome: Outcome)
    requires Passing(u) && u.Inside() && u.cur < u.end
    requires Progress(u.original[..BLOCKSIZE * u.Ordinal()], u.Remaining(), wanted, ending, doomed)
    requires status == Success ==> var n := NextMember(u.Remaining(), [], []);
                                   n.status == Success && doomed(n.name) && n.size == size && n.rest == u.Remaining()
    modifies u, u.record, u.newRecord
    ensures outcome == OutcomeOf(ending)
    ensures outcome == Deleted ==>
              (NoEmptyRead(ending, |u.original|, u.blockingFactor)
               <==> !u.seekError && ClosedBy(u.file, wanted, BLOCKSIZE * u.blockingFactor))
  {
    hide Progress, ClosedBy, NextMember, Updater.Valid, OnFile, Output, BlocksFor, NoEmptyRead;
    ghost var out, rest := u.original[..BLOCKSIZE * u.Ordinal()], u.Remaining();
    StartCopying(u);
    if status == Success {
      ProgressMember(out, rest, wanted, ending, doomed);
      DropMember(u, size, out);
      if |rest| < Span(size) {
        ProgressEnd(out, u.Remaining(), doomed);
      }
    }
    outcome := CopyRest(u, doomed, out, wanted, ending);
    if outcome == Deleted {
      u.WriteEnd(wanted);
    }
  }

  lemma WantedProgress(file: seq<byte>, doomed: seq<byte> -> bool, at: nat)
    requires at <= |file| && file[at..] == FirstDoomed(file, doomed).rest
    ensures Progress(file[..at], file[at..], Wanted(file, doomed), EndingOf(FirstDoomed(file, doomed).rest, doomed), doomed)
  {
    hide FirstDoomed, EndingOf, Kept;
    FromProgress(file, at, FirstDoomed(file, doomed).rest, doomed);
  }

  lemma FromProgress(file: seq<byte>, at: nat, rest: seq<byte>, doomed: seq<byte> -> bool)
    requires at <= |file| && file[at..] == rest
    ensures Progress(file[..at], rest, WantedFrom(file, rest, doomed), EndingOf(rest, doomed), doomed)
  {
    hide EndingOf, Kept;
    assert |file| - |rest| == at;
  }

  lemma StartPassing(u: Updater)
    requires u.Valid() && u.original == u.file && u.Ordinal() == 0 && u.recordsWritten == 0 && u.eofReads == 0
    requires !u.seekError && !u.hitEof && u.recordStartBlock == u.start
    ensures Passing(u) && u.Remaining() == u.file
  {
  }
}

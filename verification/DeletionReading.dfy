/** Deleting and reading: what read_and of src/list.c finds in the archive that src/delete.c leaves. */
module DeletionReading {
  import opened Bytes
  import opened HeaderBlock
  import opened ArchiveFormat
  import opened ArchiveReading
  import opened Deletion
  import opened DeleteMembers
  import ArchiveRoundTrip

  // ----- long-name and long-link records

  /** Nothing, or the blocks of one long record of the given type. */
  predicate IsRecord(r: seq<byte>, typeflag: byte) {
    r == [] || (LongAt(r) && |r| == Span(HeaderSize(r[..BLOCKSIZE]).value) && r[156] == typeflag)
  }

  lemma RecordHere(rest: seq<byte>)
    requires LongAt(rest)
    ensures var n := Span(HeaderSize(rest[..BLOCKSIZE]).value);
            BLOCKSIZE <= n <= |rest| && IsRecord(rest[..n], rest[156])
  {
    hide HeaderStatus, HeaderSize, BlocksFor;
    var n := Span(HeaderSize(rest[..BLOCKSIZE]).value);
    assert rest[..n][..BLOCKSIZE] == rest[..BLOCKSIZE];
  }

  /** The records that precede a header are whole. */
  lemma {:induction false} RecordsFound(rest: seq<byte>, longName: seq<byte>, longLink: seq<byte>)
    requires IsRecord(longName, LONGNAME) && IsRecord(longLink, LONGLINK)
    ensures var n := NextMember(rest, longName, longLink); IsRecord(n.longName, LONGNAME) && IsRecord(n.longLink, LONGLINK)
    decreases |rest|
  {
    hide IsRecord, NextMember, HeaderStatus, HeaderSize, Span;
    if LongAt(rest) {
      var n := Span(HeaderSize(rest[..BLOCKSIZE]).value);
      SameStep(rest, longName, longLink);
      RecordHere(rest);
      LongTypes(rest[156]);
      if rest[156] == LONGNAME {
        RecordsFound(rest[n..], rest[..n], longLink);
      } else {
        RecordsFound(rest[n..], longName, rest[..n]);
      }
    } else {
      NoRecord(rest, longName, longLink);
    }
  }

  lemma LongTypes(typeflag: byte)
    requires IsLong(typeflag)
    ensures typeflag == LONGNAME || typeflag == LONGLINK
  {
  }

  lemma NoRecord(rest: seq<byte>, longName: seq<byte>, longLink: seq<byte>)
    requires !LongAt(rest) && IsRecord(longName, LONGNAME) && IsRecord(longLink, LONGLINK)
    ensures var n := NextMember(rest, longName, longLink); IsRecord(n.longName, LONGNAME) && IsRecord(n.longLink, LONGLINK)
  {
    hide HeaderStatus, HeaderSize, BlocksFor, NameOf;
  }

  /** A record in front is taken, whatever follows. */
  lemma RecordTaken(r: seq<byte>, typeflag: byte, rest: seq<byte>, name: Option<seq<byte>>, link: Option<seq<byte>>)
    requires IsRecord(r, typeflag) && r != []
    ensures NextHeader(r + rest, name, link)
         == if typeflag == LONGNAME then NextHeader(rest, TextOf(r), link) else NextHeader(rest, name, TextOf(r))
  {
    hide NextHeader, HeaderStatus, HeaderSize, CStr, Span;
    var all, n := r + rest, |r|;
    assert all[..BLOCKSIZE] == r[..BLOCKSIZE] && all[156] == r[156];
    assert LongAt(all);
    HeaderStep(all, name, link);
    assert all[n..] == rest && all[BLOCKSIZE..n] == r[BLOCKSIZE..];
  }

  lemma RecordsTaken(longName: seq<byte>, longLink: seq<byte>, rest: seq<byte>)
    requires IsRecord(longName, LONGNAME) && IsRecord(longLink, LONGLINK)
    ensures NextHeader(longName + (longLink + rest), None, None) == NextHeader(rest, TextOf(longName), TextOf(longLink))
  {
    hide NextHeader, IsRecord, CStr;
    if longName == [] {
      assert longName + (longLink + rest) == longLink + rest;
    } else {
      RecordTaken(longName, LONGNAME, longLink + rest, None, None);
    }
    if longLink == [] {
      assert longLink + rest == rest;
    } else {
      RecordTaken(longLink, LONGLINK, rest, TextOf(longName), None);
    }
  }

  // ----- one member

  /** A header that stands for a member of its own. */
  predicate IsOwn(b: Block) {
    HeaderStatus(b) == Success && !IsLong(b[156]) && !IsPax(b[156])
  }

  lemma OwnTaken(b: Block, rest: seq<byte>, name: Option<seq<byte>>, link: Option<seq<byte>>)
    requires IsOwn(b)
    ensures NextHeader(b + rest, name, link)
         == HeaderRead(Success, b, if name.Some? then name.value else HeaderName(b), if link.Some? then link.value else HeaderLink(b),
                       if HasNoData(b[156]) then 0 else HeaderSize(b).value, rest)
  {
    hide ChecksumStatus, HeaderSize, HeaderName, HeaderLink, CStr, BlocksFor;
    assert (b + rest)[..BLOCKSIZE] == b && (b + rest)[BLOCKSIZE..] == rest;
  }

  lemma {:induction false} OwnFound(rest: seq<byte>, longName: seq<byte>, longLink: seq<byte>)
    ensures var n := NextMember(rest, longName, longLink);
            n.status == Success ==>
              && BLOCKSIZE <= |n.rest| && IsOwn(n.rest[..BLOCKSIZE]) && n.name == NameOf(n.longName, n.rest[..BLOCKSIZE])
              && n.size == if HasNoData(n.rest[156]) then 0 else HeaderSize(n.rest[..BLOCKSIZE]).value
    decreases |rest|
  {
    hide HeaderStatus, HeaderSize, BlocksFor, NameOf;
    if LongAt(rest) {
      var n := Span(HeaderSize(rest[..BLOCKSIZE]).value);
      SameStep(rest, longName, longLink);
      hide NextMember;
      if rest[156] == LONGNAME {
        OwnFound(rest[n..], rest[..n], longLink);
      } else {
        OwnFound(rest[n..], longName, rest[..n]);
      }
    }
  }

  /** Data behind the header of a directory is skipped by deletion, and not by reading. */
  predicate NoSizedDirectory(rest: seq<byte>)
    decreases |rest|
  {
    var n := NextMember(rest, [], []);
    if n.status == Success then
      && (IsDirectory(n.rest[156], n.name) ==> n.size == 0)
      && (Span(n.size) <= |n.rest| ==> NoSizedDirectory(n.rest[Span(n.size)..]))
    else if n.status == Failure then NoSizedDirectory(n.rest[BLOCKSIZE..])
    else true
  }

  /** The entry that reading gives for the member found at rest. */
  function EntryAt(n: Next): Entry
    requires n.status == Success && Span(n.size) <= |n.rest|
  {
    var b: Block := n.rest[..BLOCKSIZE];
    Decode(b, n.name, LinkOf(n.longLink, b), n.rest[BLOCKSIZE..BLOCKSIZE + n.size])
  }

  lemma ReadHere(rest: seq<byte>)
    requires NextMember(rest, [], []).status == Success && Span(NextMember(rest, [], []).size) <= |NextMember(rest, [], []).rest|
    requires var n := NextMember(rest, [], []); IsDirectory(n.rest[156], n.name) ==> n.size == 0
    ensures var n := NextMember(rest, [], []);
            var l := ReadAll(n.rest[Span(n.size)..]);
            ReadAll(rest) == Listing([EntryAt(n)] + l.entries, l.stop)
  {
    hide NextMember, NextHeader, Decode, LinkOf, BlocksFor, IsDirectory;
    var n, h := NextMember(rest, [], []), NextHeader(rest, None, None);
    SameHeader(rest, [], []);
    assert n.rest[..BLOCKSIZE] == h.header && n.rest[BLOCKSIZE..] == h.rest && h.header[156] == n.rest[156];
    assert DataSize(h) == n.size;
    var k := BLOCKSIZE * BlocksFor(n.size);
    assert h.rest[k..] == n.rest[Span(n.size)..];
    assert h.rest[..n.size] == n.rest[BLOCKSIZE..BLOCKSIZE + n.size];
  }

  /** The kept blocks of a member, with anything behind them, give its entry again. */
  lemma ReadAgain(n: Next, more: seq<byte>)
    requires n.status == Success && Span(n.size) <= |n.rest| && IsOwn(n.rest[..BLOCKSIZE])
    requires IsRecord(n.longName, LONGNAME) && IsRecord(n.longLink, LONGLINK)
    requires n.name == NameOf(n.longName, n.rest[..BLOCKSIZE])
    requires n.size == if HasNoData(n.rest[156]) then 0 else HeaderSize(n.rest[..BLOCKSIZE]).value
    requires IsDirectory(n.rest[156], n.name) ==> n.size == 0
    ensures ReadAll(n.longName + n.longLink + n.rest[..Span(n.size)] + more)
         == Listing([EntryAt(n)] + ReadAll(more).entries, ReadAll(more).stop)
  {
    hide NextHeader, Decode, LinkOf, NameOf, BlocksFor, IsDirectory, IsRecord, IsOwn, HeaderSize, HeaderName, HeaderLink, Span, ReadAll;
    SpanIs(n.size);
    var b: Block := n.rest[..BLOCKSIZE];
    var data := n.rest[BLOCKSIZE..Span(n.size)];
    HeaderAgain(n, b, data, more);
    DataAgain(n.size, data, more);
    assert data[..n.size] == n.rest[BLOCKSIZE..BLOCKSIZE + n.size];
    ReadMember(n.longName + n.longLink + n.rest[..Span(n.size)] + more, data, more);
  }

  /** One step of reading, when a header with its data comes next. */
  lemma ReadMember(rest: seq<byte>, data: seq<byte>, more: seq<byte>)
    requires var h := NextHeader(rest, None, None);
             h.status == Success && h.rest == data + more && |data| == BLOCKSIZE * BlocksFor(DataSize(h))
    ensures var h := NextHeader(rest, None, None);
            DataSize(h) <= |data|
            && ReadAll(rest) == Listing([Decode(h.header, h.name, h.link, data[..DataSize(h)])] + ReadAll(more).entries, ReadAll(more).stop)
  {
    hide NextHeader, Decode, DataSize, BlocksFor;
    DataAgain(DataSize(NextHeader(rest, None, None)), data, more);
  }

  lemma SpanIs(size: nat)
    ensures Span(size) == BLOCKSIZE + BLOCKSIZE * BlocksFor(size) && size <= BLOCKSIZE * BlocksFor(size)
  {
  }

  lemma HeaderAgain(n: Next, b: Block, data: seq<byte>, more: seq<byte>)
    requires n.status == Success && Span(n.size) <= |n.rest| && b == n.rest[..BLOCKSIZE] && IsOwn(b)
    requires BLOCKSIZE <= Span(n.size) && data == n.rest[BLOCKSIZE..Span(n.size)]
    requires IsRecord(n.longName, LONGNAME) && IsRecord(n.longLink, LONGLINK)
    requires n.name == NameOf(n.longName, b) && n.size == if HasNoData(b[156]) then 0 else HeaderSize(b).value
    ensures NextHeader(n.longName + n.longLink + n.rest[..Span(n.size)] + more, None, None)
         == HeaderRead(Success, b, n.name, LinkOf(n.longLink, b), n.size, data + more)
  {
    hide NextHeader, IsRecord, IsOwn, CStr, HeaderSize, HeaderName, HeaderLink, Span;
    assert n.rest[..Span(n.size)] == b + data;
    FiveParts(n.longName, n.longLink, b, data, more);
    RecordsTaken(n.longName, n.longLink, b + (data + more));
    OwnTaken(b, data + more, TextOf(n.longName), TextOf(n.longLink));
  }

  lemma FiveParts(a: seq<byte>, b: seq<byte>, c: seq<byte>, d: seq<byte>, e: seq<byte>)
    ensures a + b + (c + d) + e == a + (b + (c + (d + e)))
  {
  }

  lemma DataAgain(size: nat, data: seq<byte>, more: seq<byte>)
    requires |data| == BLOCKSIZE * BlocksFor(size)
    ensures size <= |data| && (data + more)[..size] == data[..size] && (data + more)[|data|..] == more
  {
  }

  // ----- the kept blocks

  function Surviving(es: seq<Entry>, doomed: seq<byte> -> bool): seq<Entry> {
    if es == [] then [] else (if doomed(es[0].name) then [] else [es[0]]) + Surviving(es[1..], doomed)
  }

  /** Reading the kept blocks gives, in order, the entries of the archive that are not doomed, and then
      whatever follows them; for every archive, however it ends. */
  lemma {:induction false} ReadKept(rest: seq<byte>, doomed: seq<byte> -> bool, more: seq<byte>)
    requires NoSizedDirectory(rest)
    ensures ReadAll(Kept(rest, doomed) + more)
         == Listing(Surviving(ReadAll(rest).entries, doomed) + ReadAll(more).entries, ReadAll(more).stop)
    decreases |rest|
  {
    hide NextMember, ReadAll, Span, IsDirectory, Kept, Surviving;
    var n := NextMember(rest, [], []);
    if n.status == Success && Span(n.size) <= |n.rest| {
      SpanIs(n.size);
      ReadKept(n.rest[Span(n.size)..], doomed, more);
      ReadKeptMember(rest, doomed, more);
    } else if n.status == Failure {
      ReadFailure(rest);
      KeptFailure(rest, doomed);
      ReadKept(n.rest[BLOCKSIZE..], doomed, more);
    } else {
      ReadEnd(rest);
      KeptEnd(rest, doomed);
      assert [] + more == more && [] + ReadAll(more).entries == ReadAll(more).entries;
    }
  }

  lemma KeptFailure(rest: seq<byte>, doomed: seq<byte> -> bool)
    requires NextMember(rest, [], []).status == Failure
    ensures Kept(rest, doomed) == Kept(NextMember(rest, [], []).rest[BLOCKSIZE..], doomed)
  {
    hide NextMember;
  }

  lemma KeptEnd(rest: seq<byte>, doomed: seq<byte> -> bool)
    requires var n := NextMember(rest, [], []); n.status != Failure && (n.status == Success ==> |n.rest| < Span(n.size))
    ensures Kept(rest, doomed) == [] && Surviving([], doomed) == []
  {
    hide NextMember, Span;
  }

  lemma KeptStep(rest: seq<byte>, doomed: seq<byte> -> bool)
    requires var n := NextMember(rest, [], []); n.status == Success && Span(n.size) <= |n.rest|
    ensures var n := NextMember(rest, [], []);
            Kept(rest, doomed) == (if doomed(n.name) then [] else n.longName + n.longLink + n.rest[..Span(n.size)]) + Kept(n.rest[Span(n.size)..], doomed)
  {
    hide NextMember, Span;
  }

  lemma ReadKeptMember(rest: seq<byte>, doomed: seq<byte> -> bool, more: seq<byte>)
    requires var n := NextMember(rest, [], []);
             && n.status == Success && Span(n.size) <= |n.rest| && (IsDirectory(n.rest[156], n.name) ==> n.size == 0)
             && var tail := n.rest[Span(n.size)..];
             ReadAll(Kept(tail, doomed) + more)
               == Listing(Surviving(ReadAll(tail).entries, doomed) + ReadAll(more).entries, ReadAll(more).stop)
    ensures ReadAll(Kept(rest, doomed) + more)
         == Listing(Surviving(ReadAll(rest).entries, doomed) + ReadAll(more).entries, ReadAll(more).stop)
  {
    hide NextMember, ReadAll, EntryAt, Span, IsDirectory, Kept, Surviving;
    var n := NextMember(rest, [], []);
    var tail := n.rest[Span(n.size)..];
    var e, es, kept, own := EntryAt(n), ReadAll(tail).entries, Kept(tail, doomed), n.longName + n.longLink + n.rest[..Span(n.size)];
    assert ReadAll(kept + more) == Listing(Surviving(es, doomed) + ReadAll(more).entries, ReadAll(more).stop);
    KeptStep(rest, doomed);
    ReadHere(rest);
    EntryName(n);
    SurvivingStep(e, es, doomed);
    if doomed(n.name) {
      assert [] + kept == kept && [] + Surviving(es, doomed) == Surviving(es, doomed);
    } else {
      KeptAgain(rest, n, kept + more);
      Joined(own, kept, more, e, Surviving(es, doomed), ReadAll(more));
    }
  }

  lemma Joined(own: seq<byte>, kept: seq<byte>, more: seq<byte>, e: Entry, es: seq<Entry>, l: Listing)
    requires ReadAll(kept + more) == Listing(es + l.entries, l.stop)
    requires ReadAll(own + (kept + more)) == Listing([e] + ReadAll(kept + more).entries, ReadAll(kept + more).stop)
    ensures ReadAll((own + kept) + more) == Listing(([e] + es) + l.entries, l.stop)
  {
    hide ReadAll;
    assert own + kept + more == own + (kept + more);
    assert [e] + (es + l.entries) == [e] + es + l.entries;
  }

  lemma EntryName(n: Next)
    requires n.status == Success && Span(n.size) <= |n.rest|
    ensures EntryAt(n).name == n.name
  {
  }

  lemma SurvivingStep(e: Entry, es: seq<Entry>, doomed: seq<byte> -> bool)
    ensures Surviving([e] + es, doomed) == (if doomed(e.name) then [] else [e]) + Surviving(es, doomed)
  {
    assert ([e] + es)[1..] == es;
  }

  lemma KeptAgain(rest: seq<byte>, n: Next, more: seq<byte>)
    requires n == NextMember(rest, [], []) && n.status == Success && Span(n.size) <= |n.rest|
    requires IsDirectory(n.rest[156], n.name) ==> n.size == 0
    ensures ReadAll(n.longName + n.longLink + n.rest[..Span(n.size)] + more)
         == Listing([EntryAt(n)] + ReadAll(more).entries, ReadAll(more).stop)
  {
    hide NextMember, ReadAll, EntryAt, Span, IsDirectory, IsOwn, HeaderSize, NameOf;
    RecordsFound(rest, [], []);
    OwnFound(rest, [], []);
    ReadAgain(n, more);
  }

  lemma ReadFailure(rest: seq<byte>)
    requires NextMember(rest, [], []).status == Failure
    ensures ReadAll(rest) == ReadAll(NextMember(rest, [], []).rest[BLOCKSIZE..])
  {
    hide NextMember, NextHeader, Decode;
    SameHeader(rest, [], []);
  }

  lemma ReadEnd(rest: seq<byte>)
    requires NoSizedDirectory(rest)
    requires var n := NextMember(rest, [], []); n.status != Failure && (n.status == Success ==> |n.rest| < Span(n.size))
    ensures ReadAll(rest).entries == []
  {
    hide NextMember, NextHeader, Decode, IsDirectory;
    SameHeader(rest, [], []);
  }

  // ----- what precedes the first doomed member

  /** The entries that the first pass passes over. */
  function EntriesBefore(rest: seq<byte>, doomed: seq<byte> -> bool): seq<Entry>
    decreases |rest|
  {
    if |rest| < BLOCKSIZE then []
    else
      var b: Block := rest[..BLOCKSIZE];
      if HeaderStatus(b) == Failure then EntriesBefore(rest[BLOCKSIZE..], doomed)
      else if !IsOwn(b) || doomed(HeaderName(b)) || |rest| < Span(SkippedSize(b)) then []
      else [Decode(b, HeaderName(b), HeaderLink(b), rest[BLOCKSIZE..BLOCKSIZE + SkippedSize(b)])]
           + EntriesBefore(rest[Span(SkippedSize(b))..], doomed)
  }

  /** Reading what precedes the first doomed member, with anything behind it, gives the entries before it. */
  ghost predicate ReadsBefore(file: seq<byte>, doomed: seq<byte> -> bool, more: seq<byte>) {
    var k := |file| - |FirstDoomed(file, doomed).rest|;
    && file[k..] == FirstDoomed(file, doomed).rest
    && ReadAll(file[..k] + more) == Listing(EntriesBefore(file, doomed) + ReadAll(more).entries, ReadAll(more).stop)
  }

  lemma {:induction false} ReadBefore(file: seq<byte>, doomed: seq<byte> -> bool, more: seq<byte>)
    ensures ReadsBefore(file, doomed, more)
    decreases |file|
  {
    hide FirstDoomed, ReadAll, HeaderStatus, HeaderSize, HeaderName, HeaderLink, Decode, SkippedSize, Span, ReadsBefore, EntriesBefore;
    if |file| < BLOCKSIZE {
      NothingBefore(file, doomed, more);
    } else {
      var b: Block := file[..BLOCKSIZE];
      if HeaderStatus(b) == Failure {
        ReadBefore(file[BLOCKSIZE..], doomed, more);
        BeforeFailure(file, doomed, more);
      } else if !IsOwn(b) || doomed(HeaderName(b)) || |file| < Span(SkippedSize(b)) {
        NothingBefore(file, doomed, more);
      } else {
        SpanIs(SkippedSize(b));
        ReadBefore(file[Span(SkippedSize(b))..], doomed, more);
        BeforeMember(file, doomed, more);
      }
    }
  }

  lemma NothingBefore(file: seq<byte>, doomed: seq<byte> -> bool, more: seq<byte>)
    requires |file| < BLOCKSIZE || (var b: Block := file[..BLOCKSIZE];
             HeaderStatus(b) != Failure && (!IsOwn(b) || doomed(HeaderName(b)) || |file| < Span(SkippedSize(b))))
    ensures ReadsBefore(file, doomed, more)
  {
    hide FirstDoomed, ReadAll, HeaderStatus, HeaderSize, HeaderName, SkippedSize, Span;
    if |file| < BLOCKSIZE {
      FirstOfEnd(file, doomed);
    } else {
      FirstStep(file, doomed);
    }
    assert file[..0] + more == more && [] + ReadAll(more).entries == ReadAll(more).entries;
  }

  lemma BeforeFailure(file: seq<byte>, doomed: seq<byte> -> bool, more: seq<byte>)
    requires BLOCKSIZE <= |file| && HeaderStatus(file[..BLOCKSIZE]) == Failure && ReadsBefore(file[BLOCKSIZE..], doomed, more)
    ensures ReadsBefore(file, doomed, more)
  {
    hide FirstDoomed, ReadAll, HeaderStatus, HeaderSize, HeaderName, SkippedSize, Span;
    FirstStep(file, doomed);
    var k := |file| - |FirstDoomed(file, doomed).rest|;
    assert file[..k] + more == file[..BLOCKSIZE] + (file[BLOCKSIZE..][..k - BLOCKSIZE] + more);
    ReadGarbage(file[..BLOCKSIZE], file[BLOCKSIZE..][..k - BLOCKSIZE] + more);
  }

  lemma ReadGarbage(b: Block, rest: seq<byte>)
    requires HeaderStatus(b) == Failure
    ensures ReadAll(b + rest) == ReadAll(rest)
  {
    hide ChecksumStatus, HeaderSize, Decode;
    assert (b + rest)[..BLOCKSIZE] == b && (b + rest)[BLOCKSIZE..] == rest;
  }

  lemma BeforeMember(file: seq<byte>, doomed: seq<byte> -> bool, more: seq<byte>)
    requires BLOCKSIZE <= |file| && IsOwn(file[..BLOCKSIZE]) && !doomed(HeaderName(file[..BLOCKSIZE]))
    requires Span(SkippedSize(file[..BLOCKSIZE])) <= |file|
    requires ReadsBefore(file[Span(SkippedSize(file[..BLOCKSIZE]))..], doomed, more)
    ensures ReadsBefore(file, doomed, more)
  {
    hide FirstDoomed, ReadAll, HeaderStatus, HeaderSize, HeaderName, HeaderLink, Decode, SkippedSize, Span, EntriesBefore;
    var b: Block := file[..BLOCKSIZE];
    FirstStep(file, doomed);
    BeforeStep(file, doomed);
    var n, k := Span(SkippedSize(b)), |file| - |FirstDoomed(file, doomed).rest|;
    SpanIs(SkippedSize(b));
    var data, tail := file[BLOCKSIZE..n], file[n..][..k - n];
    assert file[..k] == b + data + tail;
    ReadOwn(b, data, tail + more);
    var e := Decode(b, HeaderName(b), HeaderLink(b), data[..SkippedSize(b)]);
    assert data[..SkippedSize(b)] == file[BLOCKSIZE..BLOCKSIZE + SkippedSize(b)];
    assert b + (data + (tail + more)) == (b + data) + (tail + more);
    Joined(b + data, tail, more, e, EntriesBefore(file[n..], doomed), ReadAll(more));
  }

  lemma BeforeStep(file: seq<byte>, doomed: seq<byte> -> bool)
    requires BLOCKSIZE <= |file| && IsOwn(file[..BLOCKSIZE]) && !doomed(HeaderName(file[..BLOCKSIZE]))
    requires Span(SkippedSize(file[..BLOCKSIZE])) <= |file|
    ensures var b: Block := file[..BLOCKSIZE];
            && BLOCKSIZE + SkippedSize(b) <= Span(SkippedSize(b))
            && EntriesBefore(file, doomed) == [Decode(b, HeaderName(b), HeaderLink(b), file[BLOCKSIZE..BLOCKSIZE + SkippedSize(b)])]
                                              + EntriesBefore(file[Span(SkippedSize(b))..], doomed)
  {
    hide HeaderStatus, HeaderSize, HeaderName, HeaderLink, Decode, SkippedSize, BlocksFor;
    SpanIs(SkippedSize(file[..BLOCKSIZE]));
  }

  lemma ReadOwn(b: Block, data: seq<byte>, more: seq<byte>)
    requires IsOwn(b) && |data| == BLOCKSIZE * BlocksFor(SkippedSize(b))
    ensures SkippedSize(b) <= |data|
    ensures ReadAll(b + (data + more))
         == Listing([Decode(b, HeaderName(b), HeaderLink(b), data[..SkippedSize(b)])] + ReadAll(more).entries, ReadAll(more).stop)
  {
    hide NextHeader, ReadAll, HeaderStatus, HeaderSize, HeaderName, HeaderLink, Decode, BlocksFor, IsDirectory, HasNoData;
    OwnTaken(b, data + more, None, None);
    ReadMember(b + (data + more), data, more);
    DataAgain(SkippedSize(b), data, more);
  }

  lemma DecodeName(b: Block, name: seq<byte>, link: seq<byte>, data: seq<byte>)
    ensures Decode(b, name, link, data).name == name
  {
  }

  lemma {:induction false} BeforeSurvives(file: seq<byte>, doomed: seq<byte> -> bool, es: seq<Entry>)
    ensures Surviving(EntriesBefore(file, doomed) + es, doomed) == EntriesBefore(file, doomed) + Surviving(es, doomed)
    decreases |file|
  {
    hide HeaderStatus, HeaderSize, HeaderName, HeaderLink, SkippedSize, Span, Surviving, Decode;
    if |file| >= BLOCKSIZE {
      var b: Block := file[..BLOCKSIZE];
      if HeaderStatus(b) == Failure {
        BeforeSurvives(file[BLOCKSIZE..], doomed, es);
      } else if !IsOwn(b) || doomed(HeaderName(b)) || |file| < Span(SkippedSize(b)) {
        assert [] + es == es && [] + Surviving(es, doomed) == Surviving(es, doomed);
      } else {
        SpanIs(SkippedSize(b));
        var e := Decode(b, HeaderName(b), HeaderLink(b), file[BLOCKSIZE..BLOCKSIZE + SkippedSize(b)]);
        var before := EntriesBefore(file[Span(SkippedSize(b))..], doomed);
        BeforeSurvives(file[Span(SkippedSize(b))..], doomed, es);
        DecodeName(b, HeaderName(b), HeaderLink(b), file[BLOCKSIZE..BLOCKSIZE + SkippedSize(b)]);
        SurvivingStep(e, before + es, doomed);
        assert [e] + before + es == [e] + (before + es);
        assert [e] + (before + Surviving(es, doomed)) == [e] + before + Surviving(es, doomed);
      }
    } else {
      assert [] + es == es && [] + Surviving(es, doomed) == Surviving(es, doomed);
    }
  }

  // ----- the whole archive

  /** What deletion has to leave reads as the entries that are not doomed. */
  lemma ReadWanted(file: seq<byte>, doomed: seq<byte> -> bool, n: nat)
    requires NoSizedDirectory(FirstDoomed(file, doomed).rest) && 2 * BLOCKSIZE <= n
    ensures ReadAll(Wanted(file, doomed) + Zeros(n)) == Listing(Surviving(ReadAll(file).entries, doomed), TwoZeroBlocks)
  {
    hide FirstDoomed, ReadAll, Kept, EntriesBefore, Surviving, NoSizedDirectory;
    var rest := FirstDoomed(file, doomed).rest;
    var k := |file| - |rest|;
    ReadBefore(file, doomed, rest);
    assert file == file[..k] + rest;
    ReadKept(rest, doomed, Zeros(n));
    ReadBefore(file, doomed, Kept(rest, doomed) + Zeros(n));
    BeforeSurvives(file, doomed, ReadAll(rest).entries);
    ArchiveRoundTrip.ZeroEnd(n);
    assert Wanted(file, doomed) + Zeros(n) == file[..k] + (Kept(rest, doomed) + Zeros(n));
    assert Surviving(ReadAll(rest).entries, doomed) + [] == Surviving(ReadAll(rest).entries, doomed);
  }

  lemma ClosedIs(result: seq<byte>, bytes: seq<byte>, recordSize: nat)
    requires recordSize > 0 && ClosedBy(result, bytes, recordSize)
    ensures 2 * BLOCKSIZE <= |result| - |bytes| && result == bytes + Zeros(|result| - |bytes|)
  {
  }

  /** Deleting and reading commute: on every file, if deletion comes to its end with no empty read, reading
      the result gives the entries of the original that are not doomed, with names, link targets, numbers
      and data, in order, and two zero blocks after them. */
  method DeleteAndRead(file: seq<byte>, blockingFactor: nat, doomed: seq<byte> -> bool, seekable: bool)
    returns (result: seq<byte>, outcome: Outcome, failed: bool)
    requires 0 < blockingFactor
    ensures var f := FirstDoomed(file, doomed);
            outcome == Deleted && NoEmptyRead(EndingOf(f.rest, doomed), |file|, blockingFactor) && NoSizedDirectory(f.rest) ==>
              !failed && ReadAll(result) == Listing(Surviving(ReadAll(file).entries, doomed), TwoZeroBlocks)
    ensures outcome == Untouched || outcome == Fatal ==> result == file && !failed
  {
    hide FirstDoomed, ReadAll, EndingOf, Kept, ClosedBy, Wanted, NoSizedDirectory, Surviving, NoEmptyRead, Unnoticed;
    result, outcome, failed := DeleteArchiveMembers(file, blockingFactor, doomed, seekable);
    ghost var f := FirstDoomed(file, doomed);
    if outcome == Deleted && NoEmptyRead(EndingOf(f.rest, doomed), |file|, blockingFactor) && NoSizedDirectory(f.rest) {
      ClosedIs(result, Wanted(file, doomed), BLOCKSIZE * blockingFactor);
      ReadWanted(file, doomed, |result| - |Wanted(file, doomed)|);
    }
  }
}

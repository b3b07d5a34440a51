/** Deletion from an archive of files and links leaves exactly those that are not deleted. */
module DeletionLaws {
  import opened Bytes
  import opened HeaderNumbers
  import opened HeaderBlock
  import opened RecordWriter
  import opened ArchiveFormat
  import opened ArchiveReading
  import opened ArchiveRoundTrip
  import opened Deletion
  import opened ArchiveUpdate
  import opened DeleteMembers
  import opened DeletionReading
  import opened ArchiveIO

  ghost predicate Archivable(fmt: Format, ms: seq<Member>) {
    && (forall k :: 0 <= k < |ms| ==> Accepted(fmt, ms[k]) && Measurable(ms[k]))
    && (forall k :: 0 <= k < |ms| ==> SystemFile(ms[k]))
  }

  // ----- one member

  /** A header block of the member's own, after its long records if it has them. */
  lemma OwnHeaderNext(fmt: Format, m: Member, rest: seq<byte>)
    requires SystemFile(m) && Accepted(fmt, m)
    ensures NextMember(Header(fmt, m) + rest, NamePart(fmt, m), LinkPart(fmt, m))
         == Next(Success, NamePart(fmt, m), LinkPart(fmt, m), m.name, |m.data|, Header(fmt, m) + rest)
  {
    hide Header, ParseField, ChecksumStatus, HeaderName, HeaderSize, NamePart, LinkPart, NameOf, Accepted, NulFree;
    var b := Header(fmt, m);
    assert (b + rest)[..BLOCKSIZE] == b;
    MemberHeader(fmt, m);
    OwnName(fmt, m);
  }

  lemma OwnName(fmt: Format, m: Member)
    requires SystemFile(m) && Accepted(fmt, m)
    ensures NameOf(NamePart(fmt, m), Header(fmt, m)) == m.name
  {
    hide Finished, HeaderBytes, FieldText, HeaderName, Padded, MemberFields, CStr;
    if NeedsLong(fmt, m.name) {
      assert NamePart(fmt, m)[BLOCKSIZE..] == Padded(m.name + [NUL]);
      LongText(m.name);
    } else {
      MemberName(fmt, m);
    }
  }

  lemma LongNext(fmt: Format, typeflag: byte, text: seq<byte>, rest: seq<byte>, longName: seq<byte>, longLink: seq<byte>)
    requires |text| < INTMAX_MAX && IsLong(typeflag)
    ensures var r := LongBytes(fmt, typeflag, text);
            NextMember(r + rest, longName, longLink)
              == if typeflag == LONGNAME then NextMember(rest, r, longLink) else NextMember(rest, longName, r)
  {
    hide LongBytes, LongAt, HeaderSize, NextMember, Span, HeaderBytes, Finished, LongFields;
    LongSplit(fmt, typeflag, text, rest);
    LongIsAt(fmt, typeflag, text, rest);
    SameStep(LongBytes(fmt, typeflag, text) + rest, longName, longLink);
  }

  lemma LongIsAt(fmt: Format, typeflag: byte, text: seq<byte>, rest: seq<byte>)
    requires |text| < INTMAX_MAX && IsLong(typeflag)
    ensures var all := LongBytes(fmt, typeflag, text) + rest;
            LongAt(all) && all[156] == typeflag && HeaderSize(all[..BLOCKSIZE]) == Some(|text| + 1)
  {
    hide LongBytes, HeaderSize, ChecksumStatus, Span, HeaderBytes, Finished, LongFields;
    LongHeader(fmt, typeflag, text);
    LongSplit(fmt, typeflag, text, rest);
    var all := LongBytes(fmt, typeflag, text) + rest;
    assert |LongBytes(fmt, typeflag, text)| >= BLOCKSIZE by { SpanIs(|text| + 1); }
    assert all[156] == all[..BLOCKSIZE][156];
  }

  lemma LongSplit(fmt: Format, typeflag: byte, text: seq<byte>, rest: seq<byte>)
    requires |text| < INTMAX_MAX
    ensures var r := LongBytes(fmt, typeflag, text);
            && |r| == Span(|text| + 1) && (r + rest)[..BLOCKSIZE] == Finished(HeaderBytes(LongFields(fmt, typeflag, |text| + 1)))
            && (r + rest)[..Span(|text| + 1)] == r && (r + rest)[Span(|text| + 1)..] == rest
  {
    hide Finished, HeaderBytes, Padded, LongFields, BlocksFor;
    var b, data := Finished(HeaderBytes(LongFields(fmt, typeflag, |text| + 1))), Padded(text + [NUL]);
    assert |text + [NUL]| == |text| + 1;
    assert (b + data + rest)[..BLOCKSIZE] == b;
  }

  lemma NamePartNext(fmt: Format, m: Member, rest: seq<byte>, longLink: seq<byte>)
    requires Measurable(m)
    ensures NextMember(NamePart(fmt, m) + rest, [], longLink) == NextMember(rest, NamePart(fmt, m), longLink)
  {
    hide NextMember, LongBytes;
    if NeedsLong(fmt, m.name) {
      LongNext(fmt, LONGNAME, m.name, rest, [], longLink);
    } else {
      assert NamePart(fmt, m) + rest == rest;
    }
  }

  lemma LinkPartNext(fmt: Format, m: Member, rest: seq<byte>, longName: seq<byte>)
    requires Measurable(m)
    ensures NextMember(LinkPart(fmt, m) + rest, longName, []) == NextMember(rest, longName, LinkPart(fmt, m))
  {
    hide NextMember, LongBytes;
    if NeedsLong(fmt, LinkTarget(m.link)) {
      LongNext(fmt, LONGLINK, LinkTarget(m.link), rest, longName, []);
    } else {
      assert LinkPart(fmt, m) + rest == rest;
    }
  }

  /** At a member's first block, its long records, header, name and size are found. */
  lemma MemberNext(fmt: Format, m: Member, rest: seq<byte>)
    requires SystemFile(m) && Accepted(fmt, m)
    ensures Measurable(m)
    ensures NextMember(MemberBytes(fmt, m) + rest, [], [])
         == Next(Success, NamePart(fmt, m), LinkPart(fmt, m), m.name, |m.data|, Header(fmt, m) + (Padded(m.data) + rest))
  {
    hide NextMember, Padded, NamePart, LinkPart, Header, Accepted, SystemFile, Measurable;
    ShortName(m);
    var b, data := Header(fmt, m), Padded(m.data);
    FourParts(LinkPart(fmt, m), NamePart(fmt, m), b, data, rest);
    LinkPartNext(fmt, m, NamePart(fmt, m) + (b + (data + rest)), []);
    NamePartNext(fmt, m, b + (data + rest), LinkPart(fmt, m));
    OwnHeaderNext(fmt, m, data + rest);
  }

  /** The blocks of a member that was kept: the long-name record comes first, wherever it was. */
  function KeptBytes(fmt: Format, m: Member): seq<byte>
    requires Accepted(fmt, m) && Measurable(m)
  {
    NamePart(fmt, m) + LinkPart(fmt, m) + (Header(fmt, m) + Padded(m.data))
  }

  function AllKeptBytes(fmt: Format, ms: seq<Member>): seq<byte>
    requires forall k :: 0 <= k < |ms| ==> Accepted(fmt, ms[k]) && Measurable(ms[k])
  {
    if ms == [] then [] else KeptBytes(fmt, ms[0]) + AllKeptBytes(fmt, ms[1..])
  }

  lemma MemberSpan(fmt: Format, m: Member, rest: seq<byte>)
    requires Accepted(fmt, m) && Measurable(m)
    ensures var after := Header(fmt, m) + (Padded(m.data) + rest);
            && Span(|m.data|) <= |after| && after[Span(|m.data|)..] == rest
            && NamePart(fmt, m) + LinkPart(fmt, m) + after[..Span(|m.data|)] == KeptBytes(fmt, m)
  {
    hide Header, Padded, NamePart, LinkPart, BlocksFor, Accepted;
    SpanParts(Header(fmt, m), Padded(m.data), rest);
  }

  lemma SpanParts(b: seq<byte>, data: seq<byte>, rest: seq<byte>)
    ensures var after, n := b + (data + rest), |b| + |data|;
            n <= |after| && after[n..] == rest && after[..n] == b + data
  {
  }

  // ----- all members

  function Survivors(ms: seq<Member>, doomed: seq<byte> -> bool): seq<Member> {
    if ms == [] then [] else (if doomed(ms[0].name) then [] else [ms[0]]) + Survivors(ms[1..], doomed)
  }

  lemma {:induction false} SurvivorsArchivable(fmt: Format, ms: seq<Member>, doomed: seq<byte> -> bool)
    requires Archivable(fmt, ms)
    ensures Archivable(fmt, Survivors(ms, doomed))
  {
    hide Accepted, SystemFile, Measurable;
    if ms != [] {
      SurvivorsArchivable(fmt, ms[1..], doomed);
    }
  }

  /** How copying ends if n zero bytes follow the last member. */
  function EndAfter(n: nat): Ending {
    if n > 0 then ZeroEnd else FileEnd
  }

  lemma ZerosStatus(n: nat)
    requires BLOCKSIZE <= n
    ensures HeaderStatus(Zeros(n)[..BLOCKSIZE]) == ZeroBlock
  {
    hide Sum, HeaderSize;
    assert Zeros(n)[..BLOCKSIZE] == Zeros(BLOCKSIZE);
    SumOfZeros(BLOCKSIZE);
  }

  /** What follows the members: nothing, or the zero blocks. */
  lemma KeptTail(n: nat, doomed: seq<byte> -> bool)
    requires n == 0 || BLOCKSIZE <= n
    ensures EndingOf(Zeros(n), doomed) == EndAfter(n) && Kept(Zeros(n), doomed) == [] && NoSizedDirectory(Zeros(n))
  {
    hide HeaderStatus, HeaderSize;
    if n > 0 {
      ZerosStatus(n);
    }
  }

  lemma KeptMember(fmt: Format, m: Member, rest: seq<byte>, doomed: seq<byte> -> bool)
    requires SystemFile(m) && Accepted(fmt, m) && Measurable(m)
    ensures var all := MemberBytes(fmt, m) + rest;
            && EndingOf(all, doomed) == EndingOf(rest, doomed)
            && Kept(all, doomed) == (if doomed(m.name) then [] else KeptBytes(fmt, m)) + Kept(rest, doomed)
  {
    hide NextMember, MemberBytes, Header, NamePart, LinkPart, Padded, SystemFile, Accepted, KeptBytes;
    MemberNext(fmt, m, rest);
    MemberSpan(fmt, m, rest);
  }

  lemma NoDirectory(fmt: Format, m: Member, rest: seq<byte>)
    requires SystemFile(m) && Accepted(fmt, m) && Measurable(m) && NoSizedDirectory(rest)
    ensures NoSizedDirectory(MemberBytes(fmt, m) + rest)
  {
    hide NextMember, MemberBytes, Header, NamePart, LinkPart, Padded, Accepted, KeptBytes, NulFree;
    MemberNext(fmt, m, rest);
    MemberSpan(fmt, m, rest);
    MemberHeader(fmt, m);
    assert (Header(fmt, m) + (Padded(m.data) + rest))[156] == TypeOf(m.link);
  }

  /** The kept blocks are those of the surviving members; the archive is well ended if zeros follow. */
  lemma {:induction false} KeptMembers(fmt: Format, ms: seq<Member>, n: nat, doomed: seq<byte> -> bool)
    requires Archivable(fmt, ms) && Archivable(fmt, Survivors(ms, doomed)) && (n == 0 || BLOCKSIZE <= n)
    ensures var all := MembersBytes(fmt, ms) + Zeros(n);
            && EndingOf(all, doomed) == EndAfter(n) && NoSizedDirectory(all)
            && Kept(all, doomed) == AllKeptBytes(fmt, Survivors(ms, doomed))
  {
    hide EndingOf, Kept, MemberBytes, KeptBytes, Accepted, SystemFile, NoSizedDirectory, Measurable;
    if ms == [] {
      KeptTail(n, doomed);
      assert MembersBytes(fmt, ms) + Zeros(n) == Zeros(n);
    } else {
      var rest := MembersBytes(fmt, ms[1..]) + Zeros(n);
      assert MembersBytes(fmt, ms) + Zeros(n) == MemberBytes(fmt, ms[0]) + rest;
      SurvivorsArchivable(fmt, ms[1..], doomed);
      KeptMembers(fmt, ms[1..], n, doomed);
      KeptMember(fmt, ms[0], rest, doomed);
      NoDirectory(fmt, ms[0], rest);
      SurvivorsBytes(fmt, ms, doomed);
    }
  }

  lemma SurvivorsBytes(fmt: Format, ms: seq<Member>, doomed: seq<byte> -> bool)
    requires ms != [] && Archivable(fmt, ms) && Archivable(fmt, Survivors(ms, doomed)) && Archivable(fmt, Survivors(ms[1..], doomed))
    ensures AllKeptBytes(fmt, Survivors(ms, doomed))
         == (if doomed(ms[0].name) then [] else KeptBytes(fmt, ms[0])) + AllKeptBytes(fmt, Survivors(ms[1..], doomed))
  {
    hide KeptBytes, Accepted, SystemFile, Measurable;
    var tail := Survivors(ms[1..], doomed);
    if doomed(ms[0].name) {
      assert Survivors(ms, doomed) == tail;
    } else {
      assert Survivors(ms, doomed)[0] == ms[0] && Survivors(ms, doomed)[1..] == tail;
    }
  }

  // ----- the first pass

  /** The first pass stops at a member with a long record or a doomed one, and goes on from any other. */
  lemma FirstMember(fmt: Format, m: Member, rest: seq<byte>, doomed: seq<byte> -> bool)
    requires SystemFile(m) && Accepted(fmt, m) && Measurable(m)
    ensures var all := MemberBytes(fmt, m) + rest;
            FirstDoomed(all, doomed) == if NeedsLong(fmt, m.name) || NeedsLong(fmt, LinkTarget(m.link)) then First(SuccessExtended, all)
                                        else if doomed(m.name) then First(Success, all)
                                        else FirstDoomed(rest, doomed)
  {
    hide Header, Padded, LongBytes, FirstDoomed, SystemFile, Accepted;
    var more := Header(fmt, m) + (Padded(m.data) + rest);
    FourParts(LinkPart(fmt, m), NamePart(fmt, m), Header(fmt, m), Padded(m.data), rest);
    if NeedsLong(fmt, LinkTarget(m.link)) {
      FirstLong(fmt, LONGLINK, LinkTarget(m.link), NamePart(fmt, m) + more, doomed);
    } else if NeedsLong(fmt, m.name) {
      assert [] + (NamePart(fmt, m) + more) == NamePart(fmt, m) + more;
      FirstLong(fmt, LONGNAME, m.name, more, doomed);
    } else {
      assert [] + ([] + more) == more;
      FirstShort(fmt, m, rest, doomed);
    }
  }

  lemma FirstLong(fmt: Format, typeflag: byte, text: seq<byte>, more: seq<byte>, doomed: seq<byte> -> bool)
    requires |text| < INTMAX_MAX && IsLong(typeflag)
    ensures var all := LongBytes(fmt, typeflag, text) + more; FirstDoomed(all, doomed) == First(SuccessExtended, all)
  {
    hide ParseField, ChecksumStatus, HeaderName, LongBytes, FirstDoomed;
    LongSplit(fmt, typeflag, text, more);
    LongHeader(fmt, typeflag, text);
    FirstStep(LongBytes(fmt, typeflag, text) + more, doomed);
  }

  lemma FirstShort(fmt: Format, m: Member, rest: seq<byte>, doomed: seq<byte> -> bool)
    requires SystemFile(m) && Accepted(fmt, m) && Measurable(m) && !NeedsLong(fmt, m.name)
    ensures var all := Header(fmt, m) + (Padded(m.data) + rest);
            FirstDoomed(all, doomed) == if doomed(m.name) then First(Success, all) else FirstDoomed(rest, doomed)
  {
    hide Header, HeaderStatus, HeaderName, HeaderSize, Padded, FirstDoomed, SkippedSize, Accepted, SystemFile;
    var all := Header(fmt, m) + (Padded(m.data) + rest);
    assert all[..BLOCKSIZE] == Header(fmt, m);
    ShortHeader(fmt, m);
    MemberSpan(fmt, m, rest);
    FirstStep(all, doomed);
  }

  lemma ShortHeader(fmt: Format, m: Member)
    requires SystemFile(m) && Accepted(fmt, m) && !NeedsLong(fmt, m.name)
    ensures var b := Header(fmt, m);
            && HeaderStatus(b) == Success && HeaderName(b) == m.name && SkippedSize(b) == |m.data|
            && !IsLong(b[156]) && !IsPax(b[156])
  {
    hide Header, ParseField, ChecksumStatus, HeaderName, HeaderSize, NulFree, Accepted;
    MemberHeader(fmt, m);
    MemberName(fmt, m);
  }

  lemma FirstTail(fmt: Format, n: nat, doomed: seq<byte> -> bool)
    requires n == 0 || BLOCKSIZE <= n
    ensures FirstDoomed(MembersBytes(fmt, []) + Zeros(n), doomed) == First(EndOfFile, Zeros(n))
  {
    hide FirstDoomed;
    assert MembersBytes(fmt, []) + Zeros(n) == Zeros(n);
    if n == 0 {
      FirstOfEnd(Zeros(n), doomed);
    } else {
      hide HeaderStatus, HeaderSize;
      ZerosStatus(n);
      FirstStep(Zeros(n), doomed);
    }
  }

  /** From the first doomed member on, such an archive has no directories and ends as it should. */
  lemma {:induction false} FirstInMembers(fmt: Format, ms: seq<Member>, n: nat, doomed: seq<byte> -> bool)
    requires Archivable(fmt, ms) && (n == 0 || BLOCKSIZE <= n)
    ensures var f := FirstDoomed(MembersBytes(fmt, ms) + Zeros(n), doomed);
            && f.status != Failure && NoSizedDirectory(f.rest) && EndingOf(f.rest, doomed) == EndAfter(n)
            && (f.status == EndOfFile ==> Survivors(ms, doomed) == ms)
  {
    hide EndingOf, MemberBytes, Accepted, SystemFile, FirstDoomed, MembersBytes, Survivors, NeedsLong, NoSizedDirectory, Measurable, Kept, AllKeptBytes;
    NoneDoomed(ms, doomed);
    if ms == [] {
      FirstTail(fmt, n, doomed);
      KeptTail(n, doomed);
    } else {
      var rest := MembersBytes(fmt, ms[1..]) + Zeros(n);
      SplitMembers(fmt, ms, n);
      FirstMember(fmt, ms[0], rest, doomed);
      if NeedsLong(fmt, ms[0].name) || NeedsLong(fmt, LinkTarget(ms[0].link)) || doomed(ms[0].name) {
        SurvivorsArchivable(fmt, ms, doomed);
        KeptMembers(fmt, ms, n, doomed);
      } else {
        FirstInMembers(fmt, ms[1..], n, doomed);
      }
    }
  }

  lemma NoneDoomed(ms: seq<Member>, doomed: seq<byte> -> bool)
    ensures ms == [] ==> Survivors(ms, doomed) == ms
    ensures ms != [] && !doomed(ms[0].name) && Survivors(ms[1..], doomed) == ms[1..] ==> Survivors(ms, doomed) == ms
  {
  }

  lemma SplitMembers(fmt: Format, ms: seq<Member>, n: nat)
    requires ms != [] && Archivable(fmt, ms)
    ensures MembersBytes(fmt, ms) + Zeros(n) == MemberBytes(fmt, ms[0]) + (MembersBytes(fmt, ms[1..]) + Zeros(n))
  {
    hide MemberBytes, Accepted, SystemFile;
  }

  // ----- the result

  lemma {:induction false} SurvivingMembers(fmt: Format, ms: seq<Member>, doomed: seq<byte> -> bool)
    ensures Surviving(Entries(fmt, ms), doomed) == Entries(fmt, Survivors(ms, doomed))
  {
    hide StoredTarget;
    if ms != [] {
      SurvivingMembers(fmt, ms[1..], doomed);
      SurvivingStep(EntryOf(fmt, ms[0]), Entries(fmt, ms[1..]), doomed);
      if !doomed(ms[0].name) {
        assert Survivors(ms, doomed)[0] == ms[0] && Survivors(ms, doomed)[1..] == Survivors(ms[1..], doomed);
      } else {
        assert Survivors(ms, doomed) == Survivors(ms[1..], doomed);
      }
    }
  }

  /** Deleting from an archive of files and links in which n zero bytes follow the last member.  If it was
      closed by two zero blocks, reading the result gives the survivors with their link targets and data, in
      order, and nothing else.  If nothing follows the last member, the result is never the wanted archive. */
  method DeleteFiles(file: seq<byte>, blockingFactor: nat, doomed: seq<byte> -> bool, seekable: bool,
                     ghost fmt: Format, ghost ms: seq<Member>, ghost n: nat)
    returns (result: seq<byte>, outcome: Outcome, failed: bool)
    requires 0 < blockingFactor && Archivable(fmt, ms) && file == MembersBytes(fmt, ms) + Zeros(n)
    requires n == 0 || 2 * BLOCKSIZE <= n
    ensures outcome == if FirstDoomed(file, doomed).status == EndOfFile then Untouched else Deleted
    ensures n > 0 ==> !failed && ReadAll(result) == Listing(Entries(fmt, Survivors(ms, doomed)), TwoZeroBlocks)
    ensures n == 0 && outcome == Deleted ==> failed || !ClosedBy(result, Wanted(file, doomed), BLOCKSIZE * blockingFactor)
  {
    hide MembersBytes, Accepted, SystemFile, ReadAll, FirstDoomed, EndingOf, Kept, ClosedBy, Wanted, Measurable, Entries, Surviving,
         Survivors, NoSizedDirectory, Unnoticed;
    FirstInMembers(fmt, ms, n, doomed);
    SurvivingMembers(fmt, ms, doomed);
    if n > 0 {
      RoundTrip(fmt, ms, n);
    }
    result, outcome, failed := DeleteArchiveMembers(file, blockingFactor, doomed, seekable);
    if n > 0 && outcome == Deleted {
      ClosedIs(result, Wanted(file, doomed), BLOCKSIZE * blockingFactor);
      ReadWanted(file, doomed, |result| - |Wanted(file, doomed)|);
    }
  }

  // ----- concrete cases

  /** One empty file and no zero blocks after it: deleting it does not give an empty archive. */
  lemma UnterminatedExample(doomed: seq<byte> -> bool)
    requires doomed([97])
    ensures var ms := [Member([97], NoLink, 0, 0, 0, 0, [])];
            && Archivable(Gnu, ms)
            && var f := FirstDoomed(MembersBytes(Gnu, ms), doomed);
               (f.status == Success || f.status == SuccessExtended) && EndingOf(f.rest, doomed) == FileEnd
  {
    hide FirstDoomed, EndingOf, MemberBytes, FieldText, MembersBytes, NoSizedDirectory;
    var ms := [Member([97], NoLink, 0, 0, 0, 0, [])];
    LongNumbers(Gnu, 0);
    assert Archivable(Gnu, ms);
    assert Survivors(ms, doomed) == [];
    FirstInMembers(Gnu, ms, 0, doomed);
    assert MembersBytes(Gnu, ms) + Zeros(0) == MembersBytes(Gnu, ms);
  }

  lemma SeeksTwoBlocks()
    ensures SeeksAll(BLOCKSIZE, 0, 2 * BLOCKSIZE, 1) && BLOCKSIZE < Span(2 * BLOCKSIZE)
  {
  }

  /** A header that announces two blocks of data, and nothing after it, with records of one block: with a
      seek over the data nobody notices that they are missing. */
  lemma UnnoticedExample(doomed: seq<byte> -> bool)
    requires !doomed([97])
    ensures var m := Member([97], NoLink, 0, 0, 0, 0, Zeros(2 * BLOCKSIZE));
            && SystemFile(m) && Accepted(Gnu, m)
            && FirstDoomed(Header(Gnu, m), doomed) == First(Failure, Header(Gnu, m))
            && HeaderStatus(Header(Gnu, m)) == Success && Unnoticed(Header(Gnu, m), Header(Gnu, m), 1)
  {
    hide FieldText, Header, HeaderStatus, HeaderSize, HeaderName, FirstDoomed, SkippedSize, SeeksAll, BlocksFor;
    var m := Member([97], NoLink, 0, 0, 0, 0, Zeros(2 * BLOCKSIZE));
    LongNumbers(Gnu, 2 * BLOCKSIZE);
    LongNumbers(Gnu, 0);
    var b := Header(Gnu, m);
    assert b[..BLOCKSIZE] == b;
    ShortHeader(Gnu, m);
    FirstStep(b, doomed);
    SeeksTwoBlocks();
  }
}

/** What read_header and read_and of src/list.c make of a header, by its type flag, and where src/create.c
    puts the fields: with the codes and offsets of src/tar.h written out. */
module ReadingLaws {
  import opened Bytes
  import opened HeaderNumbers
  import opened HeaderBlock
  import opened UstarNames
  import opened RecordWriter
  import opened FieldSyntax
  import opened ArchiveFormat
  import opened ArchiveReading
  import opened ArchiveRoundTrip
  import opened Deletion
  import opened DeletionReading

  // ----- reading, by type flag

  /** A block that tar_checksum accepts and whose size field holds size. */
  predicate GoodHeader(b: Block, size: nat) {
    ChecksumStatus(b) == Success && ParseField(b[124..136], true, 0, 0x7fff_ffff_ffff_ffff, false) == Some(size)
  }

  lemma GoodStatus(b: Block, size: nat)
    requires GoodHeader(b, size)
    ensures HeaderStatus(b) == Success && HeaderSize(b) == Some(size)
  {
    hide ParseField, ChecksumStatus;
  }

  /** The data that belong to a header: none for links ('1', '2'), devices ('3', '4'), directories ('5') and
      fifos ('6'), and none for a file ('0', '7' or NUL) whose name ends in a slash. */
  function DataAfter(typeflag: byte, name: seq<byte>, size: nat): nat {
    if typeflag == 49 || typeflag == 50 || typeflag == 51 || typeflag == 52 || typeflag == 53 || typeflag == 54 then 0
    else if (typeflag == 48 || typeflag == 55 || typeflag == 0) && name != [] && name[|name| - 1] == 47 then 0
    else size
  }

  /** Every header but those of long names ('L'), long links ('K') and extended headers ('x', 'g', 'X') is a
      member of its own: its entry has the name, the link name and the data that belong to it, and reading
      goes on behind them.  If they are not all there, reading stops. */
  lemma ReadByType(b: Block, size: nat, rest: seq<byte>)
    requires GoodHeader(b, size) && b[156] !in {75, 76, 88, 103, 120}
    ensures var n := DataAfter(b[156], HeaderName(b), size);
            var k := 512 * BlocksFor(n);
            if |rest| < k then ReadAll(b + rest) == Listing([], Truncated)
            else
              var l := ReadAll(rest[k..]);
              n <= k && ReadAll(b + rest) == Listing([Decode(b, HeaderName(b), HeaderLink(b), rest[..n])] + l.entries, l.stop)
  {
    hide ReadAll, NextHeader, Decode, HeaderName, HeaderLink, HeaderStatus, HeaderSize, GoodHeader, BlocksFor;
    var n := DataAfter(b[156], HeaderName(b), size);
    GoodStatus(b, size);
    assert n == SkippedSize(b);
    OwnTaken(b, rest, None, None);
    var k := 512 * BlocksFor(n);
    if |rest| < k {
      ReadCut(b + rest);
    } else {
      SpanIs(n);
      assert b + rest == b + (rest[..k] + rest[k..]);
      ReadOwn(b, rest[..k], rest[k..]);
      assert rest[..k][..n] == rest[..n];
    }
  }

  lemma ReadCut(all: seq<byte>)
    requires var h := NextHeader(all, None, None); h.status == Success && |h.rest| < BLOCKSIZE * BlocksFor(DataSize(h))
    ensures ReadAll(all) == Listing([], Truncated)
  {
    hide NextHeader, DataSize, BlocksFor;
  }

  /** A long-name record ('L') gives the name, and a long-link record ('K') the link name, of the header that
      follows; the header search goes on behind its blocks. */
  lemma LongTaken(b: Block, size: nat, data: seq<byte>, rest: seq<byte>, name: Option<seq<byte>>, link: Option<seq<byte>>)
    requires GoodHeader(b, size) && |data| == 512 * BlocksFor(size)
    ensures b[156] == 76 ==> NextHeader(b + data + rest, name, link) == NextHeader(rest, Some(CStr(data)), link)
    ensures b[156] == 75 ==> NextHeader(b + data + rest, name, link) == NextHeader(rest, name, Some(CStr(data)))
  {
    hide NextHeader, HeaderStatus, HeaderSize, GoodHeader, CStr, BlocksFor;
    if b[156] == 75 || b[156] == 76 {
      GoodStatus(b, size);
      var all := b + data + rest;
      assert all[..BLOCKSIZE] == b && all[156] == b[156];
      HeaderStep(all, name, link);
      assert all[Span(size)..] == rest && all[BLOCKSIZE..Span(size)] == data;
    }
  }

  /** A long record that is cut off ends the search. */
  lemma LongCut(b: Block, size: nat, rest: seq<byte>)
    requires GoodHeader(b, size) && (b[156] == 75 || b[156] == 76) && |rest| < 512 * BlocksFor(size)
    ensures ReadAll(b + rest) == Listing([], NoZeroBlocks)
  {
    hide ChecksumStatus, ParseField, CStr, BlocksFor, Decode;
    assert (b + rest)[..BLOCKSIZE] == b && (b + rest)[BLOCKSIZE..] == rest;
  }

  /** Extended headers ('x', 'g' and 'X') are where this model stops. */
  lemma ExtendedStops(b: Block, size: nat, rest: seq<byte>)
    requires GoodHeader(b, size) && (b[156] == 88 || b[156] == 103 || b[156] == 120)
    ensures ReadAll(b + rest) == Listing([], PaxHeader)
  {
    hide ChecksumStatus, ParseField, CStr, BlocksFor, Decode;
    assert (b + rest)[..BLOCKSIZE] == b;
  }

  /** A block that is not a header, or that has no size, is passed over. */
  lemma GarbagePassed(b: Block, rest: seq<byte>)
    requires ChecksumStatus(b) == Failure
             || (ChecksumStatus(b) == Success && ParseField(b[124..136], true, 0, 0x7fff_ffff_ffff_ffff, false) == None)
    ensures ReadAll(b + rest) == ReadAll(rest)
  {
    hide ParseField, ChecksumStatus, ReadAll;
    ReadGarbage(b, rest);
  }

  /** A zero block ends the archive; another one is expected after it. */
  lemma ZeroBlockEnds(b: Block, rest: seq<byte>)
    requires ChecksumStatus(b) == ZeroBlock
    ensures 512 <= |rest| && ChecksumStatus(rest[..512]) == ZeroBlock ==> ReadAll(b + rest) == Listing([], TwoZeroBlocks)
    ensures |rest| < 512 || (ChecksumStatus(rest[..512]) != ZeroBlock && rest[156] != 75 && rest[156] != 76) ==>
              ReadAll(b + rest) == Listing([], LoneZeroBlock)
  {
    hide ChecksumStatus, NextHeader, Decode;
    ZeroFound(b + rest);
    assert (b + rest)[..BLOCKSIZE] == b && (b + rest)[BLOCKSIZE..] == rest;
    ZeroFound(rest);
  }

  /** What the header search says of zero blocks. */
  lemma ZeroFound(rest: seq<byte>)
    ensures 512 <= |rest| && ChecksumStatus(rest[..512]) == ZeroBlock ==>
              NextHeader(rest, None, None).status == ZeroBlock && NextHeader(rest, None, None).rest == rest
    ensures NextHeader(rest, None, None).status == ZeroBlock && !LongAt(rest) ==> 512 <= |rest| && ChecksumStatus(rest[..512]) == ZeroBlock
  {
    hide ChecksumStatus, HeaderSize, CStr, HeaderName, HeaderLink, BlocksFor;
  }

  // ----- names

  /** The bytes of a field before its first NUL. */
  lemma TextBeforeNul(s: seq<byte>)
    ensures var t := CStr(s); |t| <= |s| && t == s[..|t|] && (forall k :: 0 <= k < |t| ==> t[k] != 0) && (|t| < |s| ==> s[|t|] == 0)
  {
  }

  /** The name is the text at 0, behind the text at 345 and a slash if there is one and the magic at 257 is
      that of ustar, with a NUL. */
  lemma NameAt(b: Block)
    ensures HeaderName(b) == if b[345] != 0 && b[257] == 117 && b[258] == 115 && b[259] == 116 && b[260] == 97 && b[261] == 114 && b[262] == 0
                             then CStr(b[345..500]) + [47] + CStr(b[..100]) else CStr(b[..100])
    ensures HeaderLink(b) == CStr(b[157..257])
  {
    hide CStr;
    assert b[0..100] == b[..100];
    var magic := b[257..263];
    assert forall k :: 0 <= k < 6 ==> magic[k] == b[257 + k];
    assert TMAGIC[..6] == [117, 115, 116, 97, 114, 0];
  }

  /** The numbers of an entry are those of the fields at 100, 108, 116 and 136; of the mode the permission bits
      count, and a field that cannot be read comes out as -1. */
  lemma NumbersAt(b: Block, name: seq<byte>, link: seq<byte>, data: seq<byte>, x: int)
    ensures var e := Decode(b, name, link, data);
            && e.typeflag == b[156] && e.name == name && e.link == link && e.data == data
            && (ParseField(b[100..108], true, INTMAX_MIN, UINTMAX_MAX, false) == Some(x) ==> e.mode == x % 4096)
            && (ParseField(b[108..116], true, 0, 0xffff_ffff, false) == Some(x) ==> e.uid == x)
            && (ParseField(b[116..124], true, 0, 0xffff_ffff, false) == Some(x) ==> e.gid == x)
            && (ParseField(b[136..148], true, INTMAX_MIN, INTMAX_MAX, false) == Some(x) ==> e.mtime == x)
            && (ParseField(b[108..116], true, 0, 0xffff_ffff, false) == None ==> e.uid == -1)
            && (ParseField(b[116..124], true, 0, 0xffff_ffff, false) == None ==> e.gid == -1)
            && (ParseField(b[136..148], true, INTMAX_MIN, INTMAX_MAX, false) == None ==> e.mtime == -1)
  {
    hide ParseField;
  }

  // ----- where the fields are

  /** The type flag and the magic of a header that the writer makes. */
  lemma HeaderCodes(fmt: Format, m: Member)
    requires SystemFile(m) && Accepted(fmt, m)
    ensures Header(fmt, m)[156] == if m.link.NoLink? then 48 else if m.link.Hard? then 49 else 50
    ensures Header(fmt, m)[257..265] == if fmt == Ustar then [117, 115, 116, 97, 114, 0, 48, 48] else [117, 115, 116, 97, 114, 32, 32, 0]
  {
    hide Finished, HeaderBytes, FieldText, HeaderByte, NameField, PrefixField, LinkField, NulFree;
    FinishedFields(MemberFields(fmt, m));
  }

  /** Its numbers: mode, owner, group, size and time. */
  lemma HeaderNumbersAt(fmt: Format, m: Member)
    requires SystemFile(m) && Accepted(fmt, m)
    ensures ParseField(Header(fmt, m)[100..108], true, 0, 0xffff_ffff, false) == Some(if fmt == OldGnu then m.mode else m.mode % 4096)
    ensures ParseField(Header(fmt, m)[108..116], true, 0, 0xffff_ffff, false) == Some(m.uid)
    ensures ParseField(Header(fmt, m)[116..124], true, 0, 0xffff_ffff, false) == Some(m.gid)
    ensures ParseField(Header(fmt, m)[124..136], true, 0, 0x7fff_ffff_ffff_ffff, false) == Some(|m.data|)
    ensures ParseField(Header(fmt, m)[136..148], true, INTMAX_MIN, INTMAX_MAX, false) == Some(m.mtime)
  {
    hide Finished, HeaderBytes, FieldText, ParseField, HeaderByte, NameField, PrefixField, LinkField, NulFree;
    FinishedFields(MemberFields(fmt, m));
    NumberOf(fmt, StoredMode(fmt, m.mode), 8, 0, 0xffff_ffff);
    NumberOf(fmt, m.uid, 8, 0, 0xffff_ffff);
    NumberOf(fmt, m.gid, 8, 0, 0xffff_ffff);
    NumberOf(fmt, |m.data|, 12, 0, INTMAX_MAX);
    NumberOf(fmt, m.mtime, 12, INTMAX_MIN, INTMAX_MAX);
  }

  /** Its texts: the name of at most 100 bytes, 99 in the old GNU format, a prefix in the ustar format, and
      the first hundred bytes of the link target. */
  lemma HeaderTexts(fmt: Format, m: Member)
    requires SystemFile(m) && Accepted(fmt, m)
    ensures var b, max := Header(fmt, m), if fmt == OldGnu then 99 else 100;
            && CStr(b[157..257]) == LinkTarget(m.link)[..Min(100, |LinkTarget(m.link)|)]
            && (|m.name| <= max ==> CStr(b[..100]) == m.name && CStr(b[345..500]) == [])
            && (|m.name| > max && fmt != Ustar ==> CStr(b[..100]) == m.name[..max] && CStr(b[345..500]) == [])
            && (|m.name| > max && fmt == Ustar ==> CStr(b[345..500]) + [47] + CStr(b[..100]) == m.name)
  {
    hide Finished, HeaderBytes, FieldText, NulFree, CStr;
    var f := MemberFields(fmt, m);
    FieldsNulFree(fmt, m);
    FinishedNames(f);
    var b := Header(fmt, m);
    assert b[0..100] == b[..100];
    if |m.name| > 100 && fmt == Ustar {
      NameParts(fmt, m.name);
    }
  }

  /** A long-name ('L') or long-link ('K') record: a header named ././@LongLink, with the size of the text
      and its NUL, and these in whole blocks. */
  lemma LongLayout(fmt: Format, typeflag: byte, text: seq<byte>)
    requires |text| < INTMAX_MAX && NulFree(text)
    ensures var r := LongBytes(fmt, typeflag, text);
            && |r| == 512 + 512 * BlocksFor(|text| + 1) && GoodHeader(r[..512], |text| + 1) && r[156] == typeflag
            && CStr(r[..100]) == [46, 47, 46, 47, 64, 76, 111, 110, 103, 76, 105, 110, 107]
            && r[512..512 + |text|] == text && (forall k :: 512 + |text| <= k < |r| ==> r[k] == 0)
  {
    hide Finished, HeaderBytes, FieldText, ChecksumStatus, ParseField, BlocksFor, CStr, Octal, NulFree;
    LongHeader(fmt, typeflag, text);
    var f := LongFields(fmt, typeflag, |text| + 1);
    assert NulFree(LONG_LINK_NAME) && NulFree([]) by { NoNul(); }
    FinishedNames(f);
    var r := LongBytes(fmt, typeflag, text);
    assert r[..512] == Finished(HeaderBytes(f));
    assert r[..512][0..100] == r[..100];
    assert |text + [NUL]| == |text| + 1;
  }

  /** Its mode is 0644; the old GNU format stores the type of a regular file too. */
  lemma LongModeIs(fmt: Format, typeflag: byte, text: seq<byte>)
    requires |text| < INTMAX_MAX
    ensures var r := LongBytes(fmt, typeflag, text);
            |r| >= 512 && ParseField(r[100..108], true, 0, 0xffff_ffff, false) == Some(if fmt == OldGnu then 0x81a4 else 0x1a4)
  {
    hide Finished, HeaderBytes, ParseField, Octal, Padded;
    var f := LongFields(fmt, typeflag, |text| + 1);
    FinishedFields(f);
    var r := LongBytes(fmt, typeflag, text);
    assert r[..512] == Finished(HeaderBytes(f));
    assert r[100..108] == r[..512][100..108];
    LongModeField(fmt);
    NumberOf(Gnu, LongMode(fmt), 8, 0, 0xffff_ffff);
  }

  lemma LongModeField(fmt: Format)
    ensures FieldText(true, LongMode(fmt), 8) == Some(Octal(LongMode(fmt), 7) + [NUL])
  {
    hide Octal, MaxVal;
    FieldLimits();
  }

  /** The ustar format takes a name of up to 100 bytes, or one with a slash that leaves at most 155 bytes before
      it and at most 100 behind it, and something on either side. */
  lemma UstarAccepts(name: seq<byte>)
    ensures NameAccepted(Ustar, name)
            <==> |name| <= 100 || exists i :: 1 <= i <= 155 && i < |name| && name[i] == 47 && 1 <= |name| - i - 1 <= 100
  {
    if i :| 1 <= i <= 155 && i < |name| && name[i] == 47 && 1 <= |name| - i - 1 <= 100 {
      assert Splits(name, i);
    }
  }

  /** Data are filled up with zeros to whole blocks. */
  lemma PaddingIsZero(data: seq<byte>)
    ensures var p := Padded(data);
            |p| % 512 == 0 && |data| <= |p| < |data| + 512 && p[..|data|] == data && forall k :: |data| <= k < |p| ==> p[k] == 0
  {
  }

  lemma NoNul()
    ensures NulFree(LONG_LINK_NAME) && NulFree([])
  {
  }

  // ----- directories with a size

  /** Reading and deleting differ on a directory whose size field is not zero: reading takes the block behind
      it as the next header, deletion as its data.  So the file that follows is lost with the directory. */
  lemma SizedDirectory(b: Block, c: Block, rest: seq<byte>, doomed: seq<byte> -> bool)
    requires GoodHeader(b, 512) && b[156] == 53 && doomed(HeaderName(b))
    requires GoodHeader(c, 0) && c[156] == 48
    ensures ReadAll(b + (c + rest)).entries
         == [Decode(b, HeaderName(b), HeaderLink(b), []), Decode(c, HeaderName(c), HeaderLink(c), [])] + ReadAll(rest).entries
    ensures Kept(b + (c + rest), doomed) == Kept(rest, doomed)
    ensures !NoSizedDirectory(b + (c + rest))
  {
    hide ReadAll, Decode, HeaderName, HeaderLink, GoodHeader, Kept;
    ReadByType(b, 512, c + rest);
    ReadByType(c, 0, rest);
    assert (c + rest)[0..] == c + rest && (c + rest)[..0] == [] && rest[0..] == rest && rest[..0] == [];
    DirectoryNext(b, c, rest);
    KeptStep(b + (c + rest), doomed);
  }

  lemma DirectoryNext(b: Block, c: Block, rest: seq<byte>)
    requires GoodHeader(b, 512) && b[156] == 53
    ensures var n := NextMember(b + (c + rest), [], []);
            && n == Next(Success, [], [], HeaderName(b), 512, b + (c + rest)) && n.rest[156] == 53
            && Span(512) == 1024 && n.rest[Span(512)..] == rest
  {
    hide HeaderName, GoodHeader, HeaderStatus, HeaderSize;
    GoodStatus(b, 512);
    var all := b + (c + rest);
    assert all[..BLOCKSIZE] == b && all[1024..] == rest;
  }

  /** There is such a directory. */
  lemma SizedDirectoryExists()
    ensures exists b: Block :: GoodHeader(b, 512) && b[156] == 53
  {
    hide Finished, HeaderBytes, FieldText, ParseField, ChecksumStatus, LongFields;
    LongHeader(Gnu, 53, Zeros(511));
    assert |Zeros(511)| + 1 == 512;
    var b := Finished(HeaderBytes(LongFields(Gnu, 53, 512)));
    assert GoodHeader(b, 512) && b[156] == 53;
  }
}

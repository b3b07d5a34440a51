/** The programs around the record buffer: dump_regular_file, dump_hard_link, the dumping of symbolic links
    and write_eot of src/create.c write an archive, read_header and read_and of src/list.c read one. */
module ArchiveIO {
  import opened Bytes
  import opened HeaderNumbers
  import opened HeaderBlock
  import opened UstarNames
  import opened RecordWriter
  import opened RecordReader
  import opened ArchiveFormat
  import opened ArchiveReading
  import opened ArchiveRoundTrip

  // ----- writing

  /** tar_copy_str into a zeroed field. */
  method CopyStr(h: array<byte>, at: nat, src: seq<byte>)
    requires at + |src| <= h.Length
    modifies h
    ensures h[..] == Put(old(h[..]), at, src)
  {
    for i := 0 to |src|
      invariant forall k :: 0 <= k < h.Length ==> h[k] == if at <= k < at + i then src[k - at] else old(h[k])
    {
      h[at + i] := src[i];
    }
  }

  /** The header as the writer builds it, field by field. */
  ghost function Built(f: Fields): Block
    requires FieldSizes(f)
  {
    var b0 := Put(Put(Zeros(BLOCKSIZE), 0, f.name), 345, f.prefix);
    var b1 := Put(Put(Put(b0, 100, f.mode), 108, f.uid), 116, f.gid);
    var b2 := Put(Put(b1, 124, f.size), 136, f.mtime);
    Put(Put(Put(b2, 257, f.magic), 157, f.linkname), 156, [f.typeflag])
  }

  lemma PutAt(f: seq<byte>, at: nat, text: seq<byte>, k: nat)
    requires at + |text| <= |f| && k < |f|
    ensures Put(f, at, text)[k] == if at <= k < at + |text| then text[k - at] else f[k]
  {
  }

  lemma BuiltIsHeader(f: Fields)
    requires FieldSizes(f)
    ensures Built(f) == HeaderBytes(f)
  {
    hide Put, HeaderBytes;
    forall k | 0 <= k < BLOCKSIZE ensures Built(f)[k] == HeaderBytes(f)[k] {
      BuiltByte(f, k);
    }
  }

  lemma BuiltByte(f: Fields, k: nat)
    requires FieldSizes(f) && k < BLOCKSIZE
    ensures Built(f)[k] == HeaderByte(f, k)
  {
    hide Put;
    var a0 := Zeros(BLOCKSIZE);
    var a1 := Put(a0, 0, f.name);
    var b0 := Put(a1, 345, f.prefix);
    var a2 := Put(b0, 100, f.mode);
    var a3 := Put(a2, 108, f.uid);
    var b1 := Put(a3, 116, f.gid);
    var a4 := Put(b1, 124, f.size);
    var b2 := Put(a4, 136, f.mtime);
    var a5 := Put(b2, 257, f.magic);
    var a6 := Put(a5, 157, f.linkname);
    PutAt(a0, 0, f.name, k);
    PutAt(a1, 345, f.prefix, k);
    PutAt(b0, 100, f.mode, k);
    PutAt(a2, 108, f.uid, k);
    PutAt(a3, 116, f.gid, k);
    PutAt(b1, 124, f.size, k);
    PutAt(a4, 136, f.mtime, k);
    PutAt(b2, 257, f.magic, k);
    PutAt(a5, 157, f.linkname, k);
    PutAt(a6, 156, [f.typeflag], k);
  }

  /** A number that start_header is given: its value and the size of its type. */
  predicate Numbers(m: Member) {
    && ValueOfSize(m.mode, 8) && ValueOfSize(m.uid, 8) && ValueOfSize(m.gid, 8)
    && ValueOfSize(m.mtime, 8) && ValueOfSize(|m.data|, 8)
  }

  /** start_header after the name has been settled, and finish_header: None if a number is refused. */
  method WriteHeader(fmt: Format, m: Member, name: seq<byte>, prefix: seq<byte>) returns (b: Option<Block>)
    requires NameAccepted(fmt, m.name) && Numbers(m)
    requires name == NameField(fmt, m.name) && prefix == PrefixField(fmt, m.name)
    ensures b.Some? <==> Accepted(fmt, m)
    ensures b.Some? ==> b.value == Header(fmt, m)
  {
    hide Put, FieldText, ValueOfSize, Finished, HeaderBytes, LastSplit, NameField, PrefixField, LinkField, TypeOf;
    ModeSize(fmt, m.mode);
    var gnu := IsGnu(fmt);
    var h := new byte[BLOCKSIZE](_ => NUL);
    assert h[..] == Zeros(BLOCKSIZE);
    CopyStr(h, 0, name);
    CopyStr(h, 345, prefix);
    var ok := ToChars(gnu, StoredMode(fmt, m.mode), 8, h, 100, 8);
    if !ok { return None; }
    ok := ToChars(gnu, m.uid, 8, h, 108, 8);
    if !ok { return None; }
    ok := ToChars(gnu, m.gid, 8, h, 116, 8);
    if !ok { return None; }
    ok := ToChars(gnu, |m.data|, 8, h, 124, 12);
    if !ok { return None; }
    ok := ToChars(gnu, m.mtime, 8, h, 136, 12);
    if !ok { return None; }
    CopyStr(h, 257, if gnu then OLDGNU_MAGIC else TMAGIC);
    CopyStr(h, 157, LinkField(m.link));
    StoreByte(h, 156, TypeOf(m.link));
    BuiltIsHeader(MemberFields(fmt, m));
    SimpleFinishHeader(h);
    b := Some(h[..]);
  }

  lemma ModeSize(fmt: Format, mode: int)
    requires ValueOfSize(mode, 8)
    ensures ValueOfSize(StoredMode(fmt, mode), 8)
  {
    Pow2Limits();
  }

  /** write_gnu_long_link: a header of its own, then the text with its NUL over as many records as
      it takes. */
  method WriteGnuLong(w: Writer, fmt: Format, typeflag: byte, text: seq<byte>)
    requires w.Valid() && |text| < INTMAX_MAX
    modifies w, w.record
    ensures w.Valid() && w.Contents() == old(w.Contents()) + LongBytes(fmt, typeflag, text)
  {
    hide *;
    var b := LongHeaderBlock(fmt, typeflag, text);
    w.WriteBlock(b);
    w.WriteData(text + [NUL]);
    LongRecordParts(fmt, typeflag, old(w.Contents()), text);
  }

  method LongHeaderBlock(fmt: Format, typeflag: byte, text: seq<byte>) returns (b: Block)
    requires |text| < INTMAX_MAX
    ensures b == Finished(HeaderBytes(LongFields(fmt, typeflag, |text| + 1)))
  {
    hide Put, FieldText, Finished, HeaderBytes, ValueOfSize, Octal, MaxVal;
    var h := new byte[BLOCKSIZE](_ => NUL);
    assert h[..] == Zeros(BLOCKSIZE);
    CopyStr(h, 0, LONG_LINK_NAME);
    CopyStr(h, 345, []);
    LongNumbers(fmt, |text| + 1);
    var ok := ToChars(true, LongMode(fmt), 8, h, 100, 8);
    ok := ToChars(true, 0, 8, h, 108, 8);
    ok := ToChars(true, 0, 8, h, 116, 8);
    ok := ToChars(true, |text| + 1, 8, h, 124, 12);
    ok := ToChars(true, 0, 8, h, 136, 12);
    CopyStr(h, 257, OLDGNU_MAGIC);
    CopyStr(h, 157, []);
    StoreByte(h, 156, typeflag);
    BuiltIsHeader(LongFields(fmt, typeflag, |text| + 1));
    SimpleFinishHeader(h);
    b := h[..];
  }

  lemma LongNumbers(fmt: Format, size: nat)
    requires size <= INTMAX_MAX
    ensures ValueOfSize(size, 8) && ValueOfSize(0, 8) && ValueOfSize(LongMode(fmt), 8)
    ensures FieldText(true, LongMode(fmt), 8) == Some(Octal(LongMode(fmt), 7) + [NUL])
    ensures FieldText(true, 0, 8) == Some(Octal(0, 7) + [NUL])
    ensures FieldText(true, 0, 12) == Some(Octal(0, 11) + [NUL])
    ensures FieldText(true, size, 12).Some?
  {
    hide Octal, Base256, Pow2;
    Pow2Limits();
    SmallFields();
    LongSizeFits(size);
  }

  lemma SmallFields()
    ensures 0x81a4 < Pow2(21) && 0 < Pow2(33)
  {
    assert Pow2(8) == 256;
    assert Pow2(16) == 0x1_0000;
    Pow2Monotone(16, 21);
  }

  lemma LongRecordParts(fmt: Format, typeflag: byte, c: seq<byte>, text: seq<byte>)
    requires |text| < INTMAX_MAX
    ensures c + Finished(HeaderBytes(LongFields(fmt, typeflag, |text| + 1))) + Padded(text + [NUL]) == c + LongBytes(fmt, typeflag, text)
  {
    hide Finished, HeaderBytes, Padded;
  }

  /** write_long_link, which in the ustar format reports an error and writes nothing. */
  method WriteLongLink(w: Writer, fmt: Format, m: Member)
    requires w.Valid() && Measurable(m)
    modifies w, w.record
    ensures w.Valid() && w.Contents() == old(w.Contents()) + LinkPart(fmt, m)
  {
    hide Writer.Valid, Writer.Contents, LongBytes;
    if |LinkTarget(m.link)| > ShortNameMax(fmt) && IsGnu(fmt) {
      WriteGnuLong(w, fmt, LONGLINK, LinkTarget(m.link));
    } else {
      assert old(w.Contents()) + [] == old(w.Contents());
    }
  }

  /** The long records: what a refused member leaves behind. */
  ghost function Leftover(fmt: Format, m: Member): seq<byte>
    requires Measurable(m)
  {
    LinkPart(fmt, m) + NamePart(fmt, m)
  }

  /** dump_regular_file, dump_hard_link or a symbolic link: the member's blocks are appended, or it is
      refused. */
  method DumpFile(w: Writer, fmt: Format, m: Member) returns (ok: bool)
    requires w.Valid() && Numbers(m) && Measurable(m)
    modifies w, w.record
    ensures w.Valid()
    ensures ok <==> Accepted(fmt, m)
    ensures w.Contents() == old(w.Contents()) + if ok then MemberBytes(fmt, m) else Leftover(fmt, m)
  {
    hide *;
    WriteLongLink(w, fmt, m);
    var name, prefix := m.name, [];
    var named := true;
    if |name| > ShortNameMax(fmt) {
      if IsGnu(fmt) {
        MeasurableName(m);
        WriteGnuLong(w, fmt, LONGNAME, name);
        name := name[..ShortNameMax(fmt)];
      } else {
        UstarLimit(fmt, name);
        var split := WriteUstarLongName(name);
        named := split.Split?;
        if named {
          name, prefix := split.rest, split.prefix;
        }
      }
    }
    NameSettled(fmt, m, named, name, prefix);
    LeftoverStep(fmt, m, old(w.Contents()));
    if !named {
      return false;
    }
    var b := WriteHeader(fmt, m, name, prefix);
    if b.None? {
      return false;
    }
    w.WriteBlock(b.value);
    w.WriteData(m.data);
    MemberParts(fmt, m, old(w.Contents()));
    ok := true;
  }

  lemma MeasurableName(m: Member)
    requires Measurable(m)
    ensures |m.name| < INTMAX_MAX
  {
  }

  lemma UstarLimit(fmt: Format, name: seq<byte>)
    requires |name| > ShortNameMax(fmt) && !IsGnu(fmt)
    ensures |name| > NAME_FIELD_SIZE
  {
  }

  /** The outcome of write_header_name. */
  lemma NameSettled(fmt: Format, m: Member, named: bool, name: seq<byte>, prefix: seq<byte>)
    requires if |m.name| <= ShortNameMax(fmt) then named && name == m.name && prefix == []
             else if IsGnu(fmt) then named && name == m.name[..ShortNameMax(fmt)] && prefix == []
             else if named then prefix + [SLASH] + name == m.name && Splits(m.name, |prefix|)
                                && |prefix| == LastSplit(m.name, PREFIX_FIELD_SIZE)
             else !exists i :: Splits(m.name, i)
    ensures named <==> NameAccepted(fmt, m.name)
    ensures named ==> name == NameField(fmt, m.name) && prefix == PrefixField(fmt, m.name)
    ensures !named ==> !NeedsLong(fmt, m.name) && !Accepted(fmt, m)
  {
    hide FieldText;
    if |m.name| > ShortNameMax(fmt) && !IsGnu(fmt) && named {
      assert m.name[..|prefix|] == prefix && m.name[|prefix| + 1..] == name;
    }
  }

  lemma LeftoverStep(fmt: Format, m: Member, c: seq<byte>)
    requires Measurable(m)
    ensures c + Leftover(fmt, m)
         == if |m.name| > ShortNameMax(fmt) && IsGnu(fmt) then c + LinkPart(fmt, m) + LongBytes(fmt, LONGNAME, m.name) else c + LinkPart(fmt, m)
  {
    hide LongBytes, LinkPart;
  }

  lemma MemberParts(fmt: Format, m: Member, c: seq<byte>)
    requires Measurable(m) && Accepted(fmt, m)
    ensures c + Leftover(fmt, m) + Header(fmt, m) + Padded(m.data) == c + MemberBytes(fmt, m)
  {
    hide LinkPart, NamePart, Header, Padded, Accepted;
    ThreeParts(c, Leftover(fmt, m), Header(fmt, m), Padded(m.data));
  }

  lemma ThreeParts(c: seq<byte>, a: seq<byte>, b: seq<byte>, d: seq<byte>)
    ensures c + a + b + d == c + (a + b + d)
  {
  }

  /** Writing a whole archive: the members, then zeros to the end of a record.  Members that are refused are
      passed over. */
  method CreateArchive(fmt: Format, ms: seq<Member>, blockingFactor: nat)
    returns (media: seq<seq<byte>>, refused: seq<nat>, ghost zeros: nat)
    requires 0 < blockingFactor && forall k :: 0 <= k < |ms| ==> SystemFile(ms[k])
    ensures forall k :: 0 <= k < |AcceptedOf(fmt, ms)| ==> Accepted(fmt, AcceptedOf(fmt, ms)[k]) && Measurable(AcceptedOf(fmt, ms)[k])
    ensures Flatten(media) == MembersBytes(fmt, AcceptedOf(fmt, ms)) + Zeros(zeros) && 2 * BLOCKSIZE <= zeros
    ensures forall i :: 0 <= i < |media| ==> |media[i]| == BLOCKSIZE * blockingFactor
    ensures forall k :: 0 <= k < |ms| ==> (k in refused <==> !Accepted(fmt, ms[k]))
  {
    hide Accepted, MemberBytes, Numbers, Flatten, SystemFile, MembersBytes, AcceptedOf, Creating, Measurable, Leftover;
    AllAccepted(fmt, ms);
    var w := new Writer(blockingFactor);
    refused := [];
    StartCreating(fmt, ms);
    for i := 0 to |ms|
      invariant w.Valid() && fresh(w) && fresh(w.record) && w.blockingFactor == blockingFactor
      invariant Creating(fmt, ms, i, w.Contents())
      invariant forall k :: 0 <= k < |ms| ==> (k in refused <==> k < i && !Accepted(fmt, ms[k]))
    {
      RegularNumbers(ms[i]);
      NextCreated(fmt, ms, i, w.Contents());
      var ok := DumpFile(w, fmt, ms[i]);
      if !ok {
        refused := refused + [i];
      }
    }
    AllCreated(fmt, ms, w.Contents());
    w.WriteEot();
    ghost var tail := w.record[BLOCKSIZE * w.cur..];
    zeros := 2 * BLOCKSIZE + |tail|;
    w.Close();
    media := w.media;
    assert tail == Zeros(|tail|);
    ZerosAppend(MembersBytes(fmt, AcceptedOf(fmt, ms)), |tail|);
  }

  /** What is stored and what the remaining members will add make up the whole. */
  ghost predicate Creating(fmt: Format, ms: seq<Member>, i: nat, c: seq<byte>) {
    && i <= |ms| && (forall k :: 0 <= k < |ms| ==> SystemFile(ms[k]))
    && var (rest, all) := (AcceptedOf(fmt, ms[i..]), AcceptedOf(fmt, ms));
    && (forall k :: 0 <= k < |rest| ==> Accepted(fmt, rest[k]) && Measurable(rest[k]))
    && (forall k :: 0 <= k < |all| ==> Accepted(fmt, all[k]) && Measurable(all[k]))
    && c + MembersBytes(fmt, rest) == MembersBytes(fmt, all)
  }

  lemma StartCreating(fmt: Format, ms: seq<Member>)
    requires forall k :: 0 <= k < |ms| ==> SystemFile(ms[k])
    ensures Creating(fmt, ms, 0, [])
  {
    hide Accepted, SystemFile, MembersBytes;
    AllAccepted(fmt, ms);
    assert ms[0..] == ms;
    assert [] + MembersBytes(fmt, AcceptedOf(fmt, ms)) == MembersBytes(fmt, AcceptedOf(fmt, ms));
  }

  lemma AllCreated(fmt: Format, ms: seq<Member>, c: seq<byte>)
    requires Creating(fmt, ms, |ms|, c)
    ensures c == MembersBytes(fmt, AcceptedOf(fmt, ms))
  {
    assert ms[|ms|..] == [] && MembersBytes(fmt, []) == [];
  }

  lemma NextCreated(fmt: Format, ms: seq<Member>, i: nat, c: seq<byte>)
    requires Creating(fmt, ms, i, c) && i < |ms|
    ensures Measurable(ms[i])
    ensures Creating(fmt, ms, i + 1, c + if Accepted(fmt, ms[i]) then MemberBytes(fmt, ms[i]) else Leftover(fmt, ms[i]))
  {
    hide Accepted, MemberBytes, SystemFile, Leftover, AcceptedOf, MembersBytes;
    var m, more := ms[i], AcceptedOf(fmt, ms[i + 1..]);
    ShortName(m);
    AllAccepted(fmt, ms[i + 1..]);
    OneMore(fmt, ms, i, AcceptedOf(fmt, ms[i..]), more);
    if Accepted(fmt, m) {
      Append(c, MemberBytes(fmt, m), MembersBytes(fmt, more));
    } else {
      NothingLeft(fmt, m, c);
    }
  }

  lemma OneMore(fmt: Format, ms: seq<Member>, i: nat, all: seq<Member>, more: seq<Member>)
    requires i < |ms| && Measurable(ms[i]) && all == AcceptedOf(fmt, ms[i..]) && more == AcceptedOf(fmt, ms[i + 1..])
    requires forall k :: 0 <= k < |all| ==> Accepted(fmt, all[k]) && Measurable(all[k])
    requires forall k :: 0 <= k < |more| ==> Accepted(fmt, more[k]) && Measurable(more[k])
    ensures MembersBytes(fmt, all)
         == (if Accepted(fmt, ms[i]) then MemberBytes(fmt, ms[i]) else []) + MembersBytes(fmt, more)
  {
    hide Accepted, MemberBytes;
    assert ms[i..][0] == ms[i] && ms[i..][1..] == ms[i + 1..];
    if Accepted(fmt, ms[i]) {
      assert all[0] == ms[i] && all[1..] == more;
    } else {
      assert all == more;
    }
  }

  /** A refused file leaves nothing behind. */
  lemma NothingLeft(fmt: Format, m: Member, c: seq<byte>)
    requires SystemFile(m) && !Accepted(fmt, m) && Measurable(m)
    ensures c + Leftover(fmt, m) == c
  {
    hide Accepted, SystemFile, LongBytes;
    if IsGnu(fmt) {
      GnuAccepts(fmt, m);
    }
  }

  lemma ZerosAppend(c: seq<byte>, n: nat)
    ensures c + Zeros(2 * BLOCKSIZE) + Zeros(n) == c + Zeros(2 * BLOCKSIZE + n)
  {
  }

  // ----- reading

  /** The block that find_next_block finds, if any. */
  method CurrentBlock(r: Reader) returns (b: Block, found: bool)
    requires Ready(r)
    modifies r, r.record
    ensures Ready(r) && Remaining(r) == old(Remaining(r))
    ensures found <==> BLOCKSIZE <= |Remaining(r)|
    ensures found ==> b == Remaining(r)[..BLOCKSIZE] && r.cur < r.end
  {
    hide Reader.OnBoundary, Reader.PositionOk;
    var fatal;
    found, fatal := r.FindNextBlock();
    b := Zeros(BLOCKSIZE);
    if found {
      BufferedBlock(r.record[..], r.archive, r.start, r.cur, r.end);
      b := r.record[BLOCKSIZE * r.cur..BLOCKSIZE * (r.cur + 1)];
      assert BlockAt(r.archive, r.Ordinal()) == Remaining(r)[..BLOCKSIZE];
    }
  }

  method TakeData(r: Reader, size: nat) returns (data: seq<byte>, ok: bool)
    requires Ready(r)
    modifies r, r.record
    ensures ok <==> BLOCKSIZE * BlocksFor(size) <= |old(Remaining(r))|
    ensures ok ==> Ready(r) && data == old(Remaining(r))[..size]
    ensures ok ==> Remaining(r) == old(Remaining(r))[BLOCKSIZE * BlocksFor(size)..]
  {
    var fatal;
    data, ok, fatal := r.ReadData(size);
    if size == 0 {
      assert BlocksFor(size) == 0;
    }
  }

  /** read_header: pass over long-name and long-link records to the next member header. */
  method ReadHeader(r: Reader) returns (status: Status, header: Block, name: seq<byte>, link: seq<byte>, size: int)
    requires Ready(r)
    modifies r, r.record
    ensures var h := NextHeader(old(Remaining(r)), None, None);
            && status == h.status
            && (status == Success ==> header == h.header && name == h.name && link == h.link && size == h.size)
            && (status == Success || status == ZeroBlock || status == Failure ==>
                  Ready(r) && r.cur < r.end && BLOCKSIZE <= |Remaining(r)|)
            && (status == Success ==> Remaining(r)[BLOCKSIZE..] == h.rest)
            && (status == ZeroBlock || status == Failure ==> Remaining(r) == h.rest)
  {
    hide ChecksumStatus, HeaderSize, HeaderName, HeaderLink, CStr, BlocksFor;
    var longName: Option<seq<byte>> := None;
    var longLink: Option<seq<byte>> := None;
    while true
      invariant Ready(r)
      invariant NextHeader(Remaining(r), longName, longLink) == NextHeader(old(Remaining(r)), None, None)
      decreases |Remaining(r)|
    {
      var found;
      header, found := CurrentBlock(r);
      name, link, size := [], [], 0;
      if !found {
        return EndOfFile, header, name, link, size;
      }
      status := TarChecksum(header);
      if status != Success {
        return;
      }
      var field := SizeField(header);
      if field.None? || field.value < 0 {
        return Failure, header, name, link, size;
      }
      size := field.value;
      if IsLong(header[156]) {
        var ok, text := SkipLong(r, header, size, longName, longLink);
        if !ok {
          return EndOfFile, header, name, link, size;
        }
        if header[156] == LONGNAME {
          longName := Some(text);
        } else {
          longLink := Some(text);
        }
      } else if IsPax(header[156]) {
        return SuccessExtended, header, name, link, size;
      } else {
        name := if longName.Some? then longName.value else HeaderName(header);
        link := if longLink.Some? then longLink.value else HeaderLink(header);
        size := if HasNoData(header[156]) then 0 else size;
        return;
      }
    }
  }

  method SizeField(header: Block) returns (size: Option<int>)
    ensures size == HeaderSize(header)
  {
    size := FromHeader(header[124..136], true, 0, INTMAX_MAX, false);
  }

  /** The text of a long-name or long-link record. */
  method SkipLong(r: Reader, header: Block, size: nat, ghost longName: Option<seq<byte>>, ghost longLink: Option<seq<byte>>)
    returns (ok: bool, text: seq<byte>)
    requires Ready(r) && r.cur < r.end && BLOCKSIZE <= |Remaining(r)| && header == Remaining(r)[..BLOCKSIZE]
    requires ChecksumStatus(header) == Success && HeaderSize(header) == Some(size) && IsLong(header[156])
    modifies r, r.record
    ensures ok ==> Ready(r) && |Remaining(r)| < |old(Remaining(r))|
    ensures ok ==> NextHeader(old(Remaining(r)), longName, longLink)
                   == if header[156] == LONGNAME then NextHeader(Remaining(r), Some(text), longLink)
                      else NextHeader(Remaining(r), longName, Some(text))
    ensures !ok ==> NextHeader(old(Remaining(r)), longName, longLink).status == EndOfFile
  {
    hide ChecksumStatus, HeaderSize, HeaderName, HeaderLink, CStr;
    ghost var rest := Remaining(r);
    SkipBlock(r);
    var data;
    data, ok := TakeData(r, BLOCKSIZE * BlocksFor(size));
    text := CStr(data);
    WholeBlocksFor(BlocksFor(size));
    if ok {
      LongSkipped(rest, size, longName, longLink);
    }
  }

  lemma WholeBlocksFor(n: nat)
    ensures BlocksFor(BLOCKSIZE * n) == n
  {
  }

  lemma LongSkipped(rest: seq<byte>, size: nat, longName: Option<seq<byte>>, longLink: Option<seq<byte>>)
    requires BLOCKSIZE + BLOCKSIZE * BlocksFor(size) <= |rest|
    requires var b: Block := rest[..BLOCKSIZE];
             ChecksumStatus(b) == Success && HeaderSize(b) == Some(size) && IsLong(b[156])
    ensures var n := BLOCKSIZE * BlocksFor(size);
            var data := rest[BLOCKSIZE..][..n];
            NextHeader(rest, longName, longLink)
            == if rest[156] == LONGNAME then NextHeader(rest[BLOCKSIZE..][n..], Some(CStr(data)), longLink)
               else NextHeader(rest[BLOCKSIZE..][n..], longName, Some(CStr(data)))
  {
    hide ChecksumStatus, HeaderSize, HeaderName, HeaderLink, CStr;
    var n := BLOCKSIZE * BlocksFor(size);
    assert rest[BLOCKSIZE..][..n] == rest[BLOCKSIZE..BLOCKSIZE + n];
    assert rest[BLOCKSIZE..][n..] == rest[BLOCKSIZE + n..];
  }

  /** The entries read so far, followed by what the unread bytes give. */
  ghost predicate Reading(all: seq<byte>, entries: seq<Entry>, rest: seq<byte>) {
    ReadAll(all) == Listing(entries + ReadAll(rest).entries, ReadAll(rest).stop)
  }

  lemma ReadingMember(all: seq<byte>, entries: seq<Entry>, rest: seq<byte>)
    requires Reading(all, entries, rest) && NextHeader(rest, None, None).status == Success
    ensures var h := NextHeader(rest, None, None);
            var n := BLOCKSIZE * BlocksFor(DataSize(h));
            if |h.rest| < n then ReadAll(all) == Listing(entries, Truncated)
            else Reading(all, entries + [Decode(h.header, h.name, h.link, h.rest[..DataSize(h)])], h.rest[n..])
    ensures |NextHeader(rest, None, None).rest| < |rest|
  {
    hide NextHeader, Decode;
  }

  lemma ReadingOther(all: seq<byte>, entries: seq<Entry>, rest: seq<byte>)
    requires Reading(all, entries, rest)
    ensures var h := NextHeader(rest, None, None);
            match h.status
            case Success => true
            case ZeroBlock =>
              var next := NextHeader(h.rest[BLOCKSIZE..], None, None);
              ReadAll(all) == Listing(entries, if next.status == ZeroBlock then TwoZeroBlocks else LoneZeroBlock)
            case Failure => Reading(all, entries, h.rest[BLOCKSIZE..]) && |h.rest[BLOCKSIZE..]| < |rest|
            case SuccessExtended => ReadAll(all) == Listing(entries, PaxHeader)
            case _ => ReadAll(all) == Listing(entries, NoZeroBlocks)
  {
    hide NextHeader, Decode, BlocksFor;
    assert entries + [] == entries;
  }

  /** read_and, with extraction of every member's data as the action. */
  method ReadAnd(r: Reader) returns (listing: Listing)
    requires Ready(r)
    modifies r, r.record
    ensures listing == ReadAll(old(Remaining(r)))
  {
    hide *;
    var entries: seq<Entry> := [];
    ghost var all := Remaining(r);
    ReadingStart(all);
    while true
      invariant Ready(r)
      invariant Reading(all, entries, Remaining(r))
      decreases |Remaining(r)|
    {
      ghost var rest := Remaining(r);
      ReadingOther(all, entries, rest);
      var status, header, name, link, size := ReadHeader(r);
      if status == Success {
        ReadingMember(all, entries, rest);
        SkipBlock(r);
        var length := DataLength(header, name, size);
        var data, ok := TakeData(r, length);
        if !ok {
          return Listing(entries, Truncated);
        }
        entries := entries + [Decode(header, name, link, data)];
      } else if status == ZeroBlock {
        SkipBlock(r);
        var again;
        again, header, name, link, size := ReadHeader(r);
        return Listing(entries, if again == ZeroBlock then TwoZeroBlocks else LoneZeroBlock);
      } else if status == Failure {
        SkipBlock(r);
      } else if status == SuccessExtended {
        return Listing(entries, PaxHeader);
      } else {
        return Listing(entries, NoZeroBlocks);
      }
    }
  }

  method DataLength(header: Block, name: seq<byte>, size: nat) returns (n: nat)
    ensures forall link, rest :: n == DataSize(HeaderRead(Success, header, name, link, size, rest))
  {
    n := if IsDirectory(header[156], name) then 0 else size;
  }

  lemma ReadingStart(all: seq<byte>)
    ensures Reading(all, [], all)
  {
    hide ReadAll;
    assert [] + ReadAll(all).entries == ReadAll(all).entries;
  }

  /** Writing an archive and reading it: of every list of files and links those that are accepted, in the GNU
      formats all, come back in order, with names, link targets, numbers and data, whatever the two blocking factors and
      however the reads are split. */
  method CreateAndRead(fmt: Format, ms: seq<Member>, writeFactor: nat, readFactor: nat) returns (listing: Listing)
    requires 0 < writeFactor && 0 < readFactor && forall k :: 0 <= k < |ms| ==> SystemFile(ms[k])
    ensures listing == Listing(Entries(fmt, AcceptedOf(fmt, ms)), TwoZeroBlocks)
    ensures IsGnu(fmt) ==> listing == Listing(Entries(fmt, ms), TwoZeroBlocks)
  {
    AllAccepted(fmt, ms);
    hide Accepted, SystemFile, MembersBytes, ReadAll, Flatten, AcceptedOf;
    if IsGnu(fmt) {
      NoneRefused(fmt, ms);
    }
    var media, refused, zeros := CreateArchive(fmt, ms, writeFactor);
    var r := new Reader(Flatten(media), readFactor, true);
    RoundTrip(fmt, AcceptedOf(fmt, ms), zeros);
    StartReading(r);
    listing := ReadAnd(r);
  }

  lemma RegularNumbers(m: Member)
    requires SystemFile(m)
    ensures Numbers(m)
  {
    hide NulFree;
    Pow2Limits();
  }

  lemma StartReading(r: Reader)
    requires r.Valid() && r.Ordinal() == 0
    ensures Remaining(r) == r.archive
    ensures r.readFullRecords ==> Ready(r)
  {
  }
}

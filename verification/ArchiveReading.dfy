/** Reading members back: read_header, decode_header and read_and of src/list.c, on the bytes that
    are still unread. */
module ArchiveReading {
  import opened Bytes
  import opened HeaderNumbers
  import opened HeaderBlock
  import opened ArchiveFormat

  /** The name in a header: prefix, slash and name for ustar, else the name field alone. */
  function HeaderName(b: Block): seq<byte> {
    if b[345] != NUL && b[257..263] == TMAGIC[..6] then CStr(b[345..500]) + [SLASH] + CStr(b[0..100])
    else CStr(b[0..100])
  }

  /** The link name in a header. */
  function HeaderLink(b: Block): seq<byte> {
    CStr(b[157..257])
  }

  function HeaderSize(b: Block): Option<int> {
    ParseField(b[124..136], true, 0, INTMAX_MAX, false)
  }

  predicate IsLong(typeflag: byte) {
    typeflag == LONGNAME || typeflag == LONGLINK
  }

  /** POSIX and Solaris extended headers, which this model does not read. */
  predicate IsPax(typeflag: byte) {
    typeflag == 120 || typeflag == 103 || typeflag == 88
  }

  /** Links, devices and fifos carry no data, whatever their size field says. */
  predicate HasNoData(typeflag: byte) {
    49 <= typeflag <= 52 || typeflag == 54
  }

  /** What read_header finds: for Success, rest follows the header; else rest starts at the block
      that ended the search. */
  datatype HeaderRead = HeaderRead(status: Status, header: Block, name: seq<byte>, link: seq<byte>, size: int, rest: seq<byte>)

  function NextHeader(rest: seq<byte>, longName: Option<seq<byte>>, longLink: Option<seq<byte>>): (h: HeaderRead)
    ensures |h.rest| <= |rest|
    ensures h.status == Success ==> |h.rest| + BLOCKSIZE <= |rest| && 0 <= h.size
    ensures h.status == ZeroBlock || h.status == Failure ==> BLOCKSIZE <= |h.rest|
    ensures h.status != StillUnread
    decreases |rest|
  {
    if |rest| < BLOCKSIZE then HeaderRead(EndOfFile, Zeros(BLOCKSIZE), [], [], 0, rest)
    else
      var b: Block := rest[..BLOCKSIZE];
      var status := ChecksumStatus(b);
      if status != Success then HeaderRead(status, b, [], [], 0, rest)
      else if HeaderSize(b).None? || HeaderSize(b).value < 0 then HeaderRead(Failure, b, [], [], 0, rest)
      else
        var size := HeaderSize(b).value;
        if IsLong(b[156]) then
          var n := BLOCKSIZE * BlocksFor(size);
          if |rest| < BLOCKSIZE + n then HeaderRead(EndOfFile, b, [], [], 0, rest)
          else
            var data := rest[BLOCKSIZE..BLOCKSIZE + n];
            if b[156] == LONGNAME then NextHeader(rest[BLOCKSIZE + n..], Some(CStr(data)), longLink)
            else NextHeader(rest[BLOCKSIZE + n..], longName, Some(CStr(data)))
        else if IsPax(b[156]) then HeaderRead(SuccessExtended, b, [], [], 0, rest)
        else
          HeaderRead(Success, b, if longName.Some? then longName.value else HeaderName(b),
                     if longLink.Some? then longLink.value else HeaderLink(b),
                     if HasNoData(b[156]) then 0 else size, rest[BLOCKSIZE..])
  }

  /** A member as the reader delivers it; -1 stands for a field that cannot be read. */
  datatype Entry = Entry(typeflag: byte, name: seq<byte>, link: seq<byte>, mode: int, uid: int, gid: int, mtime: int, data: seq<byte>)

  function Number(f: seq<byte>, minval: int, maxval: int): int
    requires |f| > 0
  {
    match ParseField(f, true, minval, maxval, false)
    case Some(v) => v
    case None => -1
  }

  function Decode(b: Block, name: seq<byte>, link: seq<byte>, data: seq<byte>): Entry {
    Entry(b[156], name, link,
          Number(b[100..108], INTMAX_MIN, UINTMAX_MAX) % 0x1000,
          Number(b[108..116], 0, 0xffff_ffff),
          Number(b[116..124], 0, 0xffff_ffff),
          Number(b[136..148], INTMAX_MIN, INTMAX_MAX),
          data)
  }

  /** member_is_dir: a directory's size is not skipped. */
  predicate IsDirectory(typeflag: byte, name: seq<byte>) {
    || typeflag == 53
    || ((typeflag == NUL || typeflag == REGTYPE || typeflag == 55) && name != [] && name[|name| - 1] == SLASH)
  }

  /** How many bytes of data follow a member's header. */
  function DataSize(h: HeaderRead): nat
    requires 0 <= h.size
  {
    if IsDirectory(h.header[156], h.name) then 0 else h.size
  }

  datatype Stop = TwoZeroBlocks | LoneZeroBlock | NoZeroBlocks | Truncated | PaxHeader

  datatype Listing = Listing(entries: seq<Entry>, stop: Stop)

  /** What read_and delivers from the unread bytes, and why it stops. */
  function ReadAll(rest: seq<byte>): Listing
    decreases |rest|
  {
    var h := NextHeader(rest, None, None);
    match h.status
    case Success =>
      var n := BLOCKSIZE * BlocksFor(DataSize(h));
      if |h.rest| < n then Listing([], Truncated)
      else
        var l := ReadAll(h.rest[n..]);
        Listing([Decode(h.header, h.name, h.link, h.rest[..DataSize(h)])] + l.entries, l.stop)
    case ZeroBlock =>
      Listing([], if NextHeader(h.rest[BLOCKSIZE..], None, None).status == ZeroBlock then TwoZeroBlocks else LoneZeroBlock)
    case Failure => ReadAll(h.rest[BLOCKSIZE..])
    case SuccessExtended => Listing([], PaxHeader)
    case _ => Listing([], NoZeroBlocks)
  }

  // ----- fields of a finished header

  lemma FinishedByte(b: Block, i: nat)
    requires i < BLOCKSIZE && !(CHKSUM <= i < CHKSUM + CHKSUM_SIZE)
    ensures Finished(b)[i] == b[i]
  {
    hide Octal, UnsignedSum;
  }

  lemma FinishedSlice(f: Fields, at: nat, text: seq<byte>)
    requires FieldSizes(f) && at + |text| <= BLOCKSIZE
    requires at + |text| <= CHKSUM || CHKSUM + CHKSUM_SIZE <= at
    requires forall k :: at <= k < at + |text| ==> HeaderByte(f, k) == text[k - at]
    ensures Finished(HeaderBytes(f))[at..at + |text|] == text
  {
    hide Finished, HeaderByte;
    var b := HeaderBytes(f);
    var s := Finished(b)[at..at + |text|];
    forall k | 0 <= k < |text| ensures s[k] == text[k] {
      FinishedByte(b, at + k);
      assert b[at + k] == HeaderByte(f, at + k);
    }
  }

  /** The numeric fields and the flags stand where they were put. */
  lemma FinishedFields(f: Fields)
    requires FieldSizes(f)
    ensures var b := Finished(HeaderBytes(f));
            && b[100..108] == f.mode && b[108..116] == f.uid && b[116..124] == f.gid
            && b[124..136] == f.size && b[136..148] == f.mtime
            && b[156] == f.typeflag && b[257..265] == f.magic && b[345] == At(f.prefix, 0)
  {
    hide Finished, HeaderBytes;
    FinishedSlice(f, 100, f.mode);
    FinishedSlice(f, 108, f.uid);
    FinishedSlice(f, 116, f.gid);
    FinishedSlice(f, 124, f.size);
    FinishedSlice(f, 136, f.mtime);
    FinishedSlice(f, 257, f.magic);
    FinishedByte(HeaderBytes(f), 156);
    FinishedByte(HeaderBytes(f), 345);
  }

  lemma CStrIs(s: seq<byte>, r: seq<byte>)
    requires NulFree(r) && |r| <= |s| && (|r| < |s| ==> s[|r|] == NUL)
    requires forall k :: 0 <= k < |r| ==> s[k] == r[k]
    ensures CStr(s) == r
  {
    assert NulEnd(s, 0) == |r|;
  }

  lemma FinishedNames(f: Fields)
    requires FieldSizes(f) && NulFree(f.name) && NulFree(f.prefix) && NulFree(f.linkname)
    ensures var b := Finished(HeaderBytes(f)); CStr(b[0..100]) == f.name && CStr(b[345..500]) == f.prefix && HeaderLink(b) == f.linkname
  {
    hide Finished, HeaderBytes, CStr;
    FinishedText(f, 157, 100, f.linkname);
    FinishedText(f, 0, 100, f.name);
    FinishedText(f, 345, 155, f.prefix);
  }

  lemma FinishedText(f: Fields, at: nat, n: nat, text: seq<byte>)
    requires FieldSizes(f) && at + n <= BLOCKSIZE && |text| <= n && NulFree(text)
    requires at + n <= CHKSUM || CHKSUM + CHKSUM_SIZE <= at
    requires forall k :: at <= k < at + n ==> HeaderByte(f, k) == At(text, k - at)
    ensures CStr(Finished(HeaderBytes(f))[at..at + n]) == text
  {
    hide Finished, HeaderByte;
    var padded := text + Zeros(n - |text|);
    FinishedSlice(f, at, padded);
    CStrIs(padded, text);
  }

  lemma FinishedName(f: Fields)
    requires FieldSizes(f) && NulFree(f.name) && NulFree(f.prefix) && NulFree(f.linkname)
    ensures HeaderName(Finished(HeaderBytes(f)))
         == if f.prefix != [] && f.magic[..6] == TMAGIC[..6] then f.prefix + [SLASH] + f.name else f.name
  {
    hide Finished, HeaderBytes, CStr;
    FinishedFields(f);
    FinishedNames(f);
    var b := Finished(HeaderBytes(f));
    assert b[257..263] == b[257..265][..6];
  }
}

/** Whole archives: what was written is what is read. */
module ArchiveRoundTrip {
  import opened Bytes
  import opened HeaderNumbers
  import opened HeaderNumberLaws
  import opened HeaderBlock
  import opened UstarNames
  import opened RecordWriter
  import opened ArchiveFormat
  import opened ArchiveReading

  /** A regular file or a link as the system gives it, with a name that does not end in a slash. */
  predicate SystemFile(m: Member) {
    && NulFree(m.name) && 0 < |m.name| < INTMAX_MAX && m.name[|m.name| - 1] != SLASH
    && NulFree(LinkTarget(m.link)) && |LinkTarget(m.link)| < INTMAX_MAX && (!m.link.NoLink? ==> m.data == [])
    && 0 <= m.mode <= 0xffff_ffff && 0 <= m.uid <= 0xffff_ffff && 0 <= m.gid <= 0xffff_ffff
    && INTMAX_MIN <= m.mtime <= INTMAX_MAX && |m.data| <= INTMAX_MAX
  }

  /** The link target that is stored: only the GNU formats have room for more than a hundred bytes. */
  function StoredTarget(fmt: Format, l: Link): seq<byte> {
    if IsGnu(fmt) then LinkTarget(l) else LinkField(l)
  }

  /** What the reader must deliver for a member. */
  function EntryOf(fmt: Format, m: Member): Entry {
    Entry(TypeOf(m.link), m.name, StoredTarget(fmt, m.link), m.mode % 0x1000, m.uid, m.gid, m.mtime, m.data)
  }

  lemma Pow2At56()
    ensures Pow2(56) > 0xffff_ffff
  {
    assert Pow2(8) == 256;
    assert Pow2(16) == 0x1_0000;
    assert Pow2(24) == 0x100_0000;
    assert Pow2(33) > 0xffff_ffff;
    Pow2Monotone(33, 56);
  }

  lemma GnuNumbers(x: int, y: int)
    requires 0 <= x <= 0xffff_ffff && INTMAX_MIN <= y <= INTMAX_MAX
    ensures FieldText(true, x, 8).Some? && FieldText(true, y, 12).Some?
  {
    hide Octal, Base256, Pow2;
    Pow2At56();
  }

  /** In the GNU formats every file is accepted, whatever its name, link target and numbers. */
  lemma GnuAccepts(fmt: Format, m: Member)
    requires IsGnu(fmt) && SystemFile(m)
    ensures Accepted(fmt, m)
  {
    hide FieldText, NulFree;
    GnuNumbers(StoredMode(fmt, m.mode), |m.data|);
    GnuNumbers(m.uid, m.mtime);
    GnuNumbers(m.gid, m.mtime);
  }

  /** The members that are not refused. */
  function AcceptedOf(fmt: Format, ms: seq<Member>): seq<Member> {
    if ms == [] then [] else (if Accepted(fmt, ms[0]) then [ms[0]] else []) + AcceptedOf(fmt, ms[1..])
  }

  /** Members that can be written and read back. */
  predicate Storable(fmt: Format, m: Member) {
    Accepted(fmt, m) && Measurable(m)
  }

  lemma ShortName(m: Member)
    requires SystemFile(m)
    ensures Measurable(m)
  {
  }

  lemma {:induction false} AllStorable(fmt: Format, ms: seq<Member>)
    requires forall k :: 0 <= k < |ms| ==> SystemFile(ms[k])
    ensures forall k :: 0 <= k < |AcceptedOf(fmt, ms)| ==> Storable(fmt, AcceptedOf(fmt, ms)[k])
    ensures forall k :: 0 <= k < |AcceptedOf(fmt, ms)| ==> SystemFile(AcceptedOf(fmt, ms)[k])
  {
    hide Accepted, SystemFile;
    if ms != [] {
      AllStorable(fmt, ms[1..]);
      ShortName(ms[0]);
    }
  }

  lemma AllAccepted(fmt: Format, ms: seq<Member>)
    requires forall k :: 0 <= k < |ms| ==> SystemFile(ms[k])
    ensures forall k :: 0 <= k < |AcceptedOf(fmt, ms)| ==> Accepted(fmt, AcceptedOf(fmt, ms)[k]) && Measurable(AcceptedOf(fmt, ms)[k])
    ensures forall k :: 0 <= k < |AcceptedOf(fmt, ms)| ==> SystemFile(AcceptedOf(fmt, ms)[k])
  {
    hide Accepted, SystemFile, AcceptedOf;
    AllStorable(fmt, ms);
  }

  lemma {:induction false} NoneRefused(fmt: Format, ms: seq<Member>)
    requires IsGnu(fmt) && forall k :: 0 <= k < |ms| ==> SystemFile(ms[k])
    ensures AcceptedOf(fmt, ms) == ms
  {
    hide Accepted, SystemFile;
    if ms != [] {
      GnuAccepts(fmt, ms[0]);
      NoneRefused(fmt, ms[1..]);
    }
  }

  lemma NumberOf(fmt: Format, x: int, size: nat, minval: int, maxval: int)
    requires size > 1 && INTMAX_MIN <= x <= UINTMAX_MAX && minval <= x <= maxval <= UINTMAX_MAX
    requires FieldText(IsGnu(fmt), x, size).Some?
    ensures |FieldText(IsGnu(fmt), x, size).value| == size
    ensures ParseField(FieldText(IsGnu(fmt), x, size).value, true, minval, maxval, false) == Some(x)
  {
    hide FieldText, ParseField;
    FieldTextSize(IsGnu(fmt), x, size);
    FieldRoundTrip(IsGnu(fmt), x, size, true, minval, maxval);
  }

  /** The member's own header is read as that member. */
  lemma MemberHeader(fmt: Format, m: Member)
    requires SystemFile(m) && Accepted(fmt, m)
    ensures var b := Header(fmt, m);
            && ChecksumStatus(b) == Success
            && HeaderSize(b) == Some(|m.data|)
            && b[156] == TypeOf(m.link)
  {
    hide Finished, HeaderBytes, FieldText, ParseField, HeaderByte, UnsignedSum, ChecksumStatus;
    var f := MemberFields(fmt, m);
    FinishedAccepted(HeaderBytes(f));
    FinishedFields(f);
    NumberOf(fmt, |m.data|, 12, 0, INTMAX_MAX);
  }

  lemma MemberNumbers(fmt: Format, m: Member)
    requires SystemFile(m) && Accepted(fmt, m)
    ensures Decode(Header(fmt, m), m.name, StoredTarget(fmt, m.link), m.data) == EntryOf(fmt, m)
  {
    hide Finished, HeaderBytes, FieldText, ParseField, HeaderByte, UnsignedSum;
    var f := MemberFields(fmt, m);
    FinishedFields(f);
    NumberOf(fmt, StoredMode(fmt, m.mode), 8, INTMAX_MIN, UINTMAX_MAX);
    NumberOf(fmt, m.uid, 8, 0, 0xffff_ffff);
    NumberOf(fmt, m.gid, 8, 0, 0xffff_ffff);
    NumberOf(fmt, m.mtime, 12, INTMAX_MIN, INTMAX_MAX);
  }

  /** Short and split names are read back from the member's own header. */
  lemma MemberName(fmt: Format, m: Member)
    requires SystemFile(m) && Accepted(fmt, m)
    ensures !NeedsLong(fmt, m.name) ==> HeaderName(Header(fmt, m)) == m.name
    ensures HeaderLink(Header(fmt, m)) == LinkField(m.link)
  {
    hide Finished, HeaderBytes, FieldText, HeaderName, HeaderLink, NulFree, NameField, PrefixField, LinkField;
    var f := MemberFields(fmt, m);
    FieldsNulFree(fmt, m);
    FinishedName(f);
    FinishedNames(f);
    if !NeedsLong(fmt, m.name) {
      NameParts(fmt, m.name);
    }
  }

  lemma FieldsNulFree(fmt: Format, m: Member)
    requires SystemFile(m) && Accepted(fmt, m)
    ensures NulFree(NameField(fmt, m.name)) && NulFree(PrefixField(fmt, m.name)) && NulFree(LinkField(m.link))
  {
    hide FieldText, LastSplit;
  }

  /** Name and prefix make up a name that needs no long-name record. */
  lemma NameParts(fmt: Format, name: seq<byte>)
    requires NameAccepted(fmt, name) && !NeedsLong(fmt, name)
    ensures var n, p := NameField(fmt, name), PrefixField(fmt, name);
            name == if p != [] && (if IsGnu(fmt) then OLDGNU_MAGIC else TMAGIC)[..6] == TMAGIC[..6] then p + [SLASH] + n else n
  {
    var i := LastSplit(name, PREFIX_FIELD_SIZE);
    if |name| > ShortNameMax(fmt) {
      assert name == name[..i] + [SLASH] + name[i + 1..];
    }
  }

  /** A long-name or long-link record of any length is read back exactly. */
  lemma LongRecord(fmt: Format, typeflag: byte, text: seq<byte>, rest: seq<byte>, longName: Option<seq<byte>>, longLink: Option<seq<byte>>)
    requires NulFree(text) && |text| < INTMAX_MAX && IsLong(typeflag)
    ensures NextHeader(LongBytes(fmt, typeflag, text) + rest, longName, longLink)
         == if typeflag == LONGNAME then NextHeader(rest, Some(text), longLink) else NextHeader(rest, longName, Some(text))
  {
    hide Finished, HeaderBytes, FieldText, ParseField, ChecksumStatus, CStr, Padded;
    var b := Finished(HeaderBytes(LongFields(fmt, typeflag, |text| + 1)));
    var data := Padded(text + [NUL]);
    var all := LongBytes(fmt, typeflag, text) + rest;
    assert all[..BLOCKSIZE] == b;
    assert all[BLOCKSIZE..BLOCKSIZE + |data|] == data;
    assert all[BLOCKSIZE + |data|..] == rest;
    LongHeader(fmt, typeflag, text);
    LongText(text);
  }

  lemma LongHeader(fmt: Format, typeflag: byte, text: seq<byte>)
    requires |text| < INTMAX_MAX
    ensures var b := Finished(HeaderBytes(LongFields(fmt, typeflag, |text| + 1)));
            ChecksumStatus(b) == Success && HeaderSize(b) == Some(|text| + 1) && b[156] == typeflag
  {
    hide Finished, HeaderBytes, FieldText, ParseField, ChecksumStatus;
    var f := LongFields(fmt, typeflag, |text| + 1);
    FinishedAccepted(HeaderBytes(f));
    FinishedFields(f);
    LongSizeFits(|text| + 1);
    NumberOf(Gnu, |text| + 1, 12, 0, INTMAX_MAX);
  }

  lemma LongText(name: seq<byte>)
    requires NulFree(name)
    ensures CStr(Padded(name + [NUL])) == name
  {
    CStrIs(Padded(name + [NUL]), name);
  }

  lemma OwnHeader(fmt: Format, m: Member, rest: seq<byte>, longName: Option<seq<byte>>, longLink: Option<seq<byte>>)
    requires SystemFile(m) && Accepted(fmt, m)
    requires if longName.Some? then longName.value == m.name else !NeedsLong(fmt, m.name)
    requires if longLink.Some? then longLink.value == StoredTarget(fmt, m.link) else !NeedsLong(fmt, LinkTarget(m.link))
    ensures NextHeader(Header(fmt, m) + rest, longName, longLink)
         == HeaderRead(Success, Header(fmt, m), m.name, StoredTarget(fmt, m.link), |m.data|, rest)
  {
    hide Finished, HeaderBytes, FieldText, ParseField, ChecksumStatus, HeaderName, HeaderLink, HeaderSize, MemberFields;
    var b := Header(fmt, m);
    assert (b + rest)[..BLOCKSIZE] == b && (b + rest)[BLOCKSIZE..] == rest;
    MemberHeader(fmt, m);
    MemberName(fmt, m);
  }

  /** The long name and the long link that the records of a member give. */
  function LongName(fmt: Format, m: Member): Option<seq<byte>> {
    if NeedsLong(fmt, m.name) then Some(m.name) else None
  }

  function LongLink(fmt: Format, m: Member): Option<seq<byte>> {
    if NeedsLong(fmt, LinkTarget(m.link)) then Some(LinkTarget(m.link)) else None
  }

  lemma NameRecord(fmt: Format, m: Member, rest: seq<byte>, longLink: Option<seq<byte>>)
    requires SystemFile(m)
    ensures NextHeader(NamePart(fmt, m) + rest, None, longLink) == NextHeader(rest, LongName(fmt, m), longLink)
  {
    hide NextHeader, LongBytes, NulFree;
    if NeedsLong(fmt, m.name) {
      LongRecord(fmt, LONGNAME, m.name, rest, None, longLink);
    } else {
      assert NamePart(fmt, m) + rest == rest;
    }
  }

  lemma LinkRecord(fmt: Format, m: Member, rest: seq<byte>, longName: Option<seq<byte>>)
    requires SystemFile(m)
    ensures NextHeader(LinkPart(fmt, m) + rest, longName, None) == NextHeader(rest, longName, LongLink(fmt, m))
  {
    hide NextHeader, LongBytes, NulFree;
    if NeedsLong(fmt, LinkTarget(m.link)) {
      LongRecord(fmt, LONGLINK, LinkTarget(m.link), rest, longName, None);
    } else {
      assert LinkPart(fmt, m) + rest == rest;
    }
  }

  /** Reading at a member's first block gives its name, its link target, its size and the bytes that follow
      its header. */
  lemma MemberReads(fmt: Format, m: Member, rest: seq<byte>)
    requires SystemFile(m) && Accepted(fmt, m)
    ensures NextHeader(MemberBytes(fmt, m) + rest, None, None)
         == HeaderRead(Success, Header(fmt, m), m.name, StoredTarget(fmt, m.link), |m.data|, Padded(m.data) + rest)
  {
    hide NextHeader, Padded, LinkPart, NamePart, Header, Accepted, NulFree, LinkField;
    var b, data := Header(fmt, m), Padded(m.data);
    FourParts(LinkPart(fmt, m), NamePart(fmt, m), b, data, rest);
    LinkRecord(fmt, m, NamePart(fmt, m) + (b + (data + rest)), None);
    NameRecord(fmt, m, b + (data + rest), LongLink(fmt, m));
    OwnHeader(fmt, m, data + rest, LongName(fmt, m), LongLink(fmt, m));
  }

  lemma FourParts(a: seq<byte>, b: seq<byte>, c: seq<byte>, d: seq<byte>, rest: seq<byte>)
    ensures a + b + c + d + rest == a + (b + (c + (d + rest)))
  {
  }

  lemma ReadOne(fmt: Format, m: Member, rest: seq<byte>)
    requires SystemFile(m) && Accepted(fmt, m)
    ensures ReadAll(MemberBytes(fmt, m) + rest)
         == Listing([EntryOf(fmt, m)] + ReadAll(rest).entries, ReadAll(rest).stop)
  {
    hide Header, NextHeader, MemberBytes, Decode, Padded, Accepted, BlocksFor, NulFree, EntryOf, StoredTarget;
    MemberReads(fmt, m, rest);
    MemberHeader(fmt, m);
    MemberNumbers(fmt, m);
    DataAndRest(m.data, rest);
  }

  lemma DataAndRest(data: seq<byte>, rest: seq<byte>)
    ensures var n := BLOCKSIZE * BlocksFor(|data|);
            n <= |Padded(data) + rest| && (Padded(data) + rest)[n..] == rest && |data| <= n && (Padded(data) + rest)[..|data|] == data
  {
    hide BlocksFor;
  }

  lemma ZeroEnd(n: nat)
    requires 2 * BLOCKSIZE <= n
    ensures ReadAll(Zeros(n)) == Listing([], TwoZeroBlocks)
  {
    hide NextHeader, Decode;
    ZeroHeader(n);
    assert Zeros(n)[BLOCKSIZE..] == Zeros(n - BLOCKSIZE);
    ZeroHeader(n - BLOCKSIZE);
  }

  lemma ZeroHeader(n: nat)
    requires BLOCKSIZE <= n
    ensures NextHeader(Zeros(n), None, None).status == ZeroBlock
    ensures NextHeader(Zeros(n), None, None).rest == Zeros(n)
  {
    hide Sum;
    assert Zeros(n)[..BLOCKSIZE] == Zeros(BLOCKSIZE);
    SumOfZeros(BLOCKSIZE);
  }

  lemma {:induction false} SumOfZeros(j: nat)
    requires j <= BLOCKSIZE
    ensures Sum(Zeros(BLOCKSIZE), 0, j) == 0
  {
    if j > 0 {
      SumOfZeros(j - 1);
    }
  }

  /** Every list of accepted files and links, with any data whatever, is read back in order with names, link
      targets, numbers and data, and reading stops at the two zero blocks. */
  lemma {:induction false} RoundTrip(fmt: Format, ms: seq<Member>, n: nat)
    requires forall k :: 0 <= k < |ms| ==> Accepted(fmt, ms[k]) && Measurable(ms[k])
    requires forall k :: 0 <= k < |ms| ==> SystemFile(ms[k])
    requires 2 * BLOCKSIZE <= n
    ensures ReadAll(MembersBytes(fmt, ms) + Zeros(n)) == Listing(Entries(fmt, ms), TwoZeroBlocks)
  {
    hide ReadAll, MemberBytes, Accepted;
    if ms == [] {
      assert MembersBytes(fmt, ms) + Zeros(n) == Zeros(n);
      ZeroEnd(n);
    } else {
      var rest := MembersBytes(fmt, ms[1..]) + Zeros(n);
      assert MembersBytes(fmt, ms) + Zeros(n) == MemberBytes(fmt, ms[0]) + rest;
      ReadOne(fmt, ms[0], rest);
      RoundTrip(fmt, ms[1..], n);
    }
  }

  function Entries(fmt: Format, ms: seq<Member>): seq<Entry> {
    if ms == [] then [] else [EntryOf(fmt, ms[0])] + Entries(fmt, ms[1..])
  }

  /** A link keeps its target exactly if the format is GNU's or the target has at most a hundred bytes.  In
      the other case the source reports that the link is not dumped, and dumps it with a part of the target. */
  lemma TargetKept(fmt: Format, m: Member)
    requires SystemFile(m) && Accepted(fmt, m)
    ensures EntryOf(fmt, m).link == LinkTarget(m.link) <==> fmt != Ustar || |LinkTarget(m.link)| <= 100
    ensures fmt == Ustar && |LinkTarget(m.link)| > 100 ==> EntryOf(fmt, m).link == LinkTarget(m.link)[..100]
  {
  }
}

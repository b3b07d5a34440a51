/** Members as blocks: how src/create.c lays a regular file or a link out and what src/list.c reads from it. */
module ArchiveFormat {
  import opened Bytes
  import opened HeaderNumbers
  import opened HeaderBlock
  import opened UstarNames
  import opened RecordWriter

  datatype Format = Ustar | Gnu | OldGnu

  const REGTYPE: byte := 48
  const LNKTYPE: byte := 49
  const SYMTYPE: byte := 50
  const LONGNAME: byte := 76
  const LONGLINK: byte := 75

  const TMAGIC: seq<byte> := [117, 115, 116, 97, 114, 0, 48, 48]
  const OLDGNU_MAGIC: seq<byte> := [117, 115, 116, 97, 114, 32, 32, 0]
  const LONG_LINK_NAME: seq<byte> := [46, 47, 46, 47, 64, 76, 111, 110, 103, 76, 105, 110, 107]

  /** What a member is a link to, if it is one. */
  datatype Link = NoLink | Hard(target: seq<byte>) | Symbolic(target: seq<byte>)

  /** A regular file or a link to be archived. */
  datatype Member = Member(name: seq<byte>, link: Link, mode: int, uid: int, gid: int, mtime: int, data: seq<byte>)

  /** The texts of the header fields that are not left zero. */
  datatype Fields = Fields(name: seq<byte>, mode: seq<byte>, uid: seq<byte>, gid: seq<byte>,
                           size: seq<byte>, mtime: seq<byte>, typeflag: byte, magic: seq<byte>, prefix: seq<byte>,
                           linkname: seq<byte>)

  predicate FieldSizes(f: Fields) {
    && |f.name| <= 100 && |f.mode| == 8 && |f.uid| == 8 && |f.gid| == 8 && |f.size| == 12
    && |f.mtime| == 12 && |f.magic| == 8 && |f.prefix| <= 155 && |f.linkname| <= 100
  }

  /** Byte i of a header block before its checksum is stored. */
  function HeaderByte(f: Fields, i: nat): byte
    requires FieldSizes(f)
  {
    if i < 100 then At(f.name, i)
    else if i < 108 then f.mode[i - 100]
    else if i < 116 then f.uid[i - 108]
    else if i < 124 then f.gid[i - 116]
    else if i < 136 then f.size[i - 124]
    else if i < 148 then f.mtime[i - 136]
    else if i < 156 then NUL
    else if i == 156 then f.typeflag
    else if i < 257 then At(f.linkname, i - 157)
    else if i < 265 then f.magic[i - 257]
    else if i < 345 then NUL
    else if i < 500 then At(f.prefix, i - 345)
    else NUL
  }

  function HeaderBytes(f: Fields): (b: Block)
    requires FieldSizes(f)
    ensures forall i :: 0 <= i < BLOCKSIZE ==> b[i] == HeaderByte(f, i)
  {
    seq(BLOCKSIZE, i requires 0 <= i < BLOCKSIZE => HeaderByte(f, i))
  }

  // ----- what the writer makes of a member

  predicate IsGnu(fmt: Format) {
    fmt != Ustar
  }

  /** Names longer than this need a prefix or a long-name record. */
  function ShortNameMax(fmt: Format): nat {
    if fmt == OldGnu then 99 else 100
  }

  /** mode_to_chars: only the old GNU format stores more than the twelve permission bits. */
  function StoredMode(fmt: Format, mode: int): int {
    if fmt == OldGnu then mode else mode % 0x1000
  }

  /** The mode of a long-name record: rw-r--r--, with the type bits of a regular file in the old format. */
  function LongMode(fmt: Format): nat {
    StoredMode(fmt, 0x81a4)
  }

  function LinkTarget(l: Link): seq<byte> {
    if l.NoLink? then [] else l.target
  }

  function TypeOf(l: Link): byte {
    match l
    case NoLink => REGTYPE
    case Hard(_) => LNKTYPE
    case Symbolic(_) => SYMTYPE
  }

  /** The link name field: as much of the target as it holds. */
  function LinkField(l: Link): (r: seq<byte>)
    ensures |r| <= 100
  {
    LinkTarget(l)[..Min(|LinkTarget(l)|, 100)]
  }

  /** The name and the target have a size. */
  predicate Measurable(m: Member) {
    |m.name| < INTMAX_MAX && |LinkTarget(m.link)| < INTMAX_MAX
  }

  /** Whether the name can be stored at all. */
  predicate NameAccepted(fmt: Format, name: seq<byte>) {
    |name| <= ShortNameMax(fmt) || IsGnu(fmt) || 0 < LastSplit(name, PREFIX_FIELD_SIZE)
  }

  /** Whether start_header accepts the member: its name and all its numbers can be stored. */
  predicate Accepted(fmt: Format, m: Member) {
    && NameAccepted(fmt, m.name)
    && FieldText(IsGnu(fmt), StoredMode(fmt, m.mode), 8).Some?
    && FieldText(IsGnu(fmt), m.uid, 8).Some?
    && FieldText(IsGnu(fmt), m.gid, 8).Some?
    && FieldText(IsGnu(fmt), |m.data|, 12).Some?
    && FieldText(IsGnu(fmt), m.mtime, 12).Some?
  }

  /** The name and prefix fields of the member's own header. */
  function NameField(fmt: Format, name: seq<byte>): (r: seq<byte>)
    requires NameAccepted(fmt, name)
    ensures |r| <= 100
  {
    if |name| <= ShortNameMax(fmt) then name
    else if IsGnu(fmt) then name[..ShortNameMax(fmt)]
    else name[LastSplit(name, PREFIX_FIELD_SIZE) + 1..]
  }

  function PrefixField(fmt: Format, name: seq<byte>): (r: seq<byte>)
    ensures |r| <= 155
  {
    if |name| <= ShortNameMax(fmt) || IsGnu(fmt) then []
    else name[..LastSplit(name, PREFIX_FIELD_SIZE)]
  }

  lemma {:induction false} FieldTextSize(gnu: bool, x: int, size: nat)
    requires size > 1 && FieldText(gnu, x, size).Some?
    ensures |FieldText(gnu, x, size).value| == size
  {
    hide MaxVal, Octal, Base256;
  }

  function MemberFields(fmt: Format, m: Member): (f: Fields)
    requires Accepted(fmt, m)
    ensures FieldSizes(f)
  {
    FieldTextSize(IsGnu(fmt), StoredMode(fmt, m.mode), 8);
    FieldTextSize(IsGnu(fmt), m.uid, 8);
    FieldTextSize(IsGnu(fmt), m.gid, 8);
    FieldTextSize(IsGnu(fmt), |m.data|, 12);
    FieldTextSize(IsGnu(fmt), m.mtime, 12);
    Fields(NameField(fmt, m.name),
           FieldText(IsGnu(fmt), StoredMode(fmt, m.mode), 8).value, FieldText(IsGnu(fmt), m.uid, 8).value,
           FieldText(IsGnu(fmt), m.gid, 8).value, FieldText(IsGnu(fmt), |m.data|, 12).value,
           FieldText(IsGnu(fmt), m.mtime, 12).value,
           TypeOf(m.link), if IsGnu(fmt) then OLDGNU_MAGIC else TMAGIC, PrefixField(fmt, m.name), LinkField(m.link))
  }

  /** The header of a long-name or long-link record that holds size bytes. */
  function LongFields(fmt: Format, typeflag: byte, size: nat): (f: Fields)
    requires size <= INTMAX_MAX
    ensures FieldSizes(f)
  {
    LongSizeFits(size);
    FieldTextSize(true, size, 12);
    Fields(LONG_LINK_NAME, Octal(LongMode(fmt), 7) + [NUL], Octal(0, 7) + [NUL], Octal(0, 7) + [NUL],
           FieldText(true, size, 12).value, Octal(0, 11) + [NUL], typeflag, OLDGNU_MAGIC, [], [])
  }

  lemma LongSizeFits(size: nat)
    requires size <= INTMAX_MAX
    ensures FieldText(true, size, 12).Some?
  {
    hide Octal, Base256;
  }

  /** Names and targets that get a record of their own. */
  predicate NeedsLong(fmt: Format, text: seq<byte>) {
    IsGnu(fmt) && |text| > ShortNameMax(fmt)
  }

  function LongBytes(fmt: Format, typeflag: byte, text: seq<byte>): seq<byte>
    requires |text| < INTMAX_MAX
  {
    Finished(HeaderBytes(LongFields(fmt, typeflag, |text| + 1))) + Padded(text + [NUL])
  }

  /** The long-link and the long-name record of a member, if it needs them. */
  function LinkPart(fmt: Format, m: Member): seq<byte>
    requires Measurable(m)
  {
    if NeedsLong(fmt, LinkTarget(m.link)) then LongBytes(fmt, LONGLINK, LinkTarget(m.link)) else []
  }

  function NamePart(fmt: Format, m: Member): seq<byte>
    requires Measurable(m)
  {
    if NeedsLong(fmt, m.name) then LongBytes(fmt, LONGNAME, m.name) else []
  }

  /** The member's own header. */
  function Header(fmt: Format, m: Member): Block
    requires Accepted(fmt, m)
  {
    Finished(HeaderBytes(MemberFields(fmt, m)))
  }

  /** The blocks of a member: the long records it needs, the header, the padded data. */
  function MemberBytes(fmt: Format, m: Member): seq<byte>
    requires Accepted(fmt, m) && Measurable(m)
  {
    LinkPart(fmt, m) + NamePart(fmt, m) + Header(fmt, m) + Padded(m.data)
  }

  function MembersBytes(fmt: Format, ms: seq<Member>): seq<byte>
    requires forall k :: 0 <= k < |ms| ==> Accepted(fmt, ms[k]) && Measurable(ms[k])
  {
    if ms == [] then [] else MemberBytes(fmt, ms[0]) + MembersBytes(fmt, ms[1..])
  }
}

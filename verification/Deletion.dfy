/** What deleting members must leave of an archive: src/delete.c, on the bytes from some block on. */
module Deletion {
  import opened Bytes
  import opened HeaderBlock
  import opened ArchiveFormat
  import opened ArchiveReading

  /** What read_header finds, with the blocks of the last long-name and long-link records before it.
      rest starts at the block that ended the search. */
  datatype Next = Next(status: Status, longName: seq<byte>, longLink: seq<byte>, name: seq<byte>, size: nat, rest: seq<byte>)

  function NameOf(longName: seq<byte>, b: Block): seq<byte> {
    if |longName| < BLOCKSIZE then HeaderName(b) else CStr(longName[BLOCKSIZE..])
  }

  /** A header block by itself: its status, with a bad size as failure. */
  function HeaderStatus(b: Block): (status: Status)
    ensures status == Success ==> HeaderSize(b).Some? && 0 <= HeaderSize(b).value
    ensures status == Success || status == ZeroBlock || status == Failure
  {
    if ChecksumStatus(b) == Success && (HeaderSize(b).None? || HeaderSize(b).value < 0) then Failure
    else ChecksumStatus(b)
  }

  /** The bytes of a header and its data blocks. */
  function Span(size: nat): nat {
    BLOCKSIZE + BLOCKSIZE * BlocksFor(size)
  }

  function NextMember(rest: seq<byte>, longName: seq<byte>, longLink: seq<byte>): (n: Next)
    ensures |n.longName| + |n.longLink| + |n.rest| <= |longName| + |longLink| + |rest| && |n.rest| <= |rest|
    ensures n.status == EndOfFile || BLOCKSIZE <= |n.rest|
    ensures n.status != StillUnread
    decreases |rest|
  {
    if |rest| < BLOCKSIZE then Next(EndOfFile, [], [], [], 0, rest)
    else
      var b: Block := rest[..BLOCKSIZE];
      if HeaderStatus(b) != Success then Next(HeaderStatus(b), [], [], [], 0, rest)
      else
        var size := HeaderSize(b).value;
        if IsLong(b[156]) then
          if |rest| < Span(size) then Next(EndOfFile, [], [], [], 0, rest)
          else if b[156] == LONGNAME then NextMember(rest[Span(size)..], rest[..Span(size)], longLink)
          else NextMember(rest[Span(size)..], longName, rest[..Span(size)])
        else if IsPax(b[156]) then Next(SuccessExtended, [], [], [], 0, rest)
        else Next(Success, longName, longLink, NameOf(longName, b), if HasNoData(b[156]) then 0 else size, rest)
  }

  /** The blocks of long records are whole blocks. */
  lemma {:induction false} LongBlocks(rest: seq<byte>, longName: seq<byte>, longLink: seq<byte>)
    requires |longName| % BLOCKSIZE == 0 && |longLink| % BLOCKSIZE == 0
    ensures var n := NextMember(rest, longName, longLink); |n.longName| % BLOCKSIZE == 0 && |n.longLink| % BLOCKSIZE == 0
    decreases |rest|
  {
    hide HeaderStatus, HeaderSize, NameOf;
    if |rest| >= BLOCKSIZE {
      var b: Block := rest[..BLOCKSIZE];
      if HeaderStatus(b) == Success {
        var size := HeaderSize(b).value;
        if IsLong(b[156]) && Span(size) <= |rest| {
          if b[156] == LONGNAME {
            LongBlocks(rest[Span(size)..], rest[..Span(size)], longLink);
          } else {
            LongBlocks(rest[Span(size)..], longName, rest[..Span(size)]);
          }
        }
      }
    }
  }

  /** Reading and deleting find the same headers. */
  lemma {:induction false} SameHeader(rest: seq<byte>, longName: seq<byte>, longLink: seq<byte>)
    ensures Agree(NextMember(rest, longName, longLink), NextHeader(rest, TextOf(longName), TextOf(longLink)))
    decreases |rest|
  {
    hide HeaderStatus, HeaderSize, HeaderName, HeaderLink, TextOf, NextMember, NextHeader, Agree, Span;
    if LongAt(rest) {
      var n := Span(HeaderSize(rest[..BLOCKSIZE]).value);
      SameStep(rest, longName, longLink);
      SameHeaderStep(rest, longName, longLink);
      if rest[156] == LONGNAME {
        SameHeader(rest[n..], rest[..n], longLink);
      } else {
        SameHeader(rest[n..], longName, rest[..n]);
      }
    } else {
      SameFound(rest, longName, longLink);
    }
  }

  function TextOf(longName: seq<byte>): Option<seq<byte>> {
    if |longName| < BLOCKSIZE then None else Some(CStr(longName[BLOCKSIZE..]))
  }

  predicate Agree(n: Next, h: HeaderRead) {
    && n.status == h.status
    && if n.status == Success then n.name == h.name && n.size == h.size && n.rest == h.header + h.rest
                                   && h.link == LinkOf(n.longLink, h.header)
       else n.rest == h.rest
  }

  function LinkOf(longLink: seq<byte>, b: Block): seq<byte> {
    if |longLink| < BLOCKSIZE then HeaderLink(b) else CStr(longLink[BLOCKSIZE..])
  }

  /** A whole long-name or long-link record comes next. */
  predicate LongAt(rest: seq<byte>) {
    && BLOCKSIZE <= |rest| && HeaderStatus(rest[..BLOCKSIZE]) == Success && IsLong(rest[156])
    && Span(HeaderSize(rest[..BLOCKSIZE]).value) <= |rest|
  }

  lemma SameStep(rest: seq<byte>, longName: seq<byte>, longLink: seq<byte>)
    requires LongAt(rest)
    ensures var n := Span(HeaderSize(rest[..BLOCKSIZE]).value);
            && BLOCKSIZE <= n <= |rest|
            && NextMember(rest, longName, longLink)
                 == (if rest[156] == LONGNAME then NextMember(rest[n..], rest[..n], longLink) else NextMember(rest[n..], longName, rest[..n]))
  {
    hide HeaderStatus, HeaderSize, NameOf, BlocksFor;
  }

  lemma SameHeaderStep(rest: seq<byte>, longName: seq<byte>, longLink: seq<byte>)
    requires LongAt(rest)
    ensures var n := Span(HeaderSize(rest[..BLOCKSIZE]).value);
            && BLOCKSIZE <= n <= |rest|
            && NextHeader(rest, TextOf(longName), TextOf(longLink))
                 == if rest[156] == LONGNAME then NextHeader(rest[n..], TextOf(rest[..n]), TextOf(longLink))
                    else NextHeader(rest[n..], TextOf(longName), TextOf(rest[..n]))
  {
    hide NextHeader, HeaderSize, CStr, HeaderStatus, Span;
    var n := Span(HeaderSize(rest[..BLOCKSIZE]).value);
    HeaderStep(rest, TextOf(longName), TextOf(longLink));
    assert rest[..n][BLOCKSIZE..] == rest[BLOCKSIZE..n];
  }

  lemma HeaderStep(rest: seq<byte>, name: Option<seq<byte>>, link: Option<seq<byte>>)
    requires LongAt(rest)
    ensures var n := Span(HeaderSize(rest[..BLOCKSIZE]).value);
            && BLOCKSIZE <= n <= |rest|
            && NextHeader(rest, name, link)
                 == if rest[156] == LONGNAME then NextHeader(rest[n..], Some(CStr(rest[BLOCKSIZE..n])), link)
                    else NextHeader(rest[n..], name, Some(CStr(rest[BLOCKSIZE..n])))
  {
    hide ChecksumStatus, HeaderSize, HeaderName, HeaderLink, CStr, BlocksFor;
    var b: Block := rest[..BLOCKSIZE];
    assert b[156] == rest[156];
    assert ChecksumStatus(b) == Success && HeaderSize(b).Some? && HeaderSize(b).value >= 0;
  }

  lemma SameFound(rest: seq<byte>, longName: seq<byte>, longLink: seq<byte>)
    requires !LongAt(rest)
    ensures Agree(NextMember(rest, longName, longLink), NextHeader(rest, TextOf(longName), TextOf(longLink)))
  {
    hide ChecksumStatus, HeaderSize, HeaderName, HeaderLink, CStr, BlocksFor;
    if BLOCKSIZE <= |rest| {
      assert rest == rest[..BLOCKSIZE] + rest[BLOCKSIZE..];
    }
  }

  /** How copying the rest of an archive comes to an end: at a zero block; where the file ends before a
      header or inside a doomed member; where it ends inside or right after a long-name or long-link
      record; inside a member that is to be kept; at an extended header. */
  datatype Ending = ZeroEnd | FileEnd | LongEnd | KeptEnd | PaxEnd

  function EndingOf(rest: seq<byte>, doomed: seq<byte> -> bool): Ending
    decreases |rest|
  {
    var n := NextMember(rest, [], []);
    match n.status
    case Success =>
      if Span(n.size) <= |n.rest| then EndingOf(n.rest[Span(n.size)..], doomed)
      else if doomed(n.name) then FileEnd else KeptEnd
    case Failure => EndingOf(n.rest[BLOCKSIZE..], doomed)
    case EndOfFile => if |rest| < BLOCKSIZE then FileEnd else LongEnd
    case SuccessExtended => PaxEnd
    case _ => ZeroEnd
  }

  /** The blocks to keep: of every member whose name is not to be deleted the long-name record, the
      long-link record, the header and the data.  A block that is not a header is dropped. */
  function Kept(rest: seq<byte>, doomed: seq<byte> -> bool): seq<byte>
    decreases |rest|
  {
    var n := NextMember(rest, [], []);
    match n.status
    case Success =>
      if |n.rest| < Span(n.size) then []
      else
        var tail := Kept(n.rest[Span(n.size)..], doomed);
        if doomed(n.name) then tail else n.longName + n.longLink + n.rest[..Span(n.size)] + tail
    case Failure => Kept(n.rest[BLOCKSIZE..], doomed)
    case _ => []
  }

  /** How much data the first pass skips after a header. */
  function SkippedSize(b: Block): nat
    requires HeaderStatus(b) == Success
  {
    if HasNoData(b[156]) || IsDirectory(b[156], HeaderName(b)) then 0 else HeaderSize(b).value
  }

  /** Where the first pass stops: at the first member to be deleted, or before it at a long-name,
      long-link or extended header; or at the end of the archive. */
  datatype First = First(status: Status, rest: seq<byte>)

  function FirstDoomed(rest: seq<byte>, doomed: seq<byte> -> bool): (f: First)
    ensures |f.rest| <= |rest| && (f.status == Success || f.status == SuccessExtended || f.status == EndOfFile || f.status == Failure)
    ensures f.status == Success || f.status == SuccessExtended ==> BLOCKSIZE <= |f.rest|
    ensures f.status == Failure ==> BLOCKSIZE <= |f.rest| && HeaderStatus(f.rest[..BLOCKSIZE]) == Success
    decreases |rest|
  {
    if |rest| < BLOCKSIZE then First(EndOfFile, rest)
    else
      var b: Block := rest[..BLOCKSIZE];
      match HeaderStatus(b)
      case Success =>
        if IsLong(b[156]) || IsPax(b[156]) then First(SuccessExtended, rest)
        else if doomed(HeaderName(b)) then First(Success, rest)
        else if |rest| < Span(SkippedSize(b)) then First(Failure, rest)   // the archive is cut off
        else FirstDoomed(rest[Span(SkippedSize(b))..], doomed)
      case Failure => FirstDoomed(rest[BLOCKSIZE..], doomed)
      case _ => First(EndOfFile, rest)
  }

  /** An archive that consists of the given bytes and then zeros, at least two blocks of them, as far as
      the end of the first record that has room for these. */
  predicate ClosedBy(file: seq<byte>, bytes: seq<byte>, recordSize: nat)
    requires recordSize > 0
  {
    && bytes <= file && 2 * BLOCKSIZE <= |file| - |bytes| < 2 * BLOCKSIZE + recordSize
    && |file| % recordSize == 0
    && forall k :: |bytes| <= k < |file| ==> file[k] == NUL
  }
}

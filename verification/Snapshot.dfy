/** The snapshot file of incremental dumps, format 2: its reader in src/incremen.c. */
module Snapshot {
  import opened Bytes
  import opened DecimalText

  const NUMBER_MAX: nat := 20         // characters that the buffer of read_num takes

  /** The range of a system integer type. */
  datatype Range = Range(min: int, max: int)

  predicate ValidRange(r: Range) {
    TypeRange(r.min, r.max)
  }

  /** The types of times, devices and inodes. */
  datatype Types = Types(time: Range, dev: Range, ino: Range)

  predicate ValidTypes(t: Types) {
    ValidRange(t.time) && t.time.min < 0 && ValidRange(t.dev) && ValidRange(t.ino)
  }

  // ----- what the bytes mean

  datatype Number = Eof | Fatal | Number(value: int, next: nat)

  /** Where a minus sign and digits end. */
  function NumberEnd(data: seq<byte>, p: nat): (e: nat)
    requires p <= |data|
    ensures p <= e <= |data|
  {
    if p < |data| && data[p] == MINUS then DigitsEnd(data, p + 1) else DigitsEnd(data, p)
  }

  function ParseNumber(data: seq<byte>, p: nat, r: Range): (n: Number)
    requires p <= |data|
    ensures n.Number? ==> p < n.next <= |data|
  {
    var e := NumberEnd(data, p);
    if e - p > NUMBER_MAX then Fatal
    else if e == |data| then if p == e then Eof else Fatal
    else if data[e] != NUL then Fatal
    else
      var v := ParseInt(data[p..e], r.min, r.max);
      if v.lim == 0 || v.overflow then Fatal else Number(v.value, e + 1)
  }

  /** The index after the listing at p: strings to the first one of at most one byte. */
  function ListingEnd(data: seq<byte>, p: nat): (q: nat)
    requires p <= |data|
    ensures p <= q <= |data|
    decreases |data| - p
  {
    var e := NulEnd(data, p);
    if e == |data| then |data| else if e - p > 1 then ListingEnd(data, e + 1) else e + 1
  }

  // ----- the byte stream

  class Stream {
    const data: seq<byte>
    var pos: nat

    constructor (data: seq<byte>)
      ensures this.data == data && pos == 0
    {
      this.data, pos := data, 0;
    }

    /** getc; -1 stands for EOF. */
    method Getc() returns (c: int)
      requires pos <= |data|
      modifies this
      ensures c == CharAt(data, old(pos)) && pos == Min(old(pos) + 1, |data|)
    {
      if pos < |data| {
        c := data[pos];
        pos := pos + 1;
      } else {
        c := -1;
      }
    }
  }

  function CharAt(data: seq<byte>, i: nat): int {
    if i < |data| then data[i] else -1
  }

  /** How far read_num has come: i characters are in the buffer, and the next one has been read. */
  ghost predicate Buffered(data: seq<byte>, p: nat, i: nat, buf: seq<byte>, negative: bool) {
    && p + i <= |data| && i <= |buf| && buf[..i] == data[p..p + i]
    && negative == (CharAt(data, p) == MINUS)
    && (i > 0 && negative ==> DigitsAt(data, p + 1, p + i))
    && (!negative ==> DigitsAt(data, p, p + i))
  }

  lemma BufferedMore(data: seq<byte>, p: nat, i: nat, buf: seq<byte>, buf': seq<byte>, negative: bool)
    requires Buffered(data, p, i, buf, negative) && i < |buf| == |buf'| && buf'[..i] == buf[..i]
    requires p + i < |data| && buf'[i] == data[p + i] && ((i == 0 && negative) || IsDigit(data[p + i]))
    ensures Buffered(data, p, i + 1, buf', negative)
  {
    assert buf'[..i + 1] == buf'[..i] + [buf'[i]];
    assert data[p..p + i + 1] == data[p..p + i] + [data[p + i]];
  }

  lemma BufferedEnd(data: seq<byte>, p: nat, i: nat, buf: seq<byte>, negative: bool)
    requires Buffered(data, p, i, buf, negative) && !(i == 0 && negative) && !IsDigit(CharAt(data, p + i))
    ensures NumberEnd(data, p) == p + i
  {
    DigitsEndUnique(data, if negative then p + 1 else p, p + i);
  }

  /** More characters than the buffer takes. */
  lemma BufferedTooMany(data: seq<byte>, p: nat, i: nat, buf: seq<byte>, negative: bool)
    requires Buffered(data, p, i, buf, negative) && (i > 0 || !negative)
    ensures p + i <= NumberEnd(data, p)
  {
    DigitsReach(data, if negative then p + 1 else p, p + i);
  }

  lemma {:induction false} DigitsReach(s: seq<byte>, i: nat, j: nat)
    requires DigitsAt(s, i, j)
    ensures j <= DigitsEnd(s, i)
    decreases j - i
  {
    if i < j {
      DigitsReach(s, i + 1, j);
    }
  }

  /** The value as an intmax_t, and back. */
  function Stored(v: int, r: Range): int {
    if r.min < 0 then v else RepresentUintmax(v)
  }

  /** read_num: the number before the next NUL, or the end of the file; anything else is fatal. */
  method ReadNum(fp: Stream, r: Range) returns (result: Number)
    requires fp.pos <= |fp.data| && ValidRange(r)
    modifies fp
    ensures fp.pos <= |fp.data|
    ensures var n := ParseNumber(fp.data, old(fp.pos), r);
            if n.Number? then result == Number(Stored(n.value, r), n.next) && fp.pos == n.next else result == n
  {
    hide NumberEnd, DigitsAt, DigitsEnd, ParseInt, Buffered, IsDigit;
    ghost var data, p := fp.data, fp.pos;
    var buf := new byte[NUMBER_MAX + 1];
    var c := fp.Getc();
    var negative := c == MINUS;
    var i := 0;
    NothingBuffered(data, p, buf[..], negative);
    while (i == 0 && negative) || IsDigit(c)
      invariant 0 <= i <= NUMBER_MAX && buf.Length == NUMBER_MAX + 1 && p + i <= |data|
      invariant Buffered(data, p, i, buf[..], negative)
      invariant c == CharAt(data, p + i) && fp.pos == Min(p + i + 1, |data|)
      decreases NUMBER_MAX - i
    {
      InToken(data, p + i, c);
      ghost var before := buf[..];
      buf[i] := c;
      assert buf[..][..i] == before[..i];
      BufferedMore(data, p, i, before, buf[..], negative);
      if i == NUMBER_MAX {
        BufferedTooMany(data, p, i + 1, buf[..], negative);
        return Fatal;
      }
      c := fp.Getc();
      i := i + 1;
    }
    BufferedEnd(data, p, i, buf[..], negative);
    if c < 0 {
      return if i != 0 then Fatal else Eof;
    }
    if c != NUL {
      return Fatal;
    }
    TokenIs(data, p, i, buf[..], negative);
    var value, lim, overflow := Stoint(buf[..i], r.min, r.max);
    if lim == 0 || overflow {
      return Fatal;
    }
    result := Number(value, fp.pos);
  }

  lemma NothingBuffered(data: seq<byte>, p: nat, buf: seq<byte>, negative: bool)
    requires p <= |data| && negative == (CharAt(data, p) == MINUS)
    ensures Buffered(data, p, 0, buf, negative)
  {
  }

  lemma InToken(data: seq<byte>, i: nat, c: int)
    requires c == CharAt(data, i) && (c == MINUS || IsDigit(c) || c >= 0)
    ensures i < |data| && 0 <= c < 256
  {
  }

  lemma TokenIs(data: seq<byte>, p: nat, i: nat, buf: seq<byte>, negative: bool)
    requires Buffered(data, p, i, buf, negative)
    ensures p + i <= |data| && i <= |buf| && buf[..i] == data[p..p + i]
  {
  }

  /** read_obstack: the bytes up to a NUL or the end of the file. */
  method ReadObstack(fp: Stream) returns (s: seq<byte>, c: int)
    requires fp.pos <= |fp.data|
    modifies fp
    ensures var e := NulEnd(fp.data, old(fp.pos));
            s == fp.data[old(fp.pos)..e] && c == CharAt(fp.data, e) && fp.pos == Min(e + 1, |fp.data|)
  {
    hide NulEnd;
    ghost var data, p := fp.data, fp.pos;
    s := [];
    c := fp.Getc();
    while 0 < c
      invariant p + |s| <= |data| && s == data[p..p + |s|] && (forall k :: p <= k < p + |s| ==> data[k] != NUL)
      invariant c == CharAt(data, p + |s|) && fp.pos == Min(p + |s| + 1, |data|)
      decreases |data| - |s|
    {
      s := s + [c];
      c := fp.Getc();
    }
    StringEnd(data, p, p + |s|);
  }

  lemma StringEnd(data: seq<byte>, p: nat, e: nat)
    requires p <= e <= |data| && (e < |data| ==> data[e] == NUL) && forall k :: p <= k < e ==> data[k] != NUL
    ensures NulEnd(data, p) == e
  {
  }

  /** The loop around read_obstack for the listing of a directory: all strings with their NULs, as they
      stand in the file, unless it ends. */
  method ReadListing(fp: Stream) returns (content: seq<byte>, ended: bool)
    requires fp.pos <= |fp.data|
    modifies fp
    ensures var q := ListingEnd(fp.data, old(fp.pos));
            && fp.pos == q && (ended ==> q == |fp.data|)
            && (!ended ==> content == fp.data[old(fp.pos)..q])
  {
    hide NulEnd, ListingEnd;
    ghost var data, p := fp.data, fp.pos;
    content, ended := [], false;
    assert data[p..p] == [];
    while true
      invariant p <= fp.pos <= |data| && !ended && content == data[p..fp.pos]
      invariant ListingEnd(data, fp.pos) == ListingEnd(data, p)
      decreases |data| - fp.pos
    {
      ghost var at := fp.pos;
      ListingStep(data, p, at);
      var s, c := ReadObstack(fp);
      if c != 0 {
        ended := true;
        return;
      }
      content := content + s + [NUL];
      if |s| <= 1 {
        return;
      }
    }
  }

  lemma ListingStep(data: seq<byte>, p: nat, at: nat)
    requires p <= at <= |data|
    ensures var e := NulEnd(data, at);
            && ListingEnd(data, at) == (if e == |data| then |data| else if e - at > 1 then ListingEnd(data, e + 1) else e + 1)
            && (e < |data| ==> data[p..at] + data[at..e] + [NUL] == data[p..e + 1])
  {
    hide NulEnd;
    var e := NulEnd(data, at);
    if e < |data| {
      assert data[p..e + 1] == data[p..at] + data[at..e] + [data[e]];
    }
  }

  // ----- records

  /** What the snapshot keeps of a directory; contents is its listing as text. */
  datatype Record = Record(nfs: bool, sec: int, nsec: int, dev: int, ino: int, name: seq<byte>, contents: seq<byte>)

  datatype Entry = End | Bad | Entry(record: Record, next: nat)

  /** Two numbers: seconds and nanoseconds. */
  datatype Time = BadTime | Time(sec: int, nsec: int, next: nat)

  function ParseTime(data: seq<byte>, p: nat, t: Types): (r: Time)
    requires p <= |data|
    ensures r.Time? ==> p < r.next <= |data|
  {
    var s := ParseNumber(data, p, t.time);
    if !s.Number? then BadTime
    else
      var ns := ParseNumber(data, s.next, Range(0, BILLION - 1));
      if !ns.Number? then BadTime else Time(s.value, ns.value, ns.next)
  }

  /** The name and the listing after the numbers. */
  function ParseTail(data: seq<byte>, p: nat, nfs: bool, time: Time, dev: int, ino: int): (r: Entry)
    requires p <= |data| && time.Time?
    ensures r.Entry? ==> p < r.next <= |data|
  {
    var e := NulEnd(data, p);
    if e == |data| then Bad
    else
      var q := ListingEnd(data, e + 1);
      if q == |data| || data[q] != NUL then Bad
      else Entry(Record(nfs, time.sec, time.nsec, dev, ino, data[p..e], data[e + 1..q]), q + 1)
  }

  function ParseRecord(data: seq<byte>, p: nat, t: Types): (r: Entry)
    requires p <= |data|
    ensures r.Entry? ==> p < r.next <= |data|
  {
    var nfs := ParseNumber(data, p, Range(0, 1));
    if !nfs.Number? then if nfs.Eof? then End else Bad
    else
      var time := ParseTime(data, nfs.next, t);
      if !time.Time? then Bad
      else
        var dev := ParseNumber(data, time.next, t.dev);
        if !dev.Number? then Bad
        else
          var ino := ParseNumber(data, dev.next, t.ino);
          if !ino.Number? then Bad
          else ParseTail(data, ino.next, nfs.value == 1, time, dev.value, ino.value)
  }

  /** All records from p to the end of the file; None if it is malformed. */
  datatype Records = Malformed | Records(records: seq<Record>)

  function ParseRecords(data: seq<byte>, p: nat, t: Types): Records
    requires p <= |data|
    decreases |data| - p
  {
    match ParseRecord(data, p, t)
    case End => Records([])
    case Bad => Malformed
    case Entry(r, next) =>
      var rest := ParseRecords(data, next, t);
      if rest.Malformed? then Malformed else Records([r] + rest.records)
  }

  /** A value of a type that is converted from the intmax_t that read_num gives. */
  function Converted(v: int, r: Range): int {
    if r.min < 0 then v else WrapUnsigned(v)
  }

  lemma ConvertedStored(data: seq<byte>, p: nat, r: Range)
    requires p <= |data| && ValidRange(r)
    ensures var n := ParseNumber(data, p, r);
            n.Number? ==> Converted(Stored(n.value, r), r) == n.value && (r.max <= INTMAX_MAX ==> Stored(n.value, r) == n.value)
  {
    var e := NumberEnd(data, p);
    var v := ParseInt(data[p..e], r.min, r.max);
    ParsedInRange(data[p..e], r);
  }

  lemma ParsedInRange(s: seq<byte>, r: Range)
    requires ValidRange(r)
    ensures r.min <= ParseInt(s, r.min, r.max).value <= r.max
  {
    if IsDigit(At(s, 0)) {
      DecValBound(s, 0, DigitsEnd(s, 0));
    } else if r.min < 0 && At(s, 0) == MINUS && IsDigit(At(s, 1)) {
      DecValBound(s, 1, DigitsEnd(s, 1));
    }
  }

  method ReadTimespec(fp: Stream, t: Types) returns (time: Time)
    requires fp.pos <= |fp.data| && ValidTypes(t)
    modifies fp
    ensures fp.pos <= |fp.data| && time == ParseTime(fp.data, old(fp.pos), t) && (time.Time? ==> fp.pos == time.next)
  {
    hide ParseNumber;
    ConvertedStored(fp.data, fp.pos, t.time);
    var s := ReadNum(fp, t.time);
    if !s.Number? {
      return BadTime;
    }
    ConvertedStored(fp.data, fp.pos, Range(0, BILLION - 1));
    var ns := ReadNum(fp, Range(0, BILLION - 1));
    if !ns.Number? {
      return BadTime;
    }
    time := Time(s.value, ns.value, ns.next);
  }

  /** One round of read_incr_db_2. */
  method ReadRecord(fp: Stream, t: Types) returns (entry: Entry)
    requires fp.pos <= |fp.data| && ValidTypes(t)
    modifies fp
    ensures fp.pos <= |fp.data| && entry == ParseRecord(fp.data, old(fp.pos), t) && (entry.Entry? ==> fp.pos == entry.next)
  {
    hide ParseNumber, ParseTime, Stored, Converted, ParseTail;
    ConvertedStored(fp.data, fp.pos, Range(0, 1));
    var nfs := ReadNum(fp, Range(0, 1));
    if !nfs.Number? {
      return if nfs.Eof? then End else Bad;
    }
    var time := ReadTimespec(fp, t);
    if !time.Time? {
      return Bad;
    }
    ConvertedStored(fp.data, fp.pos, t.dev);
    var dev := ReadNum(fp, t.dev);
    if !dev.Number? {
      return Bad;
    }
    ConvertedStored(fp.data, fp.pos, t.ino);
    var ino := ReadNum(fp, t.ino);
    if !ino.Number? {
      return Bad;
    }
    entry := ReadTail(fp, nfs.value == 1, time, Converted(dev.value, t.dev), Converted(ino.value, t.ino));
  }

  method ReadTail(fp: Stream, nfs: bool, time: Time, dev: int, ino: int) returns (entry: Entry)
    requires fp.pos <= |fp.data| && time.Time?
    modifies fp
    ensures fp.pos <= |fp.data| && entry == ParseTail(fp.data, old(fp.pos), nfs, time, dev, ino)
    ensures entry.Entry? ==> fp.pos == entry.next
  {
    hide NulEnd, ListingEnd;
    var name, c := ReadObstack(fp);
    if c != 0 {
      return Bad;
    }
    var content, ended := ReadListing(fp);
    c := fp.Getc();
    if c != 0 {
      return Bad;
    }
    entry := Entry(Record(nfs, time.sec, time.nsec, dev, ino, name, content), fp.pos);
  }

  /** read_incr_db_2: the time of the last dump, and all records to the end of the file; or a fatal error. */
  method ReadIncrDb2(fp: Stream, t: Types) returns (time: Time, result: Records)
    requires fp.pos <= |fp.data| && ValidTypes(t)
    modifies fp
    ensures time == ParseTime(fp.data, old(fp.pos), t)
    ensures time.Time? ==> result == ParseRecords(fp.data, time.next, t)
  {
    hide ParseTime, ParseRecord;
    time := ReadTimespec(fp, t);
    result := Malformed;
    if !time.Time? {
      return;
    }
    var records: seq<Record> := [];
    ghost var goal := ParseRecords(fp.data, fp.pos, t);
    Prepended([], goal);
    while true
      invariant fp.pos <= |fp.data|
      invariant Prepend(records, ParseRecords(fp.data, fp.pos, t)) == goal
      decreases |fp.data| - fp.pos
    {
      ghost var at := fp.pos;
      var entry := ReadRecord(fp, t);
      if entry.End? {
        return time, Records(records);
      }
      if entry.Bad? {
        return time, Malformed;
      }
      PrependOne(records, entry.record, ParseRecords(fp.data, entry.next, t));
      records := records + [entry.record];
    }
  }

  function Prepend(rs: seq<Record>, more: Records): Records {
    if more.Malformed? then Malformed else Records(rs + more.records)
  }

  lemma Prepended(rs: seq<Record>, more: Records)
    ensures rs == [] ==> Prepend(rs, more) == more
    ensures Prepend(rs, Records([])) == Records(rs)
  {
  }

  lemma PrependOne(rs: seq<Record>, r: Record, more: Records)
    ensures Prepend(rs, if more.Malformed? then Malformed else Records([r] + more.records)) == Prepend(rs + [r], more)
  {
  }
}

/** Writing the snapshot file, and reading back what was written (src/incremen.c). */
module SnapshotWriting {
  import opened Bytes
  import opened DecimalText
  import opened Dumpdir
  import opened RenameListing
  import opened Snapshot

  /** A listing, or the absence of one. */
  datatype Listing = NoListing | Listing(text: seq<byte>)

  datatype DirectoryInfo = DirectoryInfo(found: bool, nfs: bool, sec: int, nsec: int, dev: int, ino: int,
                                         name: Name, dump: Listing)

  // ----- the elements of a listing

  /** Y, N and D. */
  predicate IsElement(e: Name) {
    Code(e) == 89 || Code(e) == 78 || Code(e) == 68
  }

  function Elements(es: seq<Name>): seq<Name> {
    if es == [] then [] else (if IsElement(es[0]) then [es[0]] else []) + Elements(es[1..])
  }

  function ElementsOf(l: Listing): seq<Name> {
    if l.NoListing? then [] else Elements(Entries(l.text, 0))
  }

  /** The entries whose code is Y (89), N (78) or D (68). */
  predicate Keeps(e: Name) {
    e != [] && (e[0] == 89 || e[0] == 78 || e[0] == 68)
  }

  /** sel holds exactly these entries of es, each once and in order; ix says which. */
  ghost predicate Picks(ix: seq<nat>, es: seq<Name>, sel: seq<Name>) {
    && |ix| == |sel| && (forall j :: 0 <= j < |ix| ==> ix[j] < |es| && sel[j] == es[ix[j]])
    && (forall i, j :: 0 <= i < j < |ix| ==> ix[i] < ix[j])
    && forall k :: 0 <= k < |es| ==> (k in ix <==> Keeps(es[k]))
  }

  function Shifted(ix: seq<nat>): (r: seq<nat>)
    ensures |r| == |ix| && forall j :: 0 <= j < |r| ==> r[j] == ix[j] + 1
  {
    seq(|ix|, j requires 0 <= j < |ix| => ix[j] + 1)
  }

  lemma ShiftedIn(ix: seq<nat>, k: nat)
    ensures k in Shifted(ix) <==> k > 0 && k - 1 in ix
  {
    if k > 0 && k - 1 in ix {
      var j :| 0 <= j < |ix| && ix[j] == k - 1;
      assert Shifted(ix)[j] == k;
    }
  }

  lemma PicksMore(ix: seq<nat>, es: seq<Name>, sel: seq<Name>, e: Name)
    requires Picks(ix, es, sel)
    ensures !Keeps(e) ==> Picks(Shifted(ix), [e] + es, sel)
    ensures Keeps(e) ==> Picks([0] + Shifted(ix), [e] + es, [e] + sel)
  {
    hide Keeps, Shifted;
    var s, all := Shifted(ix), [e] + es;
    forall k | 0 <= k < |all| ensures k in s <==> k > 0 && Keeps(all[k]) {
      ShiftedIn(ix, k);
    }
    if Keeps(e) {
      ZeroFirst(s, all, sel, e);
    }
  }

  lemma ZeroFirst(s: seq<nat>, all: seq<Name>, sel: seq<Name>, e: Name)
    requires all != [] && all[0] == e && Keeps(e)
    requires |s| == |sel| && (forall j :: 0 <= j < |s| ==> 0 < s[j] < |all| && sel[j] == all[s[j]])
    requires forall i, j :: 0 <= i < j < |s| ==> s[i] < s[j]
    requires forall k :: 0 <= k < |all| ==> (k in s <==> k > 0 && Keeps(all[k]))
    ensures Picks([0] + s, all, [e] + sel)
  {
    hide Keeps;
    assert forall k :: 0 <= k < |all| ==> (k in [0] + s <==> k == 0 || k in s);
  }

  /** The elements of a listing are exactly the entries with these codes. */
  lemma {:induction false} ElementsAre(es: seq<Name>) returns (ix: seq<nat>)
    ensures Picks(ix, es, Elements(es))
  {
    hide Picks;
    if es == [] {
      ix := [];
      PicksNothing();
    } else {
      var rest := ElementsAre(es[1..]);
      PicksMore(rest, es[1..], Elements(es[1..]), es[0]);
      assert es == [es[0]] + es[1..];
      ix := if Keeps(es[0]) then [0] + Shifted(rest) else Shifted(rest);
      assert Elements(es) == if Keeps(es[0]) then [es[0]] + Elements(es[1..]) else Elements(es[1..]);
    }
  }

  lemma PicksNothing()
    ensures Picks([], [], [])
  {
  }

  /** elv points behind the codes of the elements of a listing. */
  ghost predicate PointsTo(d: seq<byte>, elv: seq<nat>, es: seq<Name>) {
    |elv| == |es| && forall k :: 0 <= k < |elv| ==> PointsAt(d, elv[k], es[k])
  }

  ghost predicate PointsAt(d: seq<byte>, i: nat, e: Name) {
    0 < i <= |d| && NulEnd(d, i - 1) < |d| && d[i - 1..NulEnd(d, i - 1)] == e
  }

  /** dumpdir_create: the array of pointers to the Y, N and D entries, in their order. */
  method DumpdirCreate(d: seq<byte>) returns (elv: seq<nat>)
    requires Terminated(d)
    ensures PointsTo(d, elv, Elements(Entries(d, 0)))
  {
    hide Entries, NulEnd, Terminated, PointsAt, Code;
    Inside(d);
    elv := [];
    var p: nat := 0;
    ghost var done: seq<Name> := [];
    while d[p] != NUL
      invariant p < |d| && PointsTo(d, elv, done)
      invariant done + Elements(Entries(d, p)) == Elements(Entries(d, 0))
      decreases |d| - p
    {
      EntryInside(d, p);
      ghost var es := Entries(d, p);
      assert es == [es[0]] + es[1..];
      PointsHere(d, p);
      if d[p] == 89 || d[p] == 78 || d[p] == 68 {
        elv := elv + [p + 1];
        assert done + Elements(es) == (done + [es[0]]) + Elements(es[1..]);
        done := done + [es[0]];
      } else {
        assert Elements(es) == Elements(es[1..]);
      }
      p := NulEnd(d, p) + 1;
    }
    NoEntries(d, p);
    assert done + [] == done;
  }

  lemma Inside(d: seq<byte>)
    requires Terminated(d)
    ensures |d| > 0
  {
  }

  lemma PointsHere(d: seq<byte>, p: nat)
    requires p < |d| && NulEnd(d, p) < |d|
    ensures PointsAt(d, p + 1, d[p..NulEnd(d, p)])
  {
  }

  // ----- writing

  function NumberText(x: int): seq<byte> {
    DecInt(x) + [NUL]
  }

  function NumbersText(i: DirectoryInfo): seq<byte> {
    NumberText(if i.nfs then 1 else 0) + (NumberText(i.sec) + NumberText(i.nsec)) + NumberText(i.dev) + NumberText(i.ino)
  }

  function RecordText(i: DirectoryInfo): seq<byte> {
    NumbersText(i) + (i.name + [NUL] + (Flat(ElementsOf(i.dump)) + [NUL]) + [NUL])
  }

  predicate InRange(x: int, r: Range) {
    r.min <= x <= r.max
  }

  /** A directory as the system gives it. */
  ghost predicate ValidInfo(i: DirectoryInfo, t: Types) {
    && InRange(i.sec, t.time) && 0 <= i.nsec < BILLION && InRange(i.dev, t.dev) && InRange(i.ino, t.ino)
    && NulFree(i.name)
    && (i.dump.Listing? ==> Terminated(i.dump.text))
    && forall k :: 0 <= k < |ElementsOf(i.dump)| ==> NamedElement(ElementsOf(i.dump)[k])
  }

  /** An element has a name after its code. */
  predicate NamedElement(e: Name) {
    |e| > 1 && NulFree(e)
  }

  /** sysinttostr, applied to a value of a type, and its NUL. */
  method PutNumber(fp: seq<byte>, x: int, r: Range) returns (fp': seq<byte>)
    requires ValidRange(r) && InRange(x, r)
    ensures fp' == fp + NumberText(x)
  {
    SysIntToStrIsDecimal(x, r.min, r.max);
    fp' := fp + (SysIntToStr(WrapUnsigned(x), r.min, r.max) + [NUL]);
  }

  /** write_directory_file_entry: a directory that was found on the file system is written. */
  method WriteDirectoryFileEntry(i: DirectoryInfo, fp: seq<byte>, t: Types) returns (fp': seq<byte>)
    requires ValidTypes(t) && ValidInfo(i, t)
    ensures fp' == fp + if i.found then RecordText(i) else []
  {
    hide DecInt, NumberText, Elements, Entries, Flat, NulFree, Terminated;
    fp' := fp;
    if i.found {
      fp' := PutNumber(fp', if i.nfs then 1 else 0, Range(0, 1));
      fp' := PutNumber(fp', i.sec, t.time);
      fp' := PutNumber(fp', i.nsec, Range(0, BILLION - 1));
      fp' := PutNumber(fp', i.dev, t.dev);
      fp' := PutNumber(fp', i.ino, t.ino);
      NumbersTogether(fp, i);
      fp' := fp' + i.name + [NUL];
      var elements := WriteElements(i.dump);
      fp' := fp' + elements;
      fp' := fp' + [NUL, NUL];
      RecordTogether(fp, NumbersText(i), i.name, elements);
    }
  }

  lemma NumbersTogether(fp: seq<byte>, i: DirectoryInfo)
    ensures fp + NumberText(if i.nfs then 1 else 0) + NumberText(i.sec) + NumberText(i.nsec) + NumberText(i.dev) + NumberText(i.ino)
         == fp + NumbersText(i)
  {
    hide NumberText;
  }

  lemma RecordTogether(fp: seq<byte>, numbers: seq<byte>, name: Name, elements: seq<byte>)
    ensures fp + numbers + name + [NUL] + elements + [NUL, NUL]
         == fp + (numbers + (name + [NUL] + (elements + [NUL]) + [NUL]))
  {
  }

  /** The loop over dumpdir_first and dumpdir_next. */
  method WriteElements(l: Listing) returns (text: seq<byte>)
    requires l.Listing? ==> Terminated(l.text)
    ensures text == Flat(ElementsOf(l))
  {
    hide Elements, Entries, Terminated, NulEnd, Flat, PointsTo;
    FlatFrom([], [], 0);
    text := [];
    if l.Listing? {
      var d := l.text;
      var elv := DumpdirCreate(d);
      ghost var es := Elements(Entries(d, 0));
      assert es[0..] == es;
      PointedEnd(d, elv, es);
      for k := 0 to |elv|
        invariant text + Flat(es[k..]) == Flat(es)
      {
        Pointed(d, elv, es, k);
        FlatFrom(text, es, k);
        text := text + d[elv[k] - 1..NulEnd(d, elv[k] - 1)] + [NUL];
      }
    }
  }

  lemma Pointed(d: seq<byte>, elv: seq<nat>, es: seq<Name>, k: nat)
    requires PointsTo(d, elv, es) && k < |elv|
    ensures |es| == |elv| && 0 < elv[k] <= |d| && NulEnd(d, elv[k] - 1) < |d|
    ensures d[elv[k] - 1..NulEnd(d, elv[k] - 1)] == es[k]
  {
    hide NulEnd;
    assert PointsAt(d, elv[k], es[k]);
  }

  lemma PointedEnd(d: seq<byte>, elv: seq<nat>, es: seq<Name>)
    requires PointsTo(d, elv, es)
    ensures |es| == |elv| && es[|elv|..] == []
  {
  }

  lemma FlatFrom(text: seq<byte>, es: seq<Name>, k: nat)
    requires k <= |es|
    ensures Flat([]) == [] && text + [] == text
    ensures k < |es| ==> text + Flat(es[k..]) == text + es[k] + [NUL] + Flat(es[k + 1..])
  {
    if k < |es| {
      assert es[k..][0] == es[k] && es[k..][1..] == es[k + 1..];
    }
  }

  // ----- reading back

  /** Every number of at most 64 bits fits the buffer of read_num. */
  lemma {:induction false} DecLength(n: nat, k: nat)
    requires 0 < k && n < Shift(1, k)
    ensures |Dec(n)| <= k
  {
    if n >= 10 {
      assert k > 1;
      DecLength(n / 10, k - 1);
    }
  }

  lemma DecIntLength(x: int)
    requires INTMAX_MIN <= x <= UINTMAX_MAX
    ensures |DecInt(x)| <= NUMBER_MAX
  {
    TenTo19();
    if x < 0 {
      DecLength(-x, 19);
    } else {
      DecLength(x, 20);
    }
  }

  lemma TenTo19()
    ensures Shift(1, 19) == 10_000_000_000_000_000_000 && Shift(1, 20) == 100_000_000_000_000_000_000
  {
    assert Shift(1, 5) == 100_000;
    ShiftShift(1, 5, 5);
    assert Shift(100_000, 5) == 10_000_000_000;
    ShiftShift(1, 10, 5);
    assert Shift(10_000_000_000, 5) == 1_000_000_000_000_000;
    ShiftShift(1, 15, 4);
    assert Shift(1_000_000_000_000_000, 4) == 10_000_000_000_000_000_000;
  }

  lemma NumberParses(data: seq<byte>, p: nat, x: int, r: Range)
    requires Here(data, p, NumberText(x)) && ValidRange(r) && InRange(x, r)
    ensures ParseNumber(data, p, r) == Number(x, p + |NumberText(x)|)
  {
    hide ParseInt, Here;
    var text := DecInt(x);
    var e := p + |text|;
    NumberHere(data, p, x);
    DecIntLength(x);
    ParseDecInt(x, r.min, r.max, []);
    assert text + [] == text;
  }

  lemma NumberHere(data: seq<byte>, p: nat, x: int)
    requires Here(data, p, NumberText(x))
    ensures var e := p + |DecInt(x)|;
            e < |data| && data[p..e] == DecInt(x) && data[e] == NUL && NumberEnd(data, p) == e && |DecInt(x)| > 0
  {
    var text := DecInt(x);
    var e := p + |text|;
    HereParts(data, p, text, [NUL]);
    assert data[e] == data[e..e + 1][0];
    assert forall k :: p <= k < e ==> data[k] == data[p..e][k - p];
    DigitsEndUnique(data, if x < 0 then p + 1 else p, e);
  }

  ghost predicate AllNamed(es: seq<Name>) {
    forall k :: 0 <= k < |es| ==> NamedElement(es[k])
  }

  lemma {:induction false} ListingParses(data: seq<byte>, p: nat, es: seq<Name>)
    requires Here(data, p, Flat(es) + [NUL]) && AllNamed(es)
    ensures ListingEnd(data, p) == p + |Flat(es)| + 1
    decreases |es|
  {
    hide Here, NulEnd;
    if es == [] {
      assert Flat(es) + [NUL] == [] + [NUL] + [];
      StringHere(data, p, [], []);
    } else {
      FlatHead(es);
      StringHere(data, p, es[0], Flat(es[1..]) + [NUL]);
      ListingParses(data, p + |es[0]| + 1, es[1..]);
    }
  }

  /** A string without NULs and its NUL are found where they stand, and what follows them. */
  lemma StringHere(data: seq<byte>, p: nat, s: Name, rest: seq<byte>)
    requires Here(data, p, s + [NUL] + rest) && NulFree(s)
    ensures p + |s| < |data| && NulEnd(data, p) == p + |s| && data[p..p + |s|] == s
    ensures Here(data, p + |s| + 1, rest)
  {
    hide NulEnd;
    var e := p + |s|;
    HereParts(data, p, s + [NUL], rest);
    HereParts(data, p, s, [NUL]);
    assert data[e] == data[e..e + 1][0];
    forall k | p <= k < e ensures data[k] != NUL {
      assert data[k] == data[p..e][k - p];
    }
    StringEnd(data, p, e);
  }

  /** What is to be read back of a directory. */
  function RecordOf(i: DirectoryInfo): Record {
    Record(i.nfs, i.sec, i.nsec, i.dev, i.ino, i.name, Flat(ElementsOf(i.dump)) + [NUL])
  }

  lemma TailParses(data: seq<byte>, p: nat, i: DirectoryInfo, time: Time)
    requires NulFree(i.name) && AllNamed(ElementsOf(i.dump)) && time.Time?
    requires Here(data, p, i.name + [NUL] + (Flat(ElementsOf(i.dump)) + [NUL]) + [NUL])
    ensures ParseTail(data, p, i.nfs, time, i.dev, i.ino)
         == Entry(Record(i.nfs, time.sec, time.nsec, i.dev, i.ino, i.name, Flat(ElementsOf(i.dump)) + [NUL]),
                  p + |i.name + [NUL] + (Flat(ElementsOf(i.dump)) + [NUL]) + [NUL]|)
  {
    hide NulEnd, ListingEnd, Flat, ElementsOf, NulFree;
    var listing := Flat(ElementsOf(i.dump)) + [NUL];
    HereParts(data, p, i.name + [NUL] + listing, [NUL]);
    StringHere(data, p, i.name, listing);
    var q := p + |i.name| + 1;
    ListingParses(data, q, ElementsOf(i.dump));
    assert data[q + |listing|] == data[q + |listing|..q + |listing| + 1][0];
  }

  /** The numbers of a record are read in their order. */
  ghost predicate NumbersAt(data: seq<byte>, p: nat, i: DirectoryInfo, t: Types, q: nat) {
    && p <= |data|
    && var a := ParseNumber(data, p, Range(0, 1));
    && a.Number? && a.value == (if i.nfs then 1 else 0)
    && var b := ParseTime(data, a.next, t);
    && b.Time? && b.sec == i.sec && b.nsec == i.nsec
    && var c := ParseNumber(data, b.next, t.dev);
    && c.Number? && c.value == i.dev
    && ParseNumber(data, c.next, t.ino) == Number(i.ino, q)
  }

  lemma TimeParses(data: seq<byte>, p: nat, sec: int, nsec: int, t: Types)
    requires Here(data, p, NumberText(sec) + NumberText(nsec)) && ValidTypes(t) && InRange(sec, t.time) && 0 <= nsec < BILLION
    ensures ParseTime(data, p, t) == Time(sec, nsec, p + |NumberText(sec) + NumberText(nsec)|)
  {
    hide ParseNumber, NumberText, Here;
    HereParts(data, p, NumberText(sec), NumberText(nsec));
    HereInside(data, p, NumberText(sec) + NumberText(nsec));
    NumberParses(data, p, sec, t.time);
    NumberParses(data, p + |NumberText(sec)|, nsec, Range(0, BILLION - 1));
  }

  lemma HereInside(data: seq<byte>, p: nat, t: seq<byte>)
    requires Here(data, p, t)
    ensures p + |t| <= |data|
  {
  }

  lemma NumbersParse(data: seq<byte>, p: nat, i: DirectoryInfo, t: Types)
    requires Here(data, p, NumbersText(i)) && ValidTypes(t)
    requires InRange(i.sec, t.time) && 0 <= i.nsec < BILLION && InRange(i.dev, t.dev) && InRange(i.ino, t.ino)
    ensures NumbersAt(data, p, i, t, p + |NumbersText(i)|)
  {
    hide ParseNumber, ParseTime, NumberText, Here;
    var a, b, c, d := NumberText(if i.nfs then 1 else 0), NumberText(i.sec) + NumberText(i.nsec), NumberText(i.dev), NumberText(i.ino);
    HereParts(data, p, a + b + c, d);
    HereParts(data, p, a + b, c);
    HereParts(data, p, a, b);
    HereInside(data, p, NumbersText(i));
    NumberParses(data, p, if i.nfs then 1 else 0, Range(0, 1));
    TimeParses(data, p + |a|, i.sec, i.nsec, t);
    NumberParses(data, p + |a| + |b|, i.dev, t.dev);
    NumberParses(data, p + |a| + |b| + |c|, i.ino, t.ino);
  }

  /** A record that was written is read back with all its fields, whatever follows it. */
  lemma RecordParses(data: seq<byte>, p: nat, i: DirectoryInfo, t: Types)
    requires Here(data, p, RecordText(i)) && ValidTypes(t) && ValidInfo(i, t)
    ensures p <= |data| && ParseRecord(data, p, t) == Entry(RecordOf(i), p + |RecordText(i)|)
  {
    hide ParseNumber, ParseTime, ParseTail, NumbersText, Here, Flat, ElementsOf, NulFree;
    var numbers := NumbersText(i);
    var tail := i.name + [NUL] + (Flat(ElementsOf(i.dump)) + [NUL]) + [NUL];
    HereParts(data, p, numbers, tail);
    HereInside(data, p, RecordText(i));
    NumbersParse(data, p, i, t);
    TailParses(data, p + |numbers|, i, Time(i.sec, i.nsec, 0));
    TailTime(data, p + |numbers|, i);
  }

  /** The position in a time does not matter. */
  lemma TailTime(data: seq<byte>, p: nat, i: DirectoryInfo)
    requires p <= |data|
    ensures forall next, next' :: ParseTail(data, p, i.nfs, Time(i.sec, i.nsec, next), i.dev, i.ino)
                               == ParseTail(data, p, i.nfs, Time(i.sec, i.nsec, next'), i.dev, i.ino)
  {
  }

  // ----- whole files

  function RecordsText(infos: seq<DirectoryInfo>): seq<byte> {
    if infos == [] then []
    else (if infos[0].found then RecordText(infos[0]) else []) + RecordsText(infos[1..])
  }

  function FoundRecords(infos: seq<DirectoryInfo>): seq<Record> {
    if infos == [] then []
    else (if infos[0].found then [RecordOf(infos[0])] else []) + FoundRecords(infos[1..])
  }

  /** The file after its first line. */
  function SnapshotText(sec: int, nsec: int, infos: seq<DirectoryInfo>): seq<byte> {
    (NumberText(sec) + NumberText(nsec)) + RecordsText(infos)
  }

  lemma {:induction false} RecordsParse(data: seq<byte>, p: nat, infos: seq<DirectoryInfo>, t: Types)
    requires ValidTypes(t) && p <= |data| && data[p..] == RecordsText(infos)
    requires forall k :: 0 <= k < |infos| ==> ValidInfo(infos[k], t)
    ensures ParseRecords(data, p, t) == Records(FoundRecords(infos))
    decreases |infos|
  {
    hide ParseRecord, RecordText, ValidInfo, RecordOf;
    if infos == [] {
      EndParses(data, p, t);
    } else if infos[0].found {
      var text := RecordText(infos[0]);
      FirstHere(data, p, text, RecordsText(infos[1..]));
      RecordParses(data, p, infos[0], t);
      RecordsParse(data, p + |text|, infos[1..], t);
    } else {
      assert RecordsText(infos) == RecordsText(infos[1..]);
      RecordsParse(data, p, infos[1..], t);
      assert FoundRecords(infos) == FoundRecords(infos[1..]);
    }
  }

  lemma EndParses(data: seq<byte>, p: nat, t: Types)
    requires p <= |data| && data[p..] == []
    ensures ParseRecord(data, p, t) == End
  {
  }

  lemma FirstHere(data: seq<byte>, p: nat, a: seq<byte>, b: seq<byte>)
    requires p <= |data| && data[p..] == a + b
    ensures Here(data, p, a) && data[p + |a|..] == b
  {
    assert data[p..p + |a|] == data[p..][..|a|];
    assert data[p + |a|..] == data[p..][|a|..];
  }

  /** Reading a snapshot gives the time of the dump and every directory that was found, with its flags,
      time, device, inode, name and entries; a directory without a listing gets an empty one. */
  lemma SnapshotRoundTrip(sec: int, nsec: int, infos: seq<DirectoryInfo>, t: Types)
    requires ValidTypes(t) && InRange(sec, t.time) && 0 <= nsec < BILLION
    requires forall k :: 0 <= k < |infos| ==> ValidInfo(infos[k], t)
    ensures var data := SnapshotText(sec, nsec, infos);
            var time := ParseTime(data, 0, t);
            time.Time? && time.sec == sec && time.nsec == nsec && ParseRecords(data, time.next, t) == Records(FoundRecords(infos))
  {
    hide ParseTime, ParseRecords, NumberText, ValidInfo, RecordsText;
    var data, head := SnapshotText(sec, nsec, infos), NumberText(sec) + NumberText(nsec);
    FirstHere(data, 0, head, RecordsText(infos));
    TimeParses(data, 0, sec, nsec, t);
    RecordsParse(data, |head|, infos, t);
  }

  /** The listing that is read back has the Y, N and D entries of the one that was written, in their order,
      and nothing else. */
  lemma EntriesKept(i: DirectoryInfo, t: Types) returns (ix: seq<nat>)
    requires ValidInfo(i, t) && i.dump.Listing?
    ensures Picks(ix, Entries(i.dump.text, 0), Entries(RecordOf(i).contents, 0))
  {
    hide Entries, RecordOf, Keeps, Picks;
    ListingKept(i, t);
    ix := ElementsAre(Entries(i.dump.text, 0));
  }

  /** The listing that is read back has the elements of the one that was written. */
  lemma ListingKept(i: DirectoryInfo, t: Types)
    requires ValidInfo(i, t)
    ensures Entries(RecordOf(i).contents, 0) == ElementsOf(i.dump) && Terminated(RecordOf(i).contents)
  {
    hide Elements, Entries, Flat, Terminated, InRange;
    var es := ElementsOf(i.dump);
    var d := Flat(es) + [NUL];
    forall k | 0 <= k < |es| ensures es[k] != [] && NulFree(es[k]) {
      assert NamedElement(es[k]);
    }
    assert d[0..] == d;
    EntriesOfText(d, 0, es);
    TextTerminated(es);
  }

  /** write_directory_file after its first line, and read_incr_db_2 on what it wrote. */
  method WriteAndRead(sec: int, nsec: int, infos: seq<DirectoryInfo>, t: Types) returns (time: Time, result: Records)
    requires ValidTypes(t) && InRange(sec, t.time) && 0 <= nsec < BILLION
    requires forall k :: 0 <= k < |infos| ==> ValidInfo(infos[k], t)
    ensures time.Time? && time.sec == sec && time.nsec == nsec && result == Records(FoundRecords(infos))
  {
    hide ParseTime, ParseRecords, NumberText, ValidInfo, RecordText;
    var fp := PutNumber([], sec, t.time);
    fp := PutNumber(fp, nsec, Range(0, BILLION - 1));
    ghost var goal := SnapshotText(sec, nsec, infos);
    assert infos[0..] == infos;
    for k := 0 to |infos|
      invariant fp + RecordsText(infos[k..]) == goal
    {
      assert infos[k..][0] == infos[k] && infos[k..][1..] == infos[k + 1..];
      fp := WriteDirectoryFileEntry(infos[k], fp, t);
    }
    assert infos[|infos|..] == [] && fp == goal;
    SnapshotRoundTrip(sec, nsec, infos, t);
    var stream := new Stream(fp);
    time, result := ReadIncrDb2(stream, t);
  }
}

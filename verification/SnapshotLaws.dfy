/** Which snapshot files are accepted: the notation of numbers, and what becomes of a file that is cut off
    (src/incremen.c). */
module SnapshotLaws {
  import opened Bytes
  import opened DecimalText
  import opened TextLaws
  import opened Dumpdir
  import opened RenameListing
  import opened Snapshot
  import opened SnapshotWriting

  // ----- numbers

  /** An optional minus sign and digits, at most twenty characters, with a NUL behind them, are a number if
      it is in the range.  Anything else is fatal, but the end of the file where a number should begin. */
  lemma NumberSyntax(data: seq<byte>, p: nat, negative: bool, digits: seq<byte>, r: Range)
    requires ValidRange(r) && Decimals(digits) && Here(data, p, (if negative then [45] else []) + digits)
    requires NoDigitFirst(data[p + (if negative then 1 else 0) + |digits|..]) && (digits == [] && !negative ==> p == |data| || data[p] != 45)
    ensures var q := p + (if negative then 1 else 0) + |digits|;
            var v := if negative then -DecimalNumber(digits) else DecimalNumber(digits);
            ParseNumber(data, p, r) ==
              if q - p > 20 then Fatal
              else if q == |data| then (if q == p then Eof else Fatal)
              else if data[q] != 0 || digits == [] || (negative && r.min == 0) || v < r.min || r.max < v then Fatal
              else Number(v, q + 1)
  {
    hide ParseInt, Decimals, DecimalNumber, DigitsEnd, DecVal;
    var sign := if negative then [45] else [];
    var i, q := p + |sign|, p + |sign| + |digits|;
    NumberEnds(data, p, negative, digits);
    if q < |data| && digits != [] {
      assert data[p..q] == sign + digits;
      IntSyntax(digits, [], r.min, r.max);
      assert digits + [] == digits && [45] + digits + [] == [45] + digits && [] + digits == digits;
    } else if q < |data| {
      assert data[p..q] == sign;
      NoInt(sign, r.min, r.max);
    }
    DecimalNumberNonNegative(digits);
  }

  lemma NumberEnds(data: seq<byte>, p: nat, negative: bool, digits: seq<byte>)
    requires Decimals(digits) && Here(data, p, (if negative then [45] else []) + digits)
    requires NoDigitFirst(data[p + (if negative then 1 else 0) + |digits|..]) && (digits == [] && !negative ==> p == |data| || data[p] != 45)
    ensures NumberEnd(data, p) == p + (if negative then 1 else 0) + |digits|
  {
    hide Decimals, DigitsEnd, DecVal, DecimalNumber;
    var sign := if negative then [45] else [];
    var i, q := p + |sign|, p + |sign| + |digits|;
    HereParts(data, p, sign, digits);
    assert At(data, q) == At(data[q..], 0);
    DigitsHere(data, i, digits);
    if negative {
      assert data[p] == data[p..p + 1][0];
    }
  }

  // ----- files that are cut off

  lemma {:induction false} DigitsCut(s: seq<byte>, n: nat, i: nat)
    requires i <= n <= |s|
    ensures DigitsEnd(s[..n], i) == Min(n, DigitsEnd(s, i))
    decreases n - i
  {
    if i < n && IsDigit(s[i]) {
      DigitsCut(s, n, i + 1);
    }
  }

  lemma {:induction false} NulCut(s: seq<byte>, n: nat, i: nat)
    requires i <= n <= |s|
    ensures NulEnd(s[..n], i) == Min(n, NulEnd(s, i))
    decreases n - i
  {
    if i < n && s[i] != NUL {
      NulCut(s, n, i + 1);
    }
  }

  lemma {:induction false} ListingCut(s: seq<byte>, n: nat, p: nat)
    requires p <= n <= |s|
    ensures ListingEnd(s[..n], p) == Min(n, ListingEnd(s, p))
    decreases n - p
  {
    hide NulEnd;
    NulCut(s, n, p);
    var e := NulEnd(s, p);
    if e < n && e - p > 1 {
      ListingCut(s, n, e + 1);
    }
  }

  /** A number is read as before, or it is cut and no longer read. */
  lemma NumberCut(data: seq<byte>, n: nat, p: nat, r: Range)
    requires p <= n <= |data| && ParseNumber(data, p, r).Number?
    ensures var next := ParseNumber(data, p, r).next;
            ParseNumber(data[..n], p, r) == if next <= n then ParseNumber(data, p, r) else if n == p then Eof else Fatal
  {
    hide ParseInt, DigitsEnd;
    var e := NumberEnd(data, p);
    DigitsCut(data, n, p);
    if p < n {
      DigitsCut(data, n, p + 1);
    }
    if e < n {
      assert data[..n][p..e] == data[p..e];
    }
  }

  lemma TimeCut(data: seq<byte>, n: nat, p: nat, t: Types)
    requires p <= n <= |data| && ParseTime(data, p, t).Time?
    ensures ParseTime(data[..n], p, t) == if ParseTime(data, p, t).next <= n then ParseTime(data, p, t) else BadTime
  {
    hide ParseNumber;
    NumberCut(data, n, p, t.time);
    var s := ParseNumber(data, p, t.time);
    if s.next <= n {
      NumberCut(data, n, s.next, Range(0, BILLION - 1));
    }
  }

  lemma TailCut(data: seq<byte>, n: nat, p: nat, nfs: bool, time: Time, dev: int, ino: int)
    requires p <= n <= |data| && time.Time? && ParseTail(data, p, nfs, time, dev, ino).Entry?
    ensures var e := ParseTail(data, p, nfs, time, dev, ino);
            ParseTail(data[..n], p, nfs, time, dev, ino) == if e.next <= n then e else Bad
  {
    hide NulEnd, ListingEnd;
    NulCut(data, n, p);
    var e := NulEnd(data, p);
    if e < n {
      ListingCut(data, n, e + 1);
      var q := ListingEnd(data, e + 1);
      if q < n {
        assert data[..n][p..e] == data[p..e] && data[..n][e + 1..q] == data[e + 1..q];
      }
    }
  }

  /** A record is read as before, or it is cut and refused. */
  lemma RecordCut(data: seq<byte>, n: nat, p: nat, t: Types)
    requires p <= n <= |data| && ParseRecord(data, p, t).Entry?
    ensures var e := ParseRecord(data, p, t);
            ParseRecord(data[..n], p, t) == if e.next <= n then e else if n == p then End else Bad
  {
    hide ParseNumber, ParseTime, ParseTail;
    var nfs := ParseNumber(data, p, Range(0, 1));
    NumberCut(data, n, p, Range(0, 1));
    if nfs.next <= n {
      TimeCut(data, n, nfs.next, t);
      var time := ParseTime(data, nfs.next, t);
      if time.next <= n {
        NumberCut(data, n, time.next, t.dev);
        var dev := ParseNumber(data, time.next, t.dev);
        if dev.next <= n {
          NumberCut(data, n, dev.next, t.ino);
          var ino := ParseNumber(data, dev.next, t.ino);
          if ino.next <= n {
            TailCut(data, n, ino.next, nfs.value == 1, time, dev.value, ino.value);
          }
        }
      }
    }
  }

  /** The records from p on, k of them, end at index n. */
  predicate EndsAfter(data: seq<byte>, p: nat, t: Types, k: nat, n: nat)
    requires p <= |data|
    decreases k
  {
    if k == 0 then n == p
    else ParseRecord(data, p, t).Entry? && EndsAfter(data, ParseRecord(data, p, t).next, t, k - 1, n)
  }

  /** A snapshot that is cut off is accepted if and only if it is cut behind a record, and then it gives the
      records before the cut; for every snapshot that is accepted as a whole. */
  lemma {:induction false} SnapshotCut(data: seq<byte>, p: nat, t: Types, n: nat)
    requires p <= n <= |data| && ParseRecords(data, p, t).Records?
    ensures var all, r := ParseRecords(data, p, t).records, ParseRecords(data[..n], p, t);
            && (r.Records? <==> exists k: nat :: EndsAfter(data, p, t, k, n))
            && (r.Records? ==> r.records <= all && EndsAfter(data, p, t, |r.records|, n))
    decreases n - p
  {
    hide ParseRecord;
    var e := ParseRecord(data, p, t);
    if n == p {
      assert EndsAfter(data, p, t, 0, n);
      NothingLeft(data, n, t);
    } else if e.Entry? {
      RecordCut(data, n, p, t);
      if e.next <= n {
        SnapshotCut(data, e.next, t, n);
        CutBehind(data, p, t, n);
      } else {
        CutInside(data, p, t, n);
      }
    } else {
      EndIsEnd(data, p, t);
      assert false;
    }
  }

  lemma NothingLeft(data: seq<byte>, n: nat, t: Types)
    requires n <= |data|
    ensures ParseRecords(data[..n], n, t) == Records([])
  {
  }

  lemma EndIsEnd(data: seq<byte>, p: nat, t: Types)
    requires p <= |data| && ParseRecord(data, p, t).End?
    ensures p == |data|
  {
  }

  lemma CutBehind(data: seq<byte>, p: nat, t: Types, n: nat)
    requires p < n <= |data| && ParseRecord(data, p, t).Entry? && ParseRecord(data, p, t).next <= n
    ensures (exists k: nat :: EndsAfter(data, p, t, k, n)) <==> exists k: nat :: EndsAfter(data, ParseRecord(data, p, t).next, t, k, n)
  {
    hide ParseRecord, EndsAfter;
    var next := ParseRecord(data, p, t).next;
    if exists k: nat :: EndsAfter(data, p, t, k, n) {
      var k: nat :| EndsAfter(data, p, t, k, n);
      OneBefore(data, p, t, k, n);
    }
    if exists k: nat :: EndsAfter(data, next, t, k, n) {
      var k: nat :| EndsAfter(data, next, t, k, n);
      OneBefore(data, p, t, k + 1, n);
    }
  }

  lemma OneBefore(data: seq<byte>, p: nat, t: Types, k: nat, n: nat)
    requires p < n <= |data| && ParseRecord(data, p, t).Entry?
    ensures EndsAfter(data, p, t, k, n) <==> k > 0 && EndsAfter(data, ParseRecord(data, p, t).next, t, k - 1, n)
  {
    hide ParseRecord;
  }

  lemma CutInside(data: seq<byte>, p: nat, t: Types, n: nat)
    requires p < n < |data| && ParseRecord(data, p, t).Entry? && n < ParseRecord(data, p, t).next
    ensures forall k: nat :: !EndsAfter(data, p, t, k, n)
  {
    hide ParseRecord;
    forall k: nat ensures !EndsAfter(data, p, t, k, n) {
      if k > 0 {
        EndsForward(data, ParseRecord(data, p, t).next, t, k - 1, n);
      }
    }
  }

  lemma {:induction false} EndsForward(data: seq<byte>, p: nat, t: Types, k: nat, n: nat)
    requires p <= |data|
    ensures EndsAfter(data, p, t, k, n) ==> p <= n
    decreases k
  {
    hide ParseRecord;
    if k > 0 && ParseRecord(data, p, t).Entry? {
      EndsForward(data, ParseRecord(data, p, t).next, t, k - 1, n);
    }
  }

  // ----- the order of the fields

  /** A directory on a network file system, with time 2.000000003, device 4, inode 5, name d and a file f in
      its listing: the bytes that are written. */
  lemma RecordExample()
    ensures RecordText(DirectoryInfo(true, true, 2, 3, 4, 5, [100], Listing([89, 102, 0, 0])))
         == [49, 0, 50, 0, 51, 0, 52, 0, 53, 0, 100, 0, 89, 102, 0, 0, 0]
  {
    ListingExample();
    hide Elements, Entries, Flat;
    assert Dec(1) == [49] && Dec(2) == [50] && Dec(3) == [51] && Dec(4) == [52] && Dec(5) == [53];
  }

  lemma ListingExample()
    ensures Flat(Elements(Entries([89, 102, 0, 0], 0))) == [89, 102, 0]
  {
    var l := [89, 102, 0, 0];
    assert NulEnd(l, 0) == 2 && l[0..2] == [89, 102];
    assert Entries(l, 3) == [];
    assert Entries(l, 0) == [[89, 102]];
    assert Elements([[89, 102]]) == [[89, 102]];
    assert Flat([]) == [];
  }
}

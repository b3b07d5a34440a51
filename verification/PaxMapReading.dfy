/** Decoding the sparse map of PAX format 1.0, character by character over the blocks (src/sparse.c). */
module PaxMapReading {
  import opened Bytes
  import opened DecimalText
  import opened TextLaws
  import opened RecordWriter
  import opened RecordReader
  import opened SparseFiles
  import opened PaxSparseMap

  // ----- what the text means

  /** What a line of the map denotes.  Eof: the archive ends inside the line. */
  datatype Number = Eof | Malformed | Overflow | Number(value: nat, next: nat)

  /** The index of the first newline at or after p, or lim. */
  function LineEnd(s: seq<byte>, p: nat, lim: nat): (e: nat)
    requires p <= lim <= |s|
    ensures p <= e <= lim && (e < lim ==> s[e] == NEWLINE)
    ensures forall k :: p <= k < e ==> s[k] != NEWLINE
    decreases lim - p
  {
    if p == lim || s[p] == NEWLINE then p else LineEnd(s, p + 1, lim)
  }

  lemma LineEndUnique(s: seq<byte>, p: nat, lim: nat, e: nat)
    requires p <= e <= lim <= |s| && (e < lim ==> s[e] == NEWLINE)
    requires forall k :: p <= k < e ==> s[k] != NEWLINE
    ensures LineEnd(s, p, lim) == e
  {
  }

  /** A line is a number if it has digits only and at least one of them. */
  function ParseNum(s: seq<byte>, p: nat, lim: nat, nmax: nat): (r: Number)
    requires p <= lim <= |s|
    ensures r.Number? ==> p < r.next <= lim && r.value <= nmax
  {
    var e := LineEnd(s, p, lim);
    if e == lim then Eof
    else if p == e || !DigitsAt(s, p, e) then Malformed
    else if nmax < DecVal(s, p, e) then Overflow
    else NumberAt(s, p, e)
  }

  function NumberAt(s: seq<byte>, p: nat, e: nat): Number
    requires DigitsAt(s, p, e)
  {
    DecValBound(s, p, e);
    Number(DecVal(s, p, e), e + 1)
  }

  datatype Decoded = Truncated | Invalid | Decoded(extents: seq<Extent>, next: nat)

  function Failed(n: Number): Decoded {
    if n.Eof? then Truncated else Invalid
  }

  /** One more extent: it must lie inside a file of the given size. */
  function ParseExtent(s: seq<byte>, d: Decoded, lim: nat, size: nat): (r: Decoded)
    requires lim <= |s| && (d.Decoded? ==> d.next <= lim)
    ensures r.Decoded? ==> r.next <= lim
  {
    if !d.Decoded? then d
    else
      var a := ParseNum(s, d.next, lim, size);
      if !a.Number? then Failed(a)
      else
        var b := ParseNum(s, a.next, lim, size - a.value);
        if !b.Number? then Failed(b)
        else Decoded(d.extents + [Extent(a.value, b.value)], b.next)
  }

  /** The first n extents from index p on. */
  function ParseExtents(s: seq<byte>, p: nat, lim: nat, size: nat, n: nat): (r: Decoded)
    requires p <= lim <= |s|
    ensures r.Decoded? ==> r.next <= lim
  {
    if n == 0 then Decoded([], p) else ParseExtent(s, ParseExtents(s, p, lim, size, n - 1), lim, size)
  }

  /** The whole map: the number of extents, and the extents. */
  function ParseMap(s: seq<byte>, p: nat, lim: nat, size: nat): Decoded
    requires p <= lim <= |s|
  {
    var n := ParseNum(s, p, lim, INTMAX_MAX);
    if n.Number? then ParseExtents(s, n.next, lim, size, n.value) else Failed(n)
  }

  // ----- reading it from the record buffer

  /** The end of the last whole block: a partial block at the end of the archive is not read. */
  function Readable(archive: seq<byte>): (lim: nat)
    ensures lim <= |archive| && lim == BLOCKSIZE * WholeBlocks(archive)
  {
    BLOCKSIZE * WholeBlocks(archive)
  }

  /** The current block is a block of the archive, of which bp bytes have been read. */
  ghost predicate Reading(r: Reader, bp: nat)
    reads r, r.record
  {
    r.Valid() && r.readFullRecords && r.cur < r.end && bp <= BLOCKSIZE
  }

  function Position(r: Reader, bp: nat): nat
    reads r
  {
    BLOCKSIZE * (r.start + r.cur) + bp
  }

  lemma PositionReadable(r: Reader, bp: nat)
    requires Reading(r, bp)
    ensures Position(r, bp) <= Readable(r.archive)
    ensures bp < BLOCKSIZE ==> Position(r, bp) < Readable(r.archive)
  {
    BufferedBlock(r.record[..], r.archive, r.start, r.cur, r.end);
  }

  /** *bp.ptr++, after a step to the next block if the current one is used up. */
  method GetChar(r: Reader, bp: nat) returns (bp': nat, c: byte, eof: bool)
    requires Reading(r, bp)
    modifies r, r.record
    ensures eof <==> old(Position(r, bp)) == Readable(r.archive)
    ensures !eof ==> Reading(r, bp') && bp' > 0 && Position(r, bp') == old(Position(r, bp)) + 1
    ensures !eof ==> old(Position(r, bp)) < Readable(r.archive) && c == r.archive[old(Position(r, bp))]
  {
    hide Reader.OnBoundary, Reader.PositionOk, WholeBlocks, Times;
    PositionReadable(r, bp);
    bp', c, eof := bp, NUL, false;
    if bp' == BLOCKSIZE {
      r.SetNextBlockAfter(BLOCKSIZE * r.cur);
      var found, fatal := r.FindNextBlock();
      if !found {
        return bp', c, true;
      }
      bp' := 0;
    }
    PositionReadable(r, bp');
    c := r.record[BLOCKSIZE * r.cur + bp'];
    bp' := bp' + 1;
  }

  /** What the loop of decode_num knows after the characters at indices p .. q. */
  ghost predicate Accumulated(s: seq<byte>, p: nat, q: nat, n: int, digit: bool, nondigit: bool, overflow: bool) {
    && p <= q <= |s|
    && (forall k :: p <= k < q ==> s[k] != NEWLINE)
    && (nondigit <==> !DigitsAt(s, p, q))
    && (!nondigit ==> (digit <==> p < q))
    && (!nondigit ==> 0 <= DecVal(s, p, q) && (overflow <==> INTMAX_MAX < DecVal(s, p, q)))
    && (!nondigit && !overflow ==> n == DecVal(s, p, q))
  }

  /** ckd_mul and ckd_add, with the digit d: the wrapped value, and whether it was wrapped. */
  function MulAdd(n: int, d: int): (int, bool) {
    var m := WrapSigned(n * 10);
    (WrapSigned(m + d), m != n * 10 || WrapSigned(m + d) != m + d)
  }

  lemma AccumulateDigit(s: seq<byte>, p: nat, q: nat, n: int, digit: bool, nondigit: bool, overflow: bool)
    requires Accumulated(s, p, q, n, digit, nondigit, overflow) && q < |s| && IsDigit(s[q])
    ensures var (m, o) := MulAdd(n, s[q] - ZERO); Accumulated(s, p, q + 1, m, true, nondigit, overflow || o)
  {
    assert DigitsAt(s, p, q + 1) <==> DigitsAt(s, p, q);
    assert DecVal(s, p, q + 1) == 10 * DecVal(s, p, q) + (s[q] - ZERO);
  }

  lemma AccumulateOther(s: seq<byte>, p: nat, q: nat, n: int, digit: bool, nondigit: bool, overflow: bool)
    requires Accumulated(s, p, q, n, digit, nondigit, overflow) && q < |s| && !IsDigit(s[q]) && s[q] != NEWLINE
    ensures Accumulated(s, p, q + 1, n, digit, true, overflow)
  {
    assert !DigitsAt(s, p, q + 1);
  }

  lemma AccumulateNothing(s: seq<byte>, p: nat)
    requires p <= |s|
    ensures Accumulated(s, p, p, 0, false, false, false)
  {
  }

  lemma AccumulatedNumber(s: seq<byte>, p: nat, q: nat, lim: nat, nmax: nat, n: int, digit: bool, nondigit: bool, overflow: bool)
    requires Accumulated(s, p, q, n, digit, nondigit, overflow) && q < lim <= |s| && s[q] == NEWLINE && nmax <= INTMAX_MAX
    ensures ParseNum(s, p, lim, nmax) == if !digit || nondigit then Malformed
                                         else if overflow || nmax < n then Overflow else NumberAt(s, p, q)
    ensures digit && !nondigit && !overflow ==> DigitsAt(s, p, q) && NumberAt(s, p, q) == Number(n, q + 1)
  {
    LineEndUnique(s, p, lim, q);
  }

  lemma AccumulatedEof(s: seq<byte>, p: nat, lim: nat, nmax: nat, n: int, digit: bool, nondigit: bool, overflow: bool)
    requires Accumulated(s, p, lim, n, digit, nondigit, overflow) && lim <= |s|
    ensures ParseNum(s, p, lim, nmax) == Eof
  {
    LineEndUnique(s, p, lim, lim);
  }

  /** decode_num: the number in the line at the read position, whatever block boundaries it crosses. */
  method DecodeNum(r: Reader, bp: nat, nmax: nat) returns (bp': nat, result: Number)
    requires Reading(r, bp) && nmax <= INTMAX_MAX
    modifies r, r.record
    ensures old(Position(r, bp)) <= Readable(r.archive)
    ensures result == ParseNum(r.archive, old(Position(r, bp)), Readable(r.archive), nmax)
    ensures result.Number? ==> Reading(r, bp') && bp' > 0 && Position(r, bp') == result.next
  {
    hide *;
    PositionReadable(r, bp);
    ghost var s, p, lim := r.archive, Position(r, bp), Readable(r.archive);
    var n, digit, nondigit, overflow := 0, false, false, false;
    AccumulateNothing(s, p);
    bp' := bp;
    while true
      invariant Reading(r, bp') && Position(r, bp') <= lim
      invariant Accumulated(s, p, Position(r, bp'), n, digit, nondigit, overflow)
      decreases lim - Position(r, bp')
    {
      ghost var q := Position(r, bp');
      var c, eof;
      bp', c, eof := GetChar(r, bp');
      if eof {
        AccumulatedEof(s, p, lim, nmax, n, digit, nondigit, overflow);
        return bp', Eof;
      }
      if c == NEWLINE {
        AccumulatedNumber(s, p, q, lim, nmax, n, digit, nondigit, overflow);
        break;
      }
      if IsDigit(c) {
        AccumulateDigit(s, p, q, n, digit, nondigit, overflow);
        var (m, o) := MulAdd(n, c - ZERO);
        n, digit, overflow := m, true, overflow || o;
      } else {
        AccumulateOther(s, p, q, n, digit, nondigit, overflow);
        nondigit := true;
      }
    }
    overflow := overflow || nmax < n;
    result := if !digit || nondigit then Malformed else if overflow then Overflow else Number(n, Position(r, bp'));
  }

  /** The two lines of an extent. */
  method DecodeExtent(r: Reader, bp: nat, size: nat, ghost extents: seq<Extent>) returns (bp': nat, result: Decoded)
    requires Reading(r, bp) && size <= INTMAX_MAX
    modifies r, r.record
    ensures old(Position(r, bp)) <= Readable(r.archive)
    ensures result.Decoded? ==> Reading(r, bp') && bp' > 0 && Position(r, bp') == result.next && |result.extents| == 1
    ensures ParseExtent(r.archive, Decoded(extents, old(Position(r, bp))), Readable(r.archive), size)
         == if result.Decoded? then Decoded(extents + result.extents, result.next) else result
  {
    hide ParseNum, LineEnd, DecVal, DigitsAt, NumberAt, Reader.Valid, Buffered, Reader.OnBoundary, Reader.PositionOk;
    var a, b;
    bp', a := DecodeNum(r, bp, size);
    if !a.Number? {
      return bp', Failed(a);
    }
    bp', b := DecodeNum(r, bp', size - a.value);
    if !b.Number? {
      return bp', Failed(b);
    }
    result := Decoded([Extent(a.value, b.value)], b.next);
  }

  lemma {:induction false} FailureStays(s: seq<byte>, p: nat, lim: nat, size: nat, i: nat, n: nat)
    requires p <= lim <= |s| && i <= n && !ParseExtents(s, p, lim, size, i).Decoded?
    ensures ParseExtents(s, p, lim, size, n) == ParseExtents(s, p, lim, size, i)
    decreases n
  {
    if i < n {
      FailureStays(s, p, lim, size, i, n - 1);
    }
  }

  /** pax_decode_header for format 1.0, after the header block has been marked as used.  A good map
      uses up the block in which its text ends. */
  method PaxDecodeMap(r: Reader, size: nat) returns (result: Decoded)
    requires r.Valid() && r.readFullRecords && BLOCKSIZE * r.Ordinal() <= Readable(r.archive) && size <= INTMAX_MAX
    modifies r, r.record
    ensures result == ParseMap(r.archive, BLOCKSIZE * old(r.Ordinal()), Readable(r.archive), size)
    ensures result.Decoded? ==> r.Valid() && r.Ordinal() == BlocksFor(result.next)
  {
    hide ParseNum, Reading, Position, BlocksFor, Reader.Valid, Readable, Reader.Ordinal, ParseExtent;
    ghost var s, p, lim := r.archive, BLOCKSIZE * r.Ordinal(), Readable(r.archive);
    var open := StartMap(r);
    if !open {
      ParseNothing(s, lim);
      return Truncated;
    }
    var bp, num := DecodeNum(r, 0, INTMAX_MAX);
    if !num.Number? {
      return Failed(num);
    }
    ghost var first := num.next;
    var extents, count := [], num.value;
    for i := 0 to count
      invariant Reading(r, bp) && bp > 0
      invariant ParseExtents(s, first, lim, size, i) == Decoded(extents, Position(r, bp))
    {
      bp, result := DecodeExtent(r, bp, size, extents);
      if !result.Decoded? {
        FailureStays(s, first, lim, size, i + 1, count);
        return;
      }
      extents := extents + result.extents;
    }
    result := Decoded(extents, Position(r, bp));
    EndMap(r, bp);
  }

  lemma ParseNothing(s: seq<byte>, lim: nat)
    requires lim <= |s|
    ensures ParseNum(s, lim, lim, INTMAX_MAX) == Eof
  {
  }

  method StartMap(r: Reader) returns (found: bool)
    requires r.Valid() && r.readFullRecords && BLOCKSIZE * r.Ordinal() <= Readable(r.archive)
    modifies r, r.record
    ensures found ==> Reading(r, 0) && Position(r, 0) == BLOCKSIZE * old(r.Ordinal())
    ensures !found ==> BLOCKSIZE * old(r.Ordinal()) == Readable(r.archive)
  {
    hide Reader.OnBoundary, Reader.PositionOk, Buffered, WholeBlocks;
    var fatal;
    found, fatal := r.FindNextBlock();
  }

  method EndMap(r: Reader, bp: nat)
    requires Reading(r, bp) && bp > 0
    modifies r
    ensures r.Valid() && r.Ordinal() == BlocksFor(old(Position(r, bp)))
  {
    hide Reader.OnBoundary, Reader.PositionOk, Buffered, WholeBlocks;
    r.SetNextBlockAfter(BLOCKSIZE * r.cur);
  }

  // ----- the decoder inverts the encoder

  /** The text t stands in s at index p, before lim. */
  ghost predicate Holds(s: seq<byte>, p: nat, lim: nat, t: seq<byte>) {
    Here(s, p, t) && p + |t| <= lim <= |s|
  }

  lemma HoldsParts(s: seq<byte>, p: nat, lim: nat, a: seq<byte>, b: seq<byte>)
    requires Holds(s, p, lim, a + b)
    ensures Holds(s, p, lim, a) && Holds(s, p + |a|, lim, b)
  {
    HereParts(s, p, a, b);
  }

  lemma LineParses(s: seq<byte>, p: nat, lim: nat, n: nat, nmax: nat)
    requires Holds(s, p, lim, Line(n)) && n <= nmax
    ensures ParseNum(s, p, lim, nmax) == Number(n, p + |Line(n)|)
  {
    var d := Dec(n);
    var e := p + |d|;
    HoldsParts(s, p, lim, d, [NEWLINE]);
    assert s[e] == s[e..e + 1][0];
    assert forall k :: p <= k < e ==> s[k] == s[p..e][k - p];
    LineEndUnique(s, p, lim, e);
    DecValCopy(s, p, e, d, 0);
    DecValOfDec(n);
  }

  lemma ExtentParses(s: seq<byte>, extents: seq<Extent>, p: nat, lim: nat, size: nat, e: Extent)
    requires Holds(s, p, lim, Line(e.offset) + Line(e.numbytes)) && e.offset + e.numbytes <= size
    ensures ParseExtent(s, Decoded(extents, p), lim, size)
         == Decoded(extents + [e], p + |Line(e.offset) + Line(e.numbytes)|)
  {
    hide Line, ParseNum;
    HoldsParts(s, p, lim, Line(e.offset), Line(e.numbytes));
    LineParses(s, p, lim, e.offset, size);
    LineParses(s, p + |Line(e.offset)|, lim, e.numbytes, size - e.offset);
  }

  lemma {:induction false} ExtentsParse(s: seq<byte>, p: nat, lim: nat, size: nat, map_: seq<Extent>, n: nat)
    requires n <= |map_| && Holds(s, p, lim, ExtentLines(map_, n))
    requires forall i :: 0 <= i < n ==> map_[i].offset + map_[i].numbytes <= size
    ensures ParseExtents(s, p, lim, size, n) == Decoded(map_[..n], p + |ExtentLines(map_, n)|)
  {
    hide Line, ParseExtent;
    if n > 0 {
      var e := map_[n - 1];
      Append(ExtentLines(map_, n - 1), Line(e.offset), Line(e.numbytes));
      HoldsParts(s, p, lim, ExtentLines(map_, n - 1), Line(e.offset) + Line(e.numbytes));
      ExtentsParse(s, p, lim, size, map_, n - 1);
      ExtentParses(s, map_[..n - 1], p + |ExtentLines(map_, n - 1)|, lim, size, e);
      assert map_[..n - 1] + [e] == map_[..n];
    }
  }

  /** The map that was written is decoded, however many extents it has, whatever follows it, and it ends
      in the last of the blocks that were written for it. */
  lemma MapRoundTrip(archive: seq<byte>, start: nat, size: nat, map_: seq<Extent>)
    requires |map_| <= INTMAX_MAX && (forall i :: 0 <= i < |map_| ==> map_[i].offset + map_[i].numbytes <= size)
    requires BLOCKSIZE * start + |Padded(MapText(map_))| <= |archive|
    requires archive[BLOCKSIZE * start..BLOCKSIZE * start + |Padded(MapText(map_))|] == Padded(MapText(map_))
    ensures BLOCKSIZE * start <= Readable(archive)
    ensures var d := ParseMap(archive, BLOCKSIZE * start, Readable(archive), size);
            d.Decoded? && d.extents == map_ && BLOCKSIZE * BlocksFor(d.next) == BLOCKSIZE * start + |Padded(MapText(map_))|
  {
    hide Line, ExtentLines, ParseExtents, ParseNum;
    var p, lim, count, lines := BLOCKSIZE * start, Readable(archive), Line(|map_|), ExtentLines(map_, |map_|);
    HoldsMap(archive, start, MapText(map_));
    HoldsParts(archive, p, lim, count, lines);
    LineParses(archive, p, lim, |map_|, INTMAX_MAX);
    ExtentsParse(archive, p + |count|, lim, size, map_, |map_|);
    assert map_[..|map_|] == map_;
    PaddedEnd(start, |MapText(map_)|);
  }

  lemma HoldsMap(archive: seq<byte>, start: nat, text: seq<byte>)
    requires BLOCKSIZE * start + |Padded(text)| <= |archive|
    requires archive[BLOCKSIZE * start..BLOCKSIZE * start + |Padded(text)|] == Padded(text)
    ensures Holds(archive, BLOCKSIZE * start, Readable(archive), text)
  {
    var p := BLOCKSIZE * start;
    assert archive[p..p + |Padded(text)|][..|text|] == archive[p..p + |text|];
    assert start + BlocksFor(|text|) <= WholeBlocks(archive);
  }

  lemma PaddedEnd(start: nat, n: nat)
    ensures BlocksFor(BLOCKSIZE * start + n) == start + BlocksFor(n)
  {
  }

  // ----- what is refused

  /** A line of digits denotes their value if it is not too large; a line with anything else in it, or with
      nothing in it, is malformed; without a newline the archive ends too early. */
  lemma LineSyntax(s: seq<byte>, p: nat, lim: nat, nmax: nat, line: seq<byte>)
    requires p + |line| <= lim <= |s| && s[p..p + |line|] == line && forall k :: 0 <= k < |line| ==> line[k] != 10
    requires p + |line| == lim || s[p + |line|] == 10
    ensures var r := ParseNum(s, p, lim, nmax);
            if p + |line| == lim then r == Eof
            else if line == [] || !Decimals(line) then r == Malformed
            else if nmax < DecimalNumber(line) then r == Overflow
            else r.Number? && r.value == DecimalNumber(line) && r.next == p + |line| + 1
  {
    hide DecVal, DecimalNumber;
    var e := p + |line|;
    forall k | p <= k < e ensures s[k] == line[k - p] {
      assert s[k] == s[p..e][k - p];
    }
    LineEndUnique(s, p, lim, e);
    assert Decimals(line) <==> DigitsAt(s, p, e) by {
      if DigitsAt(s, p, e) {
        forall k | 0 <= k < |line| ensures 48 <= line[k] <= 57 {
          assert IsDigit(s[p + k]);
        }
      }
    }
    DecimalNumberAt(s, p, line);
  }

  /** An extent is accepted if and only if both lines are numbers and it lies inside the file. */
  lemma ExtentAccepted(s: seq<byte>, p: nat, lim: nat, size: nat)
    requires p <= lim <= |s|
    ensures var a := ParseNum(s, p, lim, INTMAX_MAX);
            var b := if a.Number? then ParseNum(s, a.next, lim, INTMAX_MAX) else a;
            size <= INTMAX_MAX && a.Number? && b.Number? ==>
              ParseExtent(s, Decoded([], p), lim, size)
                == if a.value + b.value <= size then Decoded([Extent(a.value, b.value)], b.next) else Invalid
    ensures !ParseNum(s, p, lim, size).Number? ==> !ParseExtent(s, Decoded([], p), lim, size).Decoded?
  {
    hide DecVal, LineEnd;
    assert forall e: Extent :: [] + [e] == [e];
  }
}

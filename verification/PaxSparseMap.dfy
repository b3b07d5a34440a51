/** The sparse map in PAX format 1.0: decimal numbers, one a line, in front of the data (src/sparse.c). */
module PaxSparseMap {
  import opened Bytes
  import opened DecimalText
  import opened RecordWriter
  import opened SparseFiles

  function Line(n: nat): seq<byte> {
    Dec(n) + [NEWLINE]
  }

  /** The lines of the first n extents. */
  function ExtentLines(map_: seq<Extent>, n: nat): seq<byte>
    requires n <= |map_|
  {
    if n == 0 then []
    else ExtentLines(map_, n - 1) + Line(map_[n - 1].offset) + Line(map_[n - 1].numbytes)
  }

  function MapText(map_: seq<Extent>): seq<byte> {
    Line(|map_|) + ExtentLines(map_, |map_|)
  }

  // ----- the size computed beforehand

  /** floorlog10. */
  method FloorLog10(n: nat) returns (f: nat)
    ensures f + 1 == |Dec(n)|
  {
    var m := n;
    f := 0;
    while true
      invariant |Dec(n)| == f + |Dec(m)|
      decreases m
    {
      m := m / 10;
      if m == 0 {
        return;
      }
      f := f + 1;
    }
  }

  /** The size that pax_dump_header_1 adds to the member before writing is the size of the padded map. */
  method MapSize(map_: seq<Extent>) returns (size: nat)
    ensures size == |Padded(MapText(map_))|
  {
    hide Dec, Padded;
    var f := FloorLog10(|map_|);
    size := f + 2;
    for i := 0 to |map_|
      invariant size == |Line(|map_|)| + |ExtentLines(map_, i)|
    {
      f := FloorLog10(map_[i].offset);
      size := size + f + 2;
      f := FloorLog10(map_[i].numbytes);
      size := size + f + 2;
    }
    size := (size + BLOCKSIZE - 1) / BLOCKSIZE * BLOCKSIZE;
  }

  // ----- writing the map

  /** Everything stored so far when bp bytes of the current block are filled. */
  ghost function Stored(w: Writer, bp: nat): seq<byte>
    requires Open(w, bp)
    reads w, w.record
  {
    w.Contents() + w.record[BLOCKSIZE * w.cur..BLOCKSIZE * w.cur + bp]
  }

  ghost predicate Open(w: Writer, bp: nat)
    reads w, w.record
  {
    w.Valid() && w.cur < w.blockingFactor && bp <= BLOCKSIZE
  }

  /** Step to the next block if the current one is full. */
  method NextIfFull(w: Writer, bp: nat) returns (bp': nat)
    requires Open(w, bp)
    modifies w, w.record
    ensures Open(w, bp') && bp' < BLOCKSIZE && Stored(w, bp') == old(Stored(w, bp))
  {
    hide Flatten;
    bp' := bp;
    if bp == BLOCKSIZE {
      ghost var c := w.Contents();
      ghost var tail := w.record[BLOCKSIZE * w.cur..BLOCKSIZE * w.cur + bp];
      w.cur := w.cur + 1;
      assert w.record[..BLOCKSIZE * w.cur] == w.record[..BLOCKSIZE * (w.cur - 1)] + tail;
      Append(Flatten(w.media), w.record[..BLOCKSIZE * (w.cur - 1)], tail);
      w.FindNextBlock();
      bp' := 0;
      assert w.record[BLOCKSIZE * w.cur..BLOCKSIZE * w.cur] == [];
    }
  }

  method PutChar(w: Writer, bp: nat, c: byte) returns (bp': nat)
    requires Open(w, bp)
    modifies w, w.record
    ensures Open(w, bp') && bp' > 0 && Stored(w, bp') == old(Stored(w, bp)) + [c]
  {
    hide Flatten;
    bp' := NextIfFull(w, bp);
    var at := BLOCKSIZE * w.cur;
    ghost var before, tail := w.record[..at], w.record[at..at + bp'];
    w.record[at + bp'] := c;
    bp' := bp' + 1;
    assert w.record[..at] == before;
    assert w.record[at..at + bp'] == tail + [c];
  }

  /** dump_str_nl: the string and a newline, over as many blocks as it takes. */
  method DumpStrNl(w: Writer, bp: nat, str: seq<byte>) returns (bp': nat)
    requires Open(w, bp)
    modifies w, w.record
    ensures Open(w, bp') && bp' > 0 && Stored(w, bp') == old(Stored(w, bp)) + str + [NEWLINE]
  {
    hide Stored;
    bp' := bp;
    assert old(Stored(w, bp)) + str[..0] == old(Stored(w, bp));
    for i := 0 to |str|
      invariant Open(w, bp') && Stored(w, bp') == old(Stored(w, bp)) + str[..i]
    {
      bp' := PutChar(w, bp', str[i]);
      assert str[..i + 1] == str[..i] + [str[i]];
    }
    assert str[..|str|] == str;
    bp' := PutChar(w, bp', NEWLINE);
  }

  /** The end of pax_dump_header_1: zero the rest of the block and mark it as used. */
  method FinishMap(w: Writer, bp: nat, ghost start: seq<byte>, ghost text: seq<byte>)
    requires Open(w, bp) && bp > 0 && Stored(w, bp) == start + text
    requires |start| % BLOCKSIZE == 0
    modifies w, w.record
    ensures w.Valid() && w.Contents() == start + Padded(text)
  {
    hide Flatten, Padded;
    ghost var c := w.Contents();
    ContentsAligned(w);
    var at := BLOCKSIZE * w.cur;
    ghost var before, tail := w.record[..at], w.record[at..at + bp];
    forall k | bp <= k < BLOCKSIZE {
      w.record[at + k] := NUL;
    }
    w.cur := w.cur + 1;
    assert w.record[..BLOCKSIZE * w.cur] == before + (tail + Zeros(BLOCKSIZE - bp));
    Append(Flatten(w.media), before, tail + Zeros(BLOCKSIZE - bp));
    PadTail(start, text, c, tail);
  }

  lemma PadTail(start: seq<byte>, text: seq<byte>, c: seq<byte>, tail: seq<byte>)
    requires c + tail == start + text && |c| % BLOCKSIZE == 0 && |start| % BLOCKSIZE == 0 && 0 < |tail| <= BLOCKSIZE
    ensures c + (tail + Zeros(BLOCKSIZE - |tail|)) == start + Padded(text)
  {
    PadLength(|start|, |text|, |c|, |tail|);
    assert c + (tail + Zeros(BLOCKSIZE - |tail|)) == start + text + Zeros(BLOCKSIZE - |tail|);
  }

  lemma PadLength(s: nat, t: nat, c: nat, n: nat)
    requires c + n == s + t && c % BLOCKSIZE == 0 && s % BLOCKSIZE == 0 && 0 < n <= BLOCKSIZE
    ensures BLOCKSIZE * BlocksFor(t) - t == BLOCKSIZE - n
  {
    hide BlocksFor;
    BlocksAdd(s, t);
    BlocksAdd(c, n);
    assert BlocksFor(n) == 1;
  }

  /** The map part of pax_dump_header_1. */
  method PaxDumpMap(w: Writer, map_: seq<Extent>)
    requires w.Valid()
    modifies w, w.record
    ensures w.Valid() && w.Contents() == old(w.Contents()) + Padded(MapText(map_))
  {
    hide Stored, Dec, Padded, Flatten;
    ghost var start := w.Contents();
    ContentsAligned(w);
    w.FindNextBlock();
    StoredNothing(w);
    var bp := DumpStrNl(w, 0, Dec(|map_|));
    FirstLine(start, map_);
    for i := 0 to |map_|
      invariant Open(w, bp) && bp > 0 && Stored(w, bp) == start + (Line(|map_|) + ExtentLines(map_, i))
    {
      bp := DumpStrNl(w, bp, Dec(map_[i].offset));
      bp := DumpStrNl(w, bp, Dec(map_[i].numbytes));
      TwoLines(start, Line(|map_|), map_, i);
    }
    FinishMap(w, bp, start, MapText(map_));
  }

  lemma StoredNothing(w: Writer)
    requires Open(w, 0)
    ensures Stored(w, 0) == w.Contents()
  {
    hide Flatten;
  }

  lemma FirstLine(start: seq<byte>, map_: seq<Extent>)
    ensures start + Dec(|map_|) + [NEWLINE] == start + (Line(|map_|) + ExtentLines(map_, 0))
  {
    hide Dec;
  }

  lemma TwoLines(start: seq<byte>, first: seq<byte>, map_: seq<Extent>, i: nat)
    requires i < |map_|
    ensures start + (first + ExtentLines(map_, i)) + Dec(map_[i].offset) + [NEWLINE] + Dec(map_[i].numbytes) + [NEWLINE]
         == start + (first + ExtentLines(map_, i + 1))
  {
    hide Dec;
    var lines, a, b := ExtentLines(map_, i), Dec(map_[i].offset), Dec(map_[i].numbytes);
    assert ExtentLines(map_, i + 1) == lines + (a + [NEWLINE]) + (b + [NEWLINE]);
    Regroup(start, first, lines, a, [NEWLINE], b);
  }

  lemma Regroup(s: seq<byte>, f: seq<byte>, l: seq<byte>, a: seq<byte>, n: seq<byte>, b: seq<byte>)
    ensures s + (f + l) + a + n + b + n == s + (f + (l + (a + n) + (b + n)))
  {
  }

  /** One extent of two bytes at offset 1: three lines, the number of extents, its offset and its length. */
  lemma MapExample()
    ensures MapText([Extent(1, 2)]) == [49, 10, 49, 10, 50, 10]
  {
    assert ExtentLines([Extent(1, 2)], 0) == [];
  }
}

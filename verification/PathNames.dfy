/** In-place normalisation of file names: normalize_filename_x of src/misc.c. */
module PathNames {
  import opened Bytes

  // ----- what the code does, on values

  /** The index after the slashes that start at i. */
  function SkipSlashes(s: seq<byte>, i: nat): (j: nat)
    requires i <= |s|
    ensures i <= j <= |s| && At(s, j) != SLASH
    decreases |s| - i
  {
    if At(s, i) == SLASH then SkipSlashes(s, i + 1) else i
  }

  /** The index after the "." components, each with its slashes, that start at i. */
  function SkipDots(s: seq<byte>, i: nat): (j: nat)
    requires i <= |s|
    ensures i <= j <= |s|
    ensures !(At(s, j) == DOT && At(s, j + 1) == SLASH)
    ensures i < j ==> At(s, j) != SLASH
    decreases |s| - i
  {
    if At(s, i) == DOT && At(s, i + 1) == SLASH then SkipDots(s, SkipSlashes(s, i + 2)) else i
  }

  /** Where a component starts that must be kept, or the end. */
  function Skip(s: seq<byte>, i: nat): (j: nat)
    requires i <= |s|
    ensures i <= j <= |s| && Clean(s, j)
  {
    SkipDots(s, SkipSlashes(s, i))
  }

  predicate Clean(s: seq<byte>, i: nat) {
    At(s, i) != SLASH && !(At(s, i) == DOT && At(s, i + 1) == SLASH)
  }

  /** What the copying loop outputs from index i on. */
  function Copy(s: seq<byte>, i: nat): (o: seq<byte>)
    requires i <= |s|
    ensures |o| <= |s| - i
    decreases |s| - i
  {
    if i == |s| then []
    else [s[i]] + Copy(s, if s[i] == SLASH then Skip(s, i + 1) else i + 1)
  }

  /** The final step: drop a last "." after a slash, then a last slash, if anything is left. */
  function TrimEnd(o: seq<byte>): (r: seq<byte>)
    ensures r <= o
  {
    if |o| < 2 then o
    else
      var n := if o[|o| - 1] == DOT && o[|o| - 2] == SLASH then |o| - 1 else |o|;
      var m := if 2 < n + 1 && o[n - 1] == SLASH then n - 1 else n;
      o[..m]
  }

  function Normal(s: seq<byte>): seq<byte> {
    var i := SkipDots(s, 0);
    TrimEnd(if 0 < i == |s| then [DOT] else Copy(s, i))
  }

  /** From index at on, the buffer still holds the string s and its terminator. */
  ghost predicate Holds(f: seq<byte>, at: nat, s: seq<byte>) {
    && at <= |s| < |f|
    && f[|s|] == NUL
    && forall k :: at <= k < |s| ==> f[k] == s[k] != NUL
  }

  /** slashlen and dotslashlen, as loops over the buffer. */
  method SlashLen(f: seq<byte>, at: nat, ghost s: seq<byte>) returns (i: nat)
    requires Holds(f, at, s)
    ensures at + i == SkipSlashes(s, at)
  {
    i := 0;
    while f[at + i] == SLASH
      invariant at + i <= |s|
      invariant SkipSlashes(s, at) == SkipSlashes(s, at + i)
      decreases |s| - i
    {
      i := i + 1;
    }
  }

  method DotSlashLen(f: seq<byte>, at: nat, ghost s: seq<byte>) returns (i: nat)
    requires Holds(f, at, s)
    ensures at + i == SkipDots(s, at)
  {
    hide SkipDots, SkipSlashes;
    i := 0;
    while f[at + i] == DOT && f[at + i + 1] == SLASH
      invariant at + i <= |s|
      invariant SkipDots(s, at) == SkipDots(s, at + i)
      decreases |s| - i
    {
      DotsStep(s, at + i);
      var n := SlashLen(f, at + i + 2, s);
      i := i + 2 + n;
    }
    DotsStep(s, at + i);
  }

  lemma DotsStep(s: seq<byte>, i: nat)
    requires i <= |s|
    ensures if At(s, i) == DOT && At(s, i + 1) == SLASH
            then i + 2 <= |s| && SkipDots(s, i) == SkipDots(s, SkipSlashes(s, i + 2)) else SkipDots(s, i) == i
  {
    hide SkipSlashes;
  }

  /** out, from index p on, is what remains to be copied from index q of s. */
  ghost predicate Pending(s: seq<byte>, q: nat, out: seq<byte>, p: nat) {
    q <= |s| && p <= |out| && out[p..] == Copy(s, q)
  }

  lemma PendingStep(s: seq<byte>, q: nat, out: seq<byte>, p: nat)
    requires Pending(s, q, out, p)
    ensures q == |s| ==> p == |out|
    ensures q < |s| ==> p < |out| && out[p] == s[q]
    ensures q < |s| ==> Pending(s, if s[q] == SLASH then Skip(s, q + 1) else q + 1, out, p + 1)
  {
    if q < |s| {
      var next := if s[q] == SLASH then Skip(s, q + 1) else q + 1;
      assert out[p..] == [s[q]] + Copy(s, next);
      assert out[p..][0] == out[p] && out[p..][1..] == out[p + 1..];
    }
  }

  /** What the buffer holds while copying: out up to p, and s from q on, with p <= q. */
  ghost predicate Copying(f: seq<byte>, p: nat, q: nat, out: seq<byte>, s: seq<byte>, tail: seq<byte>) {
    && p <= q && Pending(s, q, out, p) && Holds(f, q, s)
    && (forall k :: 0 <= k < p ==> f[k] == out[k])
    && f[|s| + 1..] == tail
  }

  lemma CopyingStep(f: seq<byte>, p: nat, q: nat, out: seq<byte>, s: seq<byte>, tail: seq<byte>)
    requires Copying(f, p, q, out, s, tail)
    ensures f[q] == NUL ==> q == |s| && p == |out|
    ensures f[q] != NUL ==>
              && q < |s| && f[q] == s[q]
              && Copying(f[p := f[q]], p + 1, if f[q] == SLASH then Skip(s, q + 1) else q + 1, out, s, tail)
  {
    PendingStep(s, q, out, p);
    assert f[p := f[q]][|s| + 1..] == f[|s| + 1..];
  }

  method SkipRedundant(f: seq<byte>, at: nat, ghost s: seq<byte>) returns (q: nat)
    requires Holds(f, at, s)
    ensures q == Skip(s, at)
  {
    var n := SlashLen(f, at, s);
    q := at + n;
    n := DotSlashLen(f, q, s);
    q := q + n;
  }

  /** The copying loop: the read position q never falls behind the write position p. */
  method CopyComponents(a: array<byte>, start: nat, ghost s: seq<byte>) returns (p: nat)
    requires Holds(a[..], start, s)
    modifies a
    ensures p == |Copy(s, start)| + 1 <= |s| + 1
    ensures a[..p - 1] == Copy(s, start) && a[p - 1] == NUL
    ensures a[|s| + 1..] == old(a[|s| + 1..])
  {
    hide Copy, SkipDots, SkipSlashes;
    ghost var out := Copy(s, start);
    ghost var tail := a[|s| + 1..];
    p := 0;
    var q := start;
    while true
      invariant Copying(a[..], p, q, out, s, tail)
      decreases |s| - q
    {
      CopyingStep(a[..], p, q, out, s, tail);
      var c := a[q];
      ghost var f := a[..];
      a[p] := c;
      assert a[..] == f[p := c];
      p, q := p + 1, q + 1;
      if c == NUL {
        break;
      }
      if c == SLASH {
        q := SkipRedundant(a[..], q, s);
      }
    }
  }

  method TrimInPlace(a: array<byte>, end: nat, ghost out: seq<byte>, ghost keep: nat) returns (p: nat)
    requires 1 <= end <= keep <= a.Length && a[..end - 1] == out && a[end - 1] == NUL
    modifies a
    ensures 1 <= p <= end && a[..p - 1] == TrimEnd(out) && a[p - 1] == NUL
    ensures a[keep..] == old(a[keep..])
  {
    p := end;
    assert forall k :: 0 <= k < end - 1 ==> a[k] == out[k];
    if 2 < p {
      if a[p - 2] == DOT && a[p - 3] == SLASH {
        p := p - 1;
      }
      if 2 < p && a[p - 2] == SLASH {
        p := p - 1;
      }
      a[p - 1] := NUL;
    }
  }

  /** The name without its redundant components: a lone dot if nothing follows them. */
  method CopyOrDot(a: array<byte>, ghost s: seq<byte>) returns (p: nat)
    requires Holds(a[..], 0, s)
    modifies a
    ensures 1 <= p <= |s| + 1 <= a.Length
    ensures TrimEnd(a[..p - 1]) == Normal(s) && a[p - 1] == NUL
    ensures a[|s| + 1..] == old(a[|s| + 1..])
  {
    hide Copy, SkipDots, TrimEnd;
    var q := DotSlashLen(a[..], 0, s);
    if 0 < q && a[q] == NUL {
      assert q == |s|;
      a[0], a[1], p := DOT, NUL, 2;
      assert a[..1] == [DOT];
    } else {
      assert !(0 < q == |s|);
      p := CopyComponents(a, q, s);
    }
  }

  /** normalize_filename_x rewrites the buffer in place and touches nothing beyond the old
      terminator. */
  method NormalizeFilename(a: array<byte>, ghost s: seq<byte>) returns (n: nat)
    requires Holds(a[..], 0, s)
    modifies a
    ensures n == |Normal(s)| <= |s|
    ensures a[..n] == Normal(s) && a[n] == NUL
    ensures a[|s| + 1..] == old(a[|s| + 1..])
  {
    hide Normal, TrimEnd, Holds;
    var p := CopyOrDot(a, s);
    p := TrimInPlace(a, p, a[..p - 1], |s| + 1);
    n := p - 1;
  }
}

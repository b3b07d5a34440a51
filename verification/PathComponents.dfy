/** What normalisation means: the components of a file name other than "." decide the result. */
module PathComponents {
  import opened Bytes
  import opened PathNames

  /** The index of the slash, or the end, that closes the component starting at i. */
  function CompEnd(s: seq<byte>, i: nat): (j: nat)
    requires i <= |s|
    ensures i <= j <= |s| && (j < |s| ==> s[j] == SLASH)
    ensures forall k :: i <= k < j ==> s[k] != SLASH
    decreases |s| - i
  {
    if i < |s| && s[i] != SLASH then CompEnd(s, i + 1) else i
  }

  predicate Redundant(c: seq<byte>) {
    c == [] || c == [DOT]
  }

  /** The components from index i on, without the empty ones and the "." ones. */
  function Comps(s: seq<byte>, i: nat): (cs: seq<seq<byte>>)
    requires i <= |s|
    ensures forall k :: 0 <= k < |cs| ==> IsComponent(cs[k])
    decreases |s| - i
  {
    if i == |s| then []
    else
      var j := CompEnd(s, i);
      var rest := if j < |s| then Comps(s, j + 1) else [];
      if Redundant(s[i..j]) then rest else [s[i..j]] + rest
  }

  ghost predicate IsComponent(c: seq<byte>) {
    !Redundant(c) && forall k :: 0 <= k < |c| ==> c[k] != SLASH
  }

  function Join(cs: seq<seq<byte>>): seq<byte> {
    if cs == [] then []
    else if |cs| == 1 then cs[0]
    else cs[0] + [SLASH] + Join(cs[1..])
  }

  /** The normal form, from absoluteness and components alone. */
  function Canonical(s: seq<byte>): seq<byte> {
    var cs := Comps(s, 0);
    if At(s, 0) == SLASH then [SLASH] + Join(cs)
    else if s == [] then []
    else if cs == [] then [DOT]
    else Join(cs)
  }

  // ----- skipping loses no component

  lemma EmptyComponent(s: seq<byte>, i: nat)
    requires i < |s| && s[i] == SLASH
    ensures Comps(s, i) == Comps(s, i + 1)
  {
    assert CompEnd(s, i) == i;
  }

  lemma {:induction false} SlashesHoldNothing(s: seq<byte>, i: nat)
    requires i <= |s|
    ensures Comps(s, i) == Comps(s, SkipSlashes(s, i))
    decreases |s| - i
  {
    if At(s, i) == SLASH {
      EmptyComponent(s, i);
      SlashesHoldNothing(s, i + 1);
      assert SkipSlashes(s, i) == SkipSlashes(s, i + 1);
    }
  }

  lemma {:induction false} DotsHoldNothing(s: seq<byte>, i: nat)
    requires i <= |s|
    ensures Comps(s, i) == Comps(s, SkipDots(s, i))
    decreases |s| - i
  {
    if At(s, i) == DOT && At(s, i + 1) == SLASH {
      DotsHoldNothing(s, SkipSlashes(s, i + 2));
      SlashesHoldNothing(s, i + 2);
      assert CompEnd(s, i) == i + 1;
      assert s[i..i + 1] == [DOT];
    }
  }

  lemma SkipHoldsNothing(s: seq<byte>, i: nat)
    requires i <= |s|
    ensures Comps(s, i) == Comps(s, Skip(s, i))
  {
    SlashesHoldNothing(s, i);
    DotsHoldNothing(s, SkipSlashes(s, i));
  }

  // ----- the copied text is the joined components and a removable tail

  lemma CopyChar(s: seq<byte>, i: nat)
    requires i < |s| && s[i] != SLASH
    ensures Copy(s, i) == [s[i]] + Copy(s, i + 1) && CompEnd(s, i) == CompEnd(s, i + 1)
  {
    hide Skip;
  }

  lemma CopyStop(s: seq<byte>, i: nat)
    requires i <= |s| && (i < |s| ==> s[i] == SLASH)
    ensures CompEnd(s, i) == i
    ensures Copy(s, i) == if i < |s| then [SLASH] + Copy(s, Skip(s, i + 1)) else []
  {
    hide Skip;
  }

  lemma WordMore(s: seq<byte>, i: nat, j: nat, rest: seq<byte>)
    requires i < j <= |s|
    ensures [s[i]] + (s[i + 1..j] + rest) == s[i..j] + rest
  {
    assert s[i..j] == [s[i]] + s[i + 1..j];
  }

  lemma {:induction false} CopyWord(s: seq<byte>, i: nat)
    requires i <= |s|
    ensures var j := CompEnd(s, i);
            Copy(s, i) == s[i..j] + if j < |s| then [SLASH] + Copy(s, Skip(s, j + 1)) else []
    decreases |s| - i
  {
    hide Skip, Copy, CompEnd;
    if i < |s| && s[i] != SLASH {
      CopyWord(s, i + 1);
      CopyChar(s, i);
      var j := CompEnd(s, i);
      WordMore(s, i, j, if j < |s| then [SLASH] + Copy(s, Skip(s, j + 1)) else []);
    } else {
      CopyStop(s, i);
    }
  }

  predicate IsTail(t: seq<byte>) {
    t == [] || t == [SLASH] || t == [SLASH, DOT]
  }

  /** Only a final "." stands at i. */
  predicate LastDot(s: seq<byte>, i: nat) {
    i + 1 == |s| && s[i] == DOT
  }

  lemma FirstComponent(s: seq<byte>, i: nat)
    requires i < |s| && Clean(s, i) && !LastDot(s, i)
    ensures var j := CompEnd(s, i);
            i < j && IsComponent(s[i..j])
            && Comps(s, i) == [s[i..j]] + if j < |s| then Comps(s, j + 1) else []
  {
    var j := CompEnd(s, i);
    assert CompEnd(s, i) == CompEnd(s, i + 1);
    assert |s[i..j]| == j - i && s[i..j][0] == s[i];
  }

  lemma {:induction false} CopyShape(s: seq<byte>, i: nat) returns (tail: seq<byte>)
    requires i < |s| && Clean(s, i) && !LastDot(s, i)
    ensures IsTail(tail) && Comps(s, i) != []
    ensures Copy(s, i) == Join(Comps(s, i)) + tail
    decreases |s| - i
  {
    hide Copy, Comps, Skip, CompEnd, Join, IsComponent;
    FirstComponent(s, i);
    CopyWord(s, i);
    var j := CompEnd(s, i);
    if j == |s| {
      tail := [];
      JoinOne(s[i..j]);
    } else {
      SkipHoldsNothing(s, j + 1);
      var k := Skip(s, j + 1);
      if k < |s| && !LastDot(s, k) {
        tail := CopyShape(s, k);
        JoinCons(s[i..j], Comps(s, k), tail);
      } else {
        tail := LastTail(s, i, j, k);
      }
    }
  }

  lemma LastTail(s: seq<byte>, i: nat, j: nat, k: nat) returns (tail: seq<byte>)
    requires i <= j < k <= |s| && (k == |s| || LastDot(s, k))
    ensures IsTail(tail) && Comps(s, k) == []
    ensures s[i..j] + ([SLASH] + Copy(s, k)) == Join([s[i..j]] + Comps(s, k)) + tail
  {
    if k < |s| {
      LastDotCopy(s, k);
    }
    tail := [SLASH] + Copy(s, k);
  }

  lemma LastDotCopy(s: seq<byte>, k: nat)
    requires LastDot(s, k)
    ensures Copy(s, k) == [DOT] && Comps(s, k) == []
  {
    assert Copy(s, k + 1) == [];
    assert CompEnd(s, k + 1) == k + 1;
    assert s[k..k + 1] == [DOT];
  }

  lemma JoinOne(c: seq<byte>)
    ensures Join([c] + []) == c && c + [] == c
  {
  }

  lemma JoinCons(c: seq<byte>, cs: seq<seq<byte>>, tail: seq<byte>)
    requires cs != []
    ensures c + ([SLASH] + (Join(cs) + tail)) == Join([c] + cs) + tail
  {
    assert ([c] + cs)[1..] == cs;
  }

  // ----- trimming removes exactly the tail

  predicate EndsClean(o: seq<byte>) {
    |o| > 0 && o[|o| - 1] != SLASH && (o[|o| - 1] == DOT && |o| > 1 ==> o[|o| - 2] != SLASH)
  }

  lemma {:induction false} JoinEndsClean(cs: seq<seq<byte>>)
    requires cs != [] && forall k :: 0 <= k < |cs| ==> IsComponent(cs[k])
    ensures EndsClean(Join(cs)) && Join(cs)[0] != SLASH && Join(cs) != [DOT]
  {
    if |cs| > 1 {
      JoinEndsClean(cs[1..]);
    } else {
      assert IsComponent(cs[0]);
    }
    assert IsComponent(cs[0]) && cs[0] != [];
  }

  lemma TrimRelative(o: seq<byte>, tail: seq<byte>)
    requires EndsClean(o) && IsTail(tail)
    ensures TrimEnd(o + tail) == o
  {
  }

  lemma TrimAbsolute(o: seq<byte>, tail: seq<byte>)
    requires EndsClean(o) && o[0] != SLASH && o != [DOT] && IsTail(tail)
    ensures TrimEnd([SLASH] + (o + tail)) == [SLASH] + o
  {
    var r := [SLASH] + o;
    assert EndsClean(r);
    assert [SLASH] + (o + tail) == r + tail;
    TrimRelative(r, tail);
  }

  /** The normal form depends on absoluteness and components alone. */
  lemma NormalIsCanonical(s: seq<byte>)
    ensures Normal(s) == Canonical(s)
  {
    var i := SkipDots(s, 0);
    DotsHoldNothing(s, 0);
    if At(s, 0) == SLASH {
      NormalAbsolute(s);
    } else if i < |s| && !LastDot(s, i) {
      assert Clean(s, i);
      var tail := CopyShape(s, i);
      JoinEndsClean(Comps(s, i));
      TrimRelative(Join(Comps(s, i)), tail);
    } else if i < |s| {
      LastDotCopy(s, i);
    }
  }

  lemma NormalAbsolute(s: seq<byte>)
    requires At(s, 0) == SLASH
    ensures Normal(s) == [SLASH] + Join(Comps(s, 0))
  {
    var k := Skip(s, 1);
    AbsoluteStart(s);
    if k < |s| && !LastDot(s, k) {
      var tail := CopyShape(s, k);
      JoinEndsClean(Comps(s, k));
      TrimAbsolute(Join(Comps(s, k)), tail);
    } else if k < |s| {
      LastDotCopy(s, k);
      assert TrimEnd([SLASH, DOT]) == [SLASH];
    }
  }

  lemma AbsoluteStart(s: seq<byte>)
    requires At(s, 0) == SLASH
    ensures Comps(s, 0) == Comps(s, Skip(s, 1))
    ensures Normal(s) == TrimEnd([SLASH] + Copy(s, Skip(s, 1)))
  {
    SkipHoldsNothing(s, 1);
    assert CompEnd(s, 0) == 0;
  }

  // ----- the normal form has the same components, and normalising again changes nothing

  lemma CompEndIs(s: seq<byte>, i: nat, j: nat)
    requires i <= j <= |s| && (j < |s| ==> s[j] == SLASH)
    requires forall k :: i <= k < j ==> s[k] != SLASH
    ensures CompEnd(s, i) == j
  {
  }

  lemma {:induction false} CompsOfJoin(t: seq<byte>, i: nat, cs: seq<seq<byte>>)
    requires i <= |t| && t[i..] == Join(cs)
    requires forall k :: 0 <= k < |cs| ==> IsComponent(cs[k])
    ensures Comps(t, i) == cs
    decreases |cs|
  {
    hide CompEnd, Comps, IsComponent;
    if cs == [] {
      assert i == |t|;
      CompsAtEnd(t);
    } else if |cs| == 1 {
      CompsStep(t, i, cs[0], []);
    } else {
      CompsStep(t, i, cs[0], [SLASH] + Join(cs[1..]));
      CompsOfJoin(t, i + |cs[0]| + 1, cs[1..]);
    }
  }

  lemma CompsAtEnd(t: seq<byte>)
    ensures Comps(t, |t|) == []
  {
  }

  /** A component c that the end or a slash follows is the first one found. */
  lemma CompsStep(t: seq<byte>, i: nat, c: seq<byte>, after: seq<byte>)
    requires i <= |t| && t[i..] == c + after && IsComponent(c)
    requires after == [] || after[0] == SLASH
    ensures var j := i + |c|;
            if after == [] then Comps(t, i) == [c]
            else j < |t| && t[j + 1..] == after[1..] && Comps(t, i) == [c] + Comps(t, j + 1)
  {
    var j := i + |c|;
    assert forall k :: i <= k < |t| ==> t[k] == t[i..][k - i];
    assert t[i..j] == c;
    CompEndIs(t, i, j);
  }

  /** Absoluteness, emptiness and components survive normalisation. */
  lemma NormalKeepsComponents(s: seq<byte>)
    ensures At(Normal(s), 0) == SLASH <==> At(s, 0) == SLASH
    ensures Normal(s) == [] <==> s == []
    ensures Comps(Normal(s), 0) == Comps(s, 0)
  {
    NormalIsCanonical(s);
    var t, cs := Canonical(s), Comps(s, 0);
    if cs != [] {
      JoinEndsClean(cs);
    }
    if At(s, 0) == SLASH {
      assert t[1..] == Join(cs);
      CompsOfJoin(t, 1, cs);
      EmptyComponent(t, 0);
    } else if cs != [] {
      assert t[0..] == t;
      CompsOfJoin(t, 0, cs);
    } else if s != [] {
      LastDotCopy(t, 0);
    }
  }

  lemma NormalIdempotent(s: seq<byte>)
    ensures Normal(Normal(s)) == Normal(s)
  {
    NormalIsCanonical(s);
    NormalKeepsComponents(s);
    NormalIsCanonical(Normal(s));
  }

  /** No double slash, no trailing slash but the root, no "." component but the whole name. */
  ghost predicate Tidy(s: seq<byte>) {
    && (forall i :: 0 <= i < |s| - 1 && s[i] == SLASH ==> s[i + 1] != SLASH)
    && (s != [] && s[|s| - 1] == SLASH ==> s == [SLASH])
    && (s != [DOT] ==> TidyDots(s))
  }

  ghost predicate TidyDots(s: seq<byte>) {
    forall i :: 0 <= i < |s| ==> TidyDot(s, i)
  }

  ghost predicate TidyDot(s: seq<byte>, i: nat)
    requires i < |s|
  {
    s[i] == DOT && (i == 0 || s[i - 1] == SLASH) ==> i + 1 < |s| && s[i + 1] != SLASH
  }

  lemma {:induction false} JoinTidy(cs: seq<seq<byte>>)
    requires cs != [] && forall k :: 0 <= k < |cs| ==> IsComponent(cs[k])
    ensures Tidy(Join(cs)) && TidyDots(Join(cs))
  {
    JoinEndsClean(cs);
    assert IsComponent(cs[0]);
    if |cs| > 1 {
      JoinTidy(cs[1..]);
      JoinEndsClean(cs[1..]);
      TidyCons(cs[0], Join(cs[1..]));
    }
  }

  lemma TidyCons(c: seq<byte>, o: seq<byte>)
    requires IsComponent(c) && Tidy(o) && TidyDots(o) && EndsClean(o) && o[0] != SLASH
    ensures Tidy(c + [SLASH] + o) && TidyDots(c + [SLASH] + o)
  {
    var r, n := c + [SLASH] + o, |c| + 1;
    assert forall i :: n <= i < |r| ==> r[i] == o[i - n];
    assert forall i :: 0 <= i < |c| ==> r[i] == c[i] != SLASH;
    assert c[0] != DOT || |c| > 1;
    TidyDotsCons(c, o);
  }

  lemma TidyDotsCons(c: seq<byte>, o: seq<byte>)
    requires IsComponent(c) && TidyDots(o)
    ensures TidyDots(c + [SLASH] + o)
  {
    var r, n := c + [SLASH] + o, |c| + 1;
    assert forall i :: 0 <= i < |c| ==> r[i] == c[i] != SLASH;
    forall i | 0 <= i < |r|
      ensures TidyDot(r, i)
    {
      if i >= n {
        assert TidyDot(o, i - n);
        assert r[i] == o[i - n] && (i > n ==> r[i - 1] == o[i - n - 1]);
        assert i + 1 < |r| ==> r[i + 1] == o[i - n + 1];
      }
    }
  }

  /** Normalisation leaves nothing redundant. */
  lemma NormalTidy(s: seq<byte>)
    ensures Tidy(Normal(s))
  {
    NormalIsCanonical(s);
    var cs := Comps(s, 0);
    if cs != [] {
      JoinTidy(cs);
      JoinEndsClean(cs);
      if At(s, 0) == SLASH {
        TidyRoot(Join(cs));
      }
    }
  }

  lemma TidyRoot(o: seq<byte>)
    requires Tidy(o) && TidyDots(o) && EndsClean(o) && o[0] != SLASH
    ensures Tidy([SLASH] + o)
  {
    var r := [SLASH] + o;
    assert forall i :: 1 <= i < |r| ==> r[i] == o[i - 1];
    forall i | 0 <= i < |r|
      ensures TidyDot(r, i)
    {
      if i >= 1 {
        assert TidyDot(o, i - 1);
        assert i + 1 < |r| ==> r[i + 1] == o[i];
      }
    }
  }

  /** /a//./b/ becomes /a/b, and a/../b stays as it is. */
  lemma NormalExamples()
    ensures Normal([47, 97, 47, 47, 46, 47, 98, 47]) == [47, 97, 47, 98]
    ensures Normal([97, 47, 46, 46, 47, 98]) == [97, 47, 46, 46, 47, 98]
  {
    hide Normal, Comps, Join;
    NormalIsCanonical([47, 97, 47, 47, 46, 47, 98, 47]);
    NormalIsCanonical([97, 47, 46, 46, 47, 98]);
    FirstComps();
    SecondComps();
    JoinTwo([97], [98]);
    JoinThree([97], [46, 46], [98]);
  }

  lemma FirstComps()
    ensures Comps([47, 97, 47, 47, 46, 47, 98, 47], 0) == [[97], [98]]
  {
    hide Comps;
    var s := [47, 97, 47, 47, 46, 47, 98, 47];
    LastComps();
    OneComp(s, 3, 3);
    assert s[3..3] == [] && [] + Comps(s, 4) == Comps(s, 4);
    OneComp(s, 1, 2);
    assert s[1..2] == [97] && [[97]] + [[98]] == [[97], [98]];
    OneComp(s, 0, 0);
    assert s[0..0] == [] && [] + Comps(s, 1) == Comps(s, 1);
  }

  lemma LastComps()
    ensures Comps([47, 97, 47, 47, 46, 47, 98, 47], 4) == [[98]]
  {
    hide Comps;
    var s := [47, 97, 47, 47, 46, 47, 98, 47];
    CompsAtEnd(s);
    OneComp(s, 6, 7);
    assert s[6..7] == [98] && [[98]] + [] == [[98]];
    OneComp(s, 4, 5);
    assert s[4..5] == [46] && [] + Comps(s, 6) == Comps(s, 6);
  }

  lemma SecondComps()
    ensures Comps([97, 47, 46, 46, 47, 98], 0) == [[97], [46, 46], [98]]
  {
    hide Comps;
    var t := [97, 47, 46, 46, 47, 98];
    OneComp(t, 5, 6);
    assert t[5..6] == [98];
    OneComp(t, 2, 4);
    assert t[2..4] == [46, 46];
    OneComp(t, 0, 1);
    assert t[0..1] == [97];
  }

  lemma OneComp(s: seq<byte>, i: nat, j: nat)
    requires i < |s| && i <= j <= |s| && (j < |s| ==> s[j] == SLASH) && forall k :: i <= k < j ==> s[k] != SLASH
    ensures Comps(s, i) == (if Redundant(s[i..j]) then [] else [s[i..j]]) + if j < |s| then Comps(s, j + 1) else []
  {
    CompEndIs(s, i, j);
  }

  lemma JoinTwo(a: seq<byte>, b: seq<byte>)
    ensures Join([a, b]) == a + [SLASH] + b
  {
    assert [a, b][1..] == [b];
  }

  lemma JoinThree(a: seq<byte>, b: seq<byte>, c: seq<byte>)
    ensures Join([a, b, c]) == a + [SLASH] + (b + [SLASH] + c)
  {
    assert [a, b, c][1..] == [b, c];
    JoinTwo(b, c);
  }
}

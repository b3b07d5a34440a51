/** Decimal text forms of time stamps: code_timespec and decode_timespec of src/misc.c. */
module Timestamps {
  import opened Bytes
  import opened DecimalText

  predicate TimeRange(tmin: int, tmax: int) {
    TypeRange(tmin, tmax) && tmin < 0
  }

  function Signed(negative: bool, x: int): int {
    if negative then -x else x
  }

  // ----- what a numeral denotes

  /** A decimal numeral found at the start of a string: num / 10^m, ending before lim. */
  datatype Numeral = NoNumeral | Numeral(num: int, m: nat, lim: nat)

  function ReadNumeral(s: seq<byte>, parseFraction: bool): Numeral {
    var negative := At(s, 0) == MINUS;
    var start := if negative then 1 else 0;
    if !IsDigit(At(s, start)) then NoNumeral
    else
      var j := DigitsEnd(s, start);
      var whole := DecVal(s, start, j);
      if parseFraction && At(s, j) == DOT then
        var e := DigitsEnd(s, j + 1);
        var m := e - (j + 1);
        Numeral(Signed(negative, Shift(whole, m) + DecVal(s, j + 1, e)), m, e)
      else
        Numeral(Signed(negative, whole), 0, j)
  }

  /** The floor of x / 10^m. */
  function FloorShift(x: int, m: nat): (q: int)
    ensures Shift(q, m) <= x < Shift(q + 1, m)
    decreases m
  {
    if m == 0 then x else FloorShift(x / 10, m - 1)
  }

  lemma FloorIs(x: int, m: nat, q: int)
    requires Shift(q, m) <= x < Shift(q + 1, m)
    ensures FloorShift(x, m) == q
  {
    ShiftLess(FloorShift(x, m), q + 1, m);
    ShiftLess(q, FloorShift(x, m) + 1, m);
  }

  /** The floor of num / 10^m, counted in nanoseconds. */
  function FloorNs(num: int, m: nat): int {
    FloorShift(num * BILLION, m)
  }

  // ----- reading the fraction

  predicate HasNonzero(s: seq<byte>, i: nat, j: nat)
    requires j <= |s|
  {
    exists k :: i <= k < j && s[k] != ZERO
  }

  lemma {:induction false} NonzeroDigits(s: seq<byte>, i: nat, j: nat)
    requires DigitsAt(s, i, j)
    ensures HasNonzero(s, i, j) <==> DecVal(s, i, j) != 0
  {
    if i < j {
      NonzeroDigits(s, i, j - 1);
      DecValBound(s, i, j - 1);
    }
  }

  /** ns is the nanosecond part kept from a fraction v / 10^m; cut says that more was dropped. */
  ghost predicate FractionIs(v: int, m: nat, ns: int, cut: bool) {
    0 <= ns < BILLION && FloorWithCut(BILLION * v, m, ns, cut)
  }

  /** q is the floor of x / 10^m, and cut says that the division is not exact. */
  ghost predicate FloorWithCut(x: int, m: nat, q: int, cut: bool) {
    Shift(q, m) <= x < Shift(q + 1, m) && (cut <==> Shift(q, m) != x)
  }

  lemma {:induction false} ThreePlaces(x: int)
    ensures Shift(x, 3) == 1000 * x
  {
    assert Shift(x, 1) == 10 * x;
    assert Shift(x, 2) == 100 * x;
  }

  lemma {:induction false} NinePlaces(x: int)
    ensures Shift(x, 9) == BILLION * x
  {
    ThreePlaces(x);
    ShiftShift(x, 3, 3);
    ThreePlaces(Shift(x, 3));
    ShiftShift(x, 6, 3);
    ThreePlaces(Shift(x, 6));
  }

  lemma ShortFraction(v: nat, m: nat)
    requires m <= 9 && v < Shift(1, m)
    ensures FractionIs(v, m, Shift(v, 9 - m), false)
  {
    var ns := Shift(v, 9 - m);
    ShiftShift(v, 9 - m, m);
    NinePlaces(v);
    ShiftLess(ns, ns + 1, m);
    ShortBound(v, m);
  }

  lemma ShortBound(v: nat, m: nat)
    requires m <= 9 && v < Shift(1, m)
    ensures 0 <= Shift(v, 9 - m) < BILLION
  {
    ShiftShift(1, m, 9 - m);
    ShiftLess(v, Shift(1, m), 9 - m);
    NinePlaces(1);
    ShiftLess(-1, v, 9 - m);
    ShiftZero(9 - m);
    ShiftLess(v, 0, 9 - m);
  }

  lemma LongFraction(s: seq<byte>, i: nat, j: nat)
    requires DigitsAt(s, i, j) && i + 9 < j
    ensures FractionIs(DecVal(s, i, j), j - i, DecVal(s, i, i + 9), HasNonzero(s, i + 9, j))
  {
    var k := i + 9;
    var ns, tail := DecVal(s, i, k), DecVal(s, k, j);
    DecValSplit(s, i, k, j);
    DecValBound(s, i, k);
    DecValBound(s, k, j);
    NonzeroDigits(s, k, j);
    NinePlaces(1);
    TenDigits(ns, tail, j - k);
  }

  /** BILLION * (ns shifted by n, plus tail) has floor ns over n + 9 places. */
  lemma TenDigits(ns: int, tail: int, n: nat)
    requires 0 <= tail < Shift(1, n)
    ensures FloorWithCut(BILLION * (Shift(ns, n) + tail), n + 9, ns, tail != 0)
  {
    NinePlaces(Shift(ns, n));
    ShiftShift(ns, n, 9);
    NinePlaces(Shift(1, n));
    ShiftShift(1, n, 9);
    ShiftAdd(ns, 1, n + 9);
  }

  /** Scaling loop of decode_timespec: multiply by ten until nine digits are reached. */
  method Scale(v: nat, n: nat) returns (ns: nat)
    requires n <= 9
    ensures ns == Shift(v, 9 - n)
  {
    ns := v;
    var digits := n;
    while digits < 9
      invariant n <= digits <= 9
      invariant ns == Shift(v, digits - n)
    {
      digits := digits + 1;
      ns := ns * 10;
    }
  }

  /** What the fraction loop knows: nine significant digits, the rest only for the cut-off flag. */
  ghost predicate FractionRead(s: seq<byte>, start: nat, p: nat, digits: nat, ns: int, cut: bool) {
    && start <= p <= |s| && DigitsAt(s, start, p) && digits == Min(p - start, 9)
    && ns == DecVal(s, start, start + digits) >= 0 && (cut <==> HasNonzero(s, start + digits, p))
  }

  lemma FractionDigit(s: seq<byte>, start: nat, p: nat, digits: nat, ns: int, cut: bool)
    requires FractionRead(s, start, p, digits, ns, cut) && p < |s| && IsDigit(s[p])
    ensures digits < 9 ==> FractionRead(s, start, p + 1, digits + 1, 10 * ns + (s[p] - ZERO), cut)
    ensures digits >= 9 ==> FractionRead(s, start, p + 1, digits, ns, cut || s[p] != ZERO)
  {
  }

  lemma FractionEnd(s: seq<byte>, start: nat, p: nat, digits: nat, ns: int, cut: bool)
    requires FractionRead(s, start, p, digits, ns, cut)
    ensures FractionIs(DecVal(s, start, p), p - start, Shift(ns, 9 - digits), cut)
  {
    DecValBound(s, start, p);
    if p - start <= 9 {
      ShortFraction(DecVal(s, start, p), p - start);
    } else {
      LongFraction(s, start, p);
    }
  }

  /** The fraction loop. */
  method ReadFraction(s: seq<byte>, dot: nat) returns (ns: nat, cut: bool, p: nat)
    requires dot < |s|
    ensures p == DigitsEnd(s, dot + 1)
    ensures FractionIs(DecVal(s, dot + 1, p), p - (dot + 1), ns, cut)
  {
    hide FractionRead, DecVal, FractionIs, DigitsEnd, Shift;
    ns, cut, p := 0, false, dot + 1;
    var digits: nat := 0;
    FractionStart(s, dot + 1);
    while IsDigit(At(s, p))
      invariant dot < p <= |s| && digits <= 9 && DigitsAt(s, dot + 1, p) && FractionRead(s, dot + 1, p, digits, ns, cut)
      decreases |s| - p
    {
      FractionDigit(s, dot + 1, p, digits, ns, cut);
      if digits < 9 {
        digits := digits + 1;
        ns := 10 * ns + (s[p] - ZERO);
      } else {
        cut := cut || s[p] != ZERO;
      }
      p := p + 1;
    }
    DigitsEndUnique(s, dot + 1, p);
    FractionEnd(s, dot + 1, p, digits, ns, cut);
    ns := Scale(ns, digits);
  }

  lemma FractionStart(s: seq<byte>, start: nat)
    requires start <= |s|
    ensures FractionRead(s, start, start, 0, 0, false)
  {
  }

  // ----- decode_timespec

  lemma WithWhole(i: int, v: int, m: nat, ns: int, cut: bool)
    requires FractionIs(v, m, ns, cut)
    ensures FloorWithCut((Shift(i, m) + v) * BILLION, m, i * BILLION + ns, cut)
  {
    ShiftBillion(i, m);
    ShiftAdd(i * BILLION, ns, m);
    ShiftAdd(i * BILLION, ns + 1, m);
  }

  lemma FloorNegated(x: int, m: nat, v: int, cut: bool)
    requires FloorWithCut(x, m, v, cut)
    ensures FloorShift(-x, m) == -v - (if cut then 1 else 0)
  {
    ShiftNegate(v, m);
    if cut {
      ShiftNegate(v + 1, m);
      FloorIs(-x, m, -v - 1);
    } else {
      ShiftLess(-v, -v + 1, m);
      FloorIs(-x, m, -v);
    }
  }

  lemma Negated(x: int)
    ensures (-x) * BILLION == -(x * BILLION)
  {
  }

  /** The floor of a signed numeral, from its whole part and what the fraction loop gives. */
  lemma FloorOfNumeral(negative: bool, i: int, v: int, m: nat, ns: int, cut: bool)
    requires FractionIs(v, m, ns, cut)
    ensures FloorNs(Signed(negative, Shift(i, m) + v), m)
         == if negative then -(i * BILLION) - ns - (if cut then 1 else 0) else i * BILLION + ns
  {
    WithWhole(i, v, m, ns, cut);
    hide Shift, FloorShift, FractionIs;
    var x := (Shift(i, m) + v) * BILLION;
    if negative {
      FloorNegated(x, m, i * BILLION + ns, cut);
      Negated(Shift(i, m) + v);
    } else {
      FloorIs(x, m, i * BILLION + ns);
    }
  }

  lemma {:induction false} ShiftBillion(i: int, m: nat)
    ensures Shift(i * BILLION, m) == BILLION * Shift(i, m)
  {
    if m > 0 {
      ShiftBillion(i, m - 1);
    }
  }

  /** Whether a count of nanoseconds is a valid time stamp. */
  /** Fold a fraction into negative seconds, towards minus infinity; -1 if that underflows. */
  method SubtractFraction(sec: int, frac: nat, cut: bool, tmin: int, tmax: int) returns (s: int, ns: int)
    requires frac < BILLION && tmin <= sec
    ensures var t := sec * BILLION - frac - (if cut then 1 else 0);
            if tmin * BILLION <= t then s * BILLION + ns == t && 0 <= ns < BILLION else ns == -1
  {
    s, ns := sec, frac + if cut then 1 else 0;
    if ns != 0 {
      ns := if s - 1 < tmin then -1 else BILLION - ns;
      s := if s - 1 < tmin then tmax else s - 1;
    }
  }

  /** decode_timespec returns the exact floor to nanoseconds, or ns == -1 when there is
      no numeral or the floor is not representable. */
  method DecodeTimespec(arg: seq<byte>, parseFraction: bool, tmin: int, tmax: int)
    returns (s: int, ns: int, lim: nat)
    requires TimeRange(tmin, tmax)
    ensures match ReadNumeral(arg, parseFraction)
            case NoNumeral => ns == -1 && lim == 0
            case Numeral(num, m, e) =>
              && lim == e
              && (ns != -1 <==> tmin * 1_000_000_000 <= FloorNs(num, m) < (tmax + 1) * 1_000_000_000)
              && (ns != -1 ==> s * BILLION + ns == FloorNs(num, m) && 0 <= ns < BILLION)
  {
    hide DigitsEnd, FloorNs, FloorShift;
    var overflow;
    s, lim, overflow := Stoint(arg, tmin, tmax);
    ns := -1;
    if lim != 0 {
      var negative := arg[0] == MINUS;
      ghost var start := if negative then 1 else 0;
      ghost var i := DecVal(arg, start, lim);
      DecValBound(arg, start, lim);
      ghost var v, m := 0, 0;
      var cut := false;
      ns := 0;
      if parseFraction && At(arg, lim) == DOT {
        ghost var dot := lim;
        ns, cut, lim := ReadFraction(arg, lim);
        v, m := DecVal(arg, dot + 1, lim), lim - (dot + 1);
      }
      FloorOfNumeral(negative, i, v, m, ns, cut);
      if negative {
        s, ns := SubtractFraction(s, ns, cut, tmin, tmax);
      }
      if overflow {
        ns := -1;
      }
    }
  }

  // ----- code_timespec

  /** The last w digits of n, as a fixed-width decimal text. */
  function Digits(n: nat, w: nat): (s: seq<byte>)
    ensures |s| == w && DigitsAt(s, 0, w)
  {
    if w == 0 then [] else Digits(n / 10, w - 1) + [ZERO + n % 10]
  }

  lemma {:induction false} DecValOfDigits(n: nat, w: nat)
    requires n < Shift(1, w)
    ensures DecVal(Digits(n, w), 0, w) == n
  {
    if w > 0 {
      DecValOfDigits(n / 10, w - 1);
      DecValCopy(Digits(n, w), 0, w - 1, Digits(n / 10, w - 1), 0);
    }
  }

  /** The w low digits of n without the trailing zeros. */
  function Trimmed(n: nat, w: nat): (s: seq<byte>)
    ensures |s| <= w && DigitsAt(s, 0, |s|)
  {
    if w == 0 then []
    else if n % 10 == 0 then Trimmed(n / 10, w - 1)
    else Digits(n, w)
  }

  lemma {:induction false} TrimmedValue(n: nat, w: nat)
    requires 0 < n < Shift(1, w)
    ensures var t := Trimmed(n, w);
            0 < |t| && Shift(DecVal(t, 0, |t|), w - |t|) == n && t[|t| - 1] != ZERO
  {
    if n % 10 == 0 {
      TrimmedValue(n / 10, w - 1);
    } else {
      DecValOfDigits(n, w);
    }
  }

  /** The fraction text of a nanosecond count: no point without digits, no trailing zeros. */
  function NsFraction(ns: nat): seq<byte> {
    if ns == 0 then [] else [DOT] + Trimmed(ns, 9)
  }

  /** code_ns_fraction: trim zeros, then fill the digits from the right. */
  method CodeNsFraction(ns: nat) returns (text: seq<byte>)
    requires ns < BILLION
    ensures text == NsFraction(ns)
  {
    if ns == 0 {
      return [];
    }
    NinePlaces(1);
    var n: nat, i: nat := ns, 9;
    while n % 10 == 0
      invariant 0 < n < Shift(1, i)
      invariant Trimmed(ns, 9) == Trimmed(n, i)
      decreases n
    {
      n := n / 10;
      i := i - 1;
    }
    var p := new byte[i];
    var w: nat, v: nat := i, n;
    while true
      invariant 1 <= w <= i
      invariant forall k :: w <= k < i ==> p[k] == Digits(n, i)[k]
      invariant Digits(v, w) == Digits(n, i)[..w]
      decreases w
    {
      assert Digits(v, w)[..w - 1] == Digits(v / 10, w - 1);
      assert Digits(n, i)[..w][..w - 1] == Digits(n, i)[..w - 1];
      assert ZERO + v % 10 == Digits(v, w)[w - 1] == Digits(n, i)[w - 1];
      w := w - 1;
      p[w] := ZERO + v % 10;
      if w == 0 {
        break;
      }
      v := v / 10;
    }
    assert p[..] == Digits(n, i);
    text := [DOT] + p[..];
  }

  /** The text of a time stamp; an invalid nanosecond count prints as none. */
  function TimespecText(sec: int, nsec: int): seq<byte> {
    var ns := if 0 <= nsec < BILLION then nsec else 0;
    if sec < 0 && ns != 0 then
      (if sec + 1 == 0 then [MINUS] else []) + DecInt(sec + 1) + NsFraction(BILLION - ns)
    else DecInt(sec) + NsFraction(ns)
  }

  method TimeToStr(t: int, tmin: int, tmax: int) returns (text: seq<byte>)
    requires TimeRange(tmin, tmax) && tmin <= t <= tmax
    ensures text == DecInt(t)
  {
    SysIntToStrIsDecimal(t, tmin, tmax);
    text := SysIntToStr(WrapUnsigned(t), tmin, tmax);
  }

  method CodeTimespec(sec: int, nsec: int, tmin: int, tmax: int) returns (text: seq<byte>)
    requires TimeRange(tmin, tmax) && tmin <= sec <= tmax
    ensures text == TimespecText(sec, nsec)
  {
    hide Dec, DecInt, NsFraction, WrapUnsigned, SysIntToStr, Digits, Trimmed;
    var s, ns := sec, nsec;
    var negative := s < 0;
    if BILLION <= ns || ns < 0 {
      ns := 0;
    }
    if negative && ns != 0 {
      s := s + 1;
      ns := BILLION - ns;
    }
    var minusZero := negative && s == 0;
    text := TimeToStr(s, tmin, tmax);
    if minusZero {
      text := [MINUS] + text;
    }
    var fraction := CodeNsFraction(ns);
    text := text + fraction;
  }

  // ----- the round trip

  /** What is read when the digits and the point stand where they are. */
  lemma NumeralIs(t: seq<byte>, start: nat, j: nat, e: nat)
    requires start == (if At(t, 0) == MINUS then 1 else 0)
    requires start < j <= e <= |t| && DigitsAt(t, start, j) && !IsDigit(At(t, e))
    requires if j == e then At(t, j) != DOT else t[j] == DOT && DigitsAt(t, j + 1, e)
    ensures var m := if j == e then 0 else e - (j + 1);
            ReadNumeral(t, true)
            == Numeral(Signed(start == 1, Shift(DecVal(t, start, j), m) + DecVal(t, e - m, e)), m, e)
  {
    DigitsEndUnique(t, start, j);
    if j < e {
      DigitsEndUnique(t, j + 1, e);
    }
  }

  /** g is the fraction text of ns. */
  ghost predicate FractionText(g: seq<byte>, ns: int) {
    if g == [] then ns == 0
    else g[0] == DOT && DigitsAt(g, 1, |g|) && FractionIs(DecVal(g, 1, |g|), |g| - 1, ns, false)
  }

  lemma NsFractionText(ns: nat)
    requires ns < BILLION
    ensures FractionText(NsFraction(ns), ns)
  {
    if ns > 0 {
      var f := Trimmed(ns, 9);
      NinePlaces(1);
      TrimmedValue(ns, 9);
      DecValBound(f, 0, |f|);
      ShortFraction(DecVal(f, 0, |f|), |f|);
      DecValCopy(f, 0, |f|, [DOT] + f, 1);
    }
  }

  /** t is a sign, the digits d, the fraction text g, and then something else. */
  ghost predicate Spelled(t: seq<byte>, sign: nat, d: seq<byte>, g: seq<byte>) {
    var j, e := sign + |d|, sign + |d| + |g|;
    && sign == (if At(t, 0) == MINUS then 1 else 0)
    && e <= |t| && |d| > 0 && DigitsAt(d, 0, |d|)
    && (forall k :: sign <= k < j ==> t[k] == d[k - sign])
    && (forall k :: j <= k < e ==> t[k] == g[k - j])
    && !IsDigit(At(t, e)) && At(t, e) != DOT
  }

  lemma ReadSpelled(t: seq<byte>, sign: nat, d: seq<byte>, g: seq<byte>, ns: int)
    requires Spelled(t, sign, d, g) && FractionText(g, ns)
    ensures var m := if g == [] then 0 else |g| - 1;
            ReadNumeral(t, true) == Numeral(Signed(sign == 1, Shift(DecVal(d, 0, |d|), m) + DecVal(g, |g| - m, |g|)),
                                            m, sign + |d| + |g|)
  {
    hide ReadNumeral, DigitsEnd, DecVal, Shift;
    var j, e := sign + |d|, sign + |d| + |g|;
    DecValCopy(t, sign, j, d, 0);
    SpelledDigits(t, sign, d, g, ns);
    NumeralIs(t, sign, j, e);
    if g == [] {
      NoDigits(t, e);
      NoDigits(g, 0);
    } else {
      DecValCopy(t, j + 1, e, g, 1);
    }
  }

  lemma NoDigits(s: seq<byte>, i: nat)
    requires i <= |s|
    ensures DecVal(s, i, i) == 0
  {
  }

  lemma SpelledDigits(t: seq<byte>, sign: nat, d: seq<byte>, g: seq<byte>, ns: int)
    requires Spelled(t, sign, d, g) && FractionText(g, ns)
    ensures var j, e := sign + |d|, sign + |d| + |g|;
            && DigitsAt(t, sign, j)
            && if g == [] then At(t, j) != DOT else t[j] == DOT && DigitsAt(t, j + 1, e)
  {
    hide DecVal, FractionIs;
  }

  /** A spelled time stamp is read to its end and has the floor that it spells. */
  lemma ReadCoded(t: seq<byte>, sign: nat, d: seq<byte>, g: seq<byte>, ns: int)
    requires Spelled(t, sign, d, g) && FractionText(g, ns)
    ensures var r := ReadNumeral(t, true);
            && r.Numeral? && r.lim == sign + |d| + |g|
            && FloorNs(r.num, r.m) == Signed(sign == 1, DecVal(d, 0, |d|) * BILLION + ns)
  {
    ReadSpelled(t, sign, d, g, ns);
    if g == [] {
      FloorOfNumeral(sign == 1, DecVal(d, 0, |d|), 0, 0, 0, false);
    } else {
      FloorOfNumeral(sign == 1, DecVal(d, 0, |d|), DecVal(g, 1, |g|), |g| - 1, ns, false);
    }
  }

  lemma SpelledConcat(sign: seq<byte>, d: seq<byte>, g: seq<byte>, rest: seq<byte>)
    requires sign == [] || sign == [MINUS]
    requires |d| > 0 && DigitsAt(d, 0, |d|)
    requires !IsDigit(At(rest, 0)) && At(rest, 0) != DOT
    ensures Spelled(sign + d + g + rest, |sign|, d, g)
  {
    var t := sign + d + g + rest;
    assert t[|sign|] == d[0];
  }

  /** Sign, whole seconds and nanoseconds as printed. */
  function Parts(sec: int, nsec: int): (p: (seq<byte>, nat, nat))
    requires 0 <= nsec < BILLION
    ensures p.0 == [] || p.0 == [MINUS]
    ensures Signed(p.0 != [], p.1 * BILLION + p.2) == sec * BILLION + nsec
    ensures p.2 < BILLION
  {
    if sec >= 0 then ([], sec, nsec)
    else if nsec == 0 then ([MINUS], -sec, 0)
    else ([MINUS], -(sec + 1), BILLION - nsec)
  }

  lemma TextOfParts(sec: int, nsec: int)
    requires 0 <= nsec < BILLION
    ensures var (sign, i, ns) := Parts(sec, nsec); TimespecText(sec, nsec) == sign + Dec(i) + NsFraction(ns)
  {
    hide Dec, NsFraction, DecInt;
    if sec >= 0 {
      SignedText(sec, NsFraction(nsec));
    } else if nsec == 0 {
      SignedText(-sec, NsFraction(0));
    } else {
      SignedText(-(sec + 1), NsFraction(BILLION - nsec));
    }
  }

  lemma SignedText(i: int, g: seq<byte>)
    requires i >= 0
    ensures && DecInt(i) + g == [] + Dec(i) + g
            && (i > 0 ==> DecInt(-i) + g == [MINUS] + Dec(i) + g)
            && (if i == 0 then [MINUS] else []) + DecInt(-i) + g == [MINUS] + Dec(i) + g
  {
    hide Dec;
  }

  /** Every valid time stamp is read back from its text: sec and nsec are recovered, and
      reading stops where the text ends. */
  lemma DecodeInvertsCode(sec: int, nsec: int, rest: seq<byte>)
    requires 0 <= nsec < BILLION && !IsDigit(At(rest, 0)) && At(rest, 0) != DOT
    ensures var r := ReadNumeral(TimespecText(sec, nsec) + rest, true);
            r.Numeral? && r.lim == |TimespecText(sec, nsec)| && FloorNs(r.num, r.m) == sec * BILLION + nsec
  {
    hide Dec, NsFraction, TimespecText, ReadNumeral, FloorNs, Spelled, FractionText, DecVal;
    var (sign, i, ns) := Parts(sec, nsec);
    var d, g := Dec(i), NsFraction(ns);
    TextOfParts(sec, nsec);
    SpelledConcat(sign, d, g, rest);
    NsFractionText(ns);
    DecValOfDec(i);
    ReadCoded(sign + d + g + rest, |sign|, d, g, ns);
  }
}

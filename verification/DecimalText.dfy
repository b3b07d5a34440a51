/** Decimal text forms of system integers: sysinttostr and stoint of src/misc.c. */
module DecimalText {
  import opened Bytes

  predicate IsDigit(c: int) {
    ZERO <= c <= ZERO + 9
  }

  predicate DigitsAt(s: seq<byte>, i: nat, j: nat) {
    i <= j <= |s| && forall k :: i <= k < j ==> IsDigit(s[k])
  }

  /** The number that the digits at indices i .. j of s denote. */
  function DecVal(s: seq<byte>, i: nat, j: nat): int
    requires i <= j <= |s|
  {
    if i == j then 0 else 10 * DecVal(s, i, j - 1) + (s[j - 1] - ZERO)
  }

  /** The shortest decimal text of a natural number, as umaxtostr prints it. */
  function Dec(n: nat): (s: seq<byte>)
    ensures |s| > 0 && DigitsAt(s, 0, |s|)
  {
    if n < 10 then [ZERO + n] else Dec(n / 10) + [ZERO + n % 10]
  }

  /** The decimal text of an integer, as imaxtostr prints it. */
  function DecInt(i: int): seq<byte> {
    if i < 0 then [MINUS] + Dec(-i) else Dec(i)
  }

  /** Equal digits denote equal numbers. */
  lemma {:induction false} DecValCopy(s: seq<byte>, i: nat, j: nat, t: seq<byte>, a: nat)
    requires i <= j <= |s| && a + (j - i) <= |t|
    requires forall k :: i <= k < j ==> s[k] == t[k - i + a]
    ensures DecVal(s, i, j) == DecVal(t, a, a + (j - i))
  {
    if i < j {
      DecValCopy(s, i, j - 1, t, a);
    }
  }

  lemma {:induction false} DecValOfDec(n: nat)
    ensures DecVal(Dec(n), 0, |Dec(n)|) == n
  {
    if n >= 10 {
      DecValOfDec(n / 10);
      DecValCopy(Dec(n), 0, |Dec(n)| - 1, Dec(n / 10), 0);
    }
  }

  /** x followed by m decimal zeros: x times ten to the power m. */
  function Shift(x: int, m: nat): int {
    if m == 0 then x else 10 * Shift(x, m - 1)
  }

  lemma {:induction false} ShiftAdd(x: int, y: int, m: nat)
    ensures Shift(x + y, m) == Shift(x, m) + Shift(y, m)
  {
    if m > 0 {
      ShiftAdd(x, y, m - 1);
    }
  }

  lemma {:induction false} ShiftNegate(x: int, m: nat)
    ensures Shift(-x, m) == -Shift(x, m)
  {
    if m > 0 {
      ShiftNegate(x, m - 1);
    }
  }

  lemma {:induction false} ShiftShift(x: int, a: nat, b: nat)
    ensures Shift(Shift(x, a), b) == Shift(x, a + b)
  {
    if b > 0 {
      ShiftShift(x, a, b - 1);
    }
  }

  lemma {:induction false} ShiftLess(x: int, y: int, m: nat)
    ensures x < y <==> Shift(x, m) < Shift(y, m)
  {
    if m > 0 {
      ShiftLess(x, y, m - 1);
    }
  }

  lemma {:induction false} ShiftZero(m: nat)
    ensures Shift(0, m) == 0
  {
    if m > 0 {
      ShiftZero(m - 1);
    }
  }

  /** Further digits shift the value by as many places. */
  lemma {:induction false} DecValSplit(s: seq<byte>, i: nat, k: nat, j: nat)
    requires i <= k <= j <= |s|
    ensures DecVal(s, i, j) == Shift(DecVal(s, i, k), j - k) + DecVal(s, k, j)
  {
    if k < j {
      DecValSplit(s, i, k, j - 1);
    }
  }

  lemma {:induction false} DecValBound(s: seq<byte>, i: nat, j: nat)
    requires DigitsAt(s, i, j)
    ensures 0 <= DecVal(s, i, j) < Shift(1, j - i)
  {
    if i < j {
      DecValBound(s, i, j - 1);
    }
  }

  /** Where the run of digits that starts at index i ends. */
  function DigitsEnd(s: seq<byte>, i: nat): (j: nat)
    requires i <= |s|
    ensures DigitsAt(s, i, j) && !IsDigit(At(s, j))
    decreases |s| - i
  {
    if i < |s| && IsDigit(s[i]) then DigitsEnd(s, i + 1) else i
  }

  /** The end of a digit run is the only place where digits stop. */
  lemma DigitsEndUnique(s: seq<byte>, i: nat, j: nat)
    requires DigitsAt(s, i, j) && !IsDigit(At(s, j))
    ensures DigitsEnd(s, i) == j
  {
  }

  /** A range of a system integer type, as the callers of stoint pass it. */
  predicate TypeRange(minval: int, maxval: int) {
    && INTMAX_MIN <= minval <= 0 < maxval <= UINTMAX_MAX
    && (minval < 0 ==> maxval <= INTMAX_MAX)
  }

  /** The intmax_t whose conversion to uintmax_t is u. */
  function RepresentUintmax(u: int): int {
    if u <= INTMAX_MAX then u else u - UINTMAX_MAX - 1
  }

  datatype Parsed = Parsed(value: int, lim: nat, overflow: bool)

  /** What a string denotes within a type range: the longest integer prefix, clamped. */
  function ParseInt(s: seq<byte>, minval: int, maxval: int): Parsed {
    if IsDigit(At(s, 0)) then
      var j := DigitsEnd(s, 0);
      var exact := DecVal(s, 0, j);
      Parsed(Min(exact, maxval), j, maxval < exact)
    else if minval < 0 && At(s, 0) == MINUS && IsDigit(At(s, 1)) then
      var j := DigitsEnd(s, 1);
      var exact := -DecVal(s, 1, j);
      Parsed(Max(exact, minval), j, exact < minval)
    else Parsed(0, 0, false)
  }

  /** The magnitude loops of stoint: unsigned, signed, and signed downwards. */
  datatype Accumulator = Unsigned | Signed | Downward

  function Limit(a: Accumulator): int {
    match a
    case Unsigned => UINTMAX_MAX
    case Signed => INTMAX_MAX
    case Downward => -INTMAX_MIN
  }

  function Wrap(a: Accumulator, x: int): int {
    if a.Unsigned? then WrapUnsigned(x) else WrapSigned(x)
  }

  /** One of the three digit loops: a wrapping accumulator with a sticky overflow flag. */
  method ScanDigits(s: seq<byte>, start: nat, a: Accumulator) returns (i: int, p: nat, v: bool)
    requires start < |s| && IsDigit(s[start])
    ensures p == DigitsEnd(s, start) && 0 <= DecVal(s, start, p)
    ensures v <==> DecVal(s, start, p) > Limit(a)
    ensures !v ==> i == if a.Downward? then -DecVal(s, start, p) else DecVal(s, start, p)
  {
    i := if a.Downward? then -(s[start] - ZERO) else s[start] - ZERO;
    p := start + 1;
    v := false;
    while IsDigit(At(s, p))
      invariant start < p <= |s| && DigitsAt(s, start, p)
      invariant 0 <= DecVal(s, start, p)
      invariant v <==> DecVal(s, start, p) > Limit(a)
      invariant !v ==> i == if a.Downward? then -DecVal(s, start, p) else DecVal(s, start, p)
      decreases |s| - p
    {
      var d := if a.Downward? then -(s[p] - ZERO) else s[p] - ZERO;
      v := v || i * 10 != Wrap(a, i * 10);
      i := Wrap(a, i * 10);
      v := v || i + d != Wrap(a, i + d);
      i := Wrap(a, i + d);
      p := p + 1;
    }
    DigitsEndUnique(s, start, p);
  }

  /** stoint finds the integer prefix, its exact clamped value, and whether it was clamped. */
  method Stoint(s: seq<byte>, minval: int, maxval: int) returns (i: int, lim: nat, overflow: bool)
    requires TypeRange(minval, maxval)
    ensures lim == ParseInt(s, minval, maxval).lim
    ensures overflow == ParseInt(s, minval, maxval).overflow
    ensures i == if minval < 0 then ParseInt(s, minval, maxval).value
                 else RepresentUintmax(ParseInt(s, minval, maxval).value)
  {
    if IsDigit(At(s, 0)) {
      if minval < 0 {
        i, lim, overflow := ScanDigits(s, 0, Signed);
        overflow := overflow || maxval < i;
        if overflow {
          i := maxval;
        }
      } else {
        i, lim, overflow := ScanDigits(s, 0, Unsigned);
        overflow := overflow || maxval < i;
        if overflow {
          i := maxval;
        }
        i := RepresentUintmax(i);
      }
    } else if minval < 0 && At(s, 0) == MINUS && IsDigit(At(s, 1)) {
      i, lim, overflow := ScanDigits(s, 1, Downward);
      overflow := overflow || i < minval;
      if overflow {
        i := minval;
      }
    } else {
      i, lim, overflow := 0, 0, false;
    }
  }

  /** The text of a value that was converted to uintmax_t from a type with the given range. */
  function SysIntToStr(value: int, minval: int, maxval: int): seq<byte>
    requires TypeRange(minval, maxval) && 0 <= value <= UINTMAX_MAX
  {
    if value <= maxval then Dec(value)
    else DecInt(WrapSigned(value - minval) + minval)
  }

  /** sysinttostr prints the value before its conversion to uintmax_t. */
  lemma SysIntToStrIsDecimal(x: int, minval: int, maxval: int)
    requires TypeRange(minval, maxval) && minval <= x <= maxval
    ensures SysIntToStr(WrapUnsigned(x), minval, maxval) == DecInt(x)
  {
    if x < 0 {
      var value := x + UINTMAX_MAX + 1;
      assert WrapUnsigned(x) == value;
      assert WrapSigned(value - minval) == x - minval;
    }
  }

  /** Digits d inside a longer string are found, with their value. */
  lemma ParseDigits(d: seq<byte>, s: seq<byte>, start: nat)
    requires 0 < |d| <= |s| - start && DigitsAt(d, 0, |d|)
    requires forall k :: start <= k < start + |d| ==> s[k] == d[k - start]
    requires !IsDigit(At(s, start + |d|))
    ensures IsDigit(At(s, start)) && DigitsEnd(s, start) == start + |d|
    ensures DecVal(s, start, start + |d|) == DecVal(d, 0, |d|)
  {
    assert s[start] == d[0];
    DigitsEndUnique(s, start, start + |d|);
    DecValCopy(s, start, start + |d|, d, 0);
  }

  /** stoint inverts sysinttostr over every type range, whatever non-digit text follows. */
  lemma StointInvertsSysIntToStr(x: int, minval: int, maxval: int, rest: seq<byte>)
    requires TypeRange(minval, maxval) && minval <= x <= maxval
    requires !IsDigit(At(rest, 0))
    ensures var text := SysIntToStr(WrapUnsigned(x), minval, maxval);
            ParseInt(text + rest, minval, maxval) == Parsed(x, |text|, false)
  {
    SysIntToStrIsDecimal(x, minval, maxval);
    ParseDecInt(x, minval, maxval, rest);
  }

  lemma ParseDecInt(x: int, minval: int, maxval: int, rest: seq<byte>)
    requires minval <= x <= maxval && !IsDigit(At(rest, 0))
    ensures ParseInt(DecInt(x) + rest, minval, maxval) == Parsed(x, |DecInt(x)|, false)
  {
    var d := Dec(if x < 0 then -x else x);
    DecValOfDec(if x < 0 then -x else x);
    if x < 0 {
      ParseDigits(d, [MINUS] + d + rest, 1);
    } else {
      ParseDigits(d, d + rest, 0);
    }
  }
}

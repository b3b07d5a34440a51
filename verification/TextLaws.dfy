/** The decimal notations of src/misc.c, character by character. */
module TextLaws {
  import opened Bytes
  import opened DecimalText
  import opened Timestamps

  /** The digits 0 to 9. */
  ghost predicate Decimals(s: seq<byte>) {
    forall k :: 0 <= k < |s| ==> 48 <= s[k] <= 57
  }

  function DecimalNumber(s: seq<byte>): int {
    if s == [] then 0 else 10 * DecimalNumber(s[..|s| - 1]) + s[|s| - 1] - 48
  }

  /** No digit comes first. */
  predicate NoDigitFirst(s: seq<byte>) {
    s == [] || s[0] < 48 || 57 < s[0]
  }

  lemma {:induction false} DecimalNumberAt(s: seq<byte>, i: nat, digits: seq<byte>)
    requires i + |digits| <= |s| && s[i..i + |digits|] == digits
    ensures DecVal(s, i, i + |digits|) == DecimalNumber(digits)
    decreases |digits|
  {
    if digits != [] {
      var n := |digits| - 1;
      assert s[i..i + n] == s[i..i + n + 1][..n];
      DecimalNumberAt(s, i, digits[..n]);
      assert s[i + n] == s[i..i + n + 1][n];
    }
  }

  lemma {:induction false} DecimalNumberNonNegative(digits: seq<byte>)
    requires Decimals(digits)
    ensures DecimalNumber(digits) >= 0
  {
    if digits != [] {
      DecimalNumberNonNegative(digits[..|digits| - 1]);
    }
  }

  /** Digits at index i are found, with their value. */
  lemma DigitsHere(s: seq<byte>, i: nat, digits: seq<byte>)
    requires i + |digits| <= |s| && s[i..i + |digits|] == digits && Decimals(digits) && !IsDigit(At(s, i + |digits|))
    ensures DigitsEnd(s, i) == i + |digits| && DecVal(s, i, i + |digits|) == DecimalNumber(digits)
    ensures digits != [] ==> IsDigit(At(s, i)) && At(s, i) == digits[0]
  {
    hide DecVal, DecimalNumber, DigitsEnd;
    forall k | i <= k < i + |digits| ensures IsDigit(s[k]) {
      assert s[k] == s[i..i + |digits|][k - i];
    }
    assert digits != [] ==> s[i] == s[i..i + |digits|][0];
    DigitsEndUnique(s, i, i + |digits|);
    DecimalNumberAt(s, i, digits);
  }

  lemma Behind(prefix: seq<byte>, digits: seq<byte>, tail: seq<byte>)
    ensures var s, i, j := prefix + digits + tail, |prefix|, |prefix| + |digits|;
            j <= |s| && s[i..j] == digits && At(s, j) == At(tail, 0) && (prefix != [] ==> At(s, 0) == prefix[0])
  {
  }

  /** Digits behind a prefix are found, with their value. */
  lemma DigitsFound(prefix: seq<byte>, digits: seq<byte>, tail: seq<byte>)
    requires Decimals(digits) && NoDigitFirst(tail)
    ensures var s, i := prefix + digits + tail, |prefix|;
            && DigitsEnd(s, i) == i + |digits| && DecVal(s, i, i + |digits|) == DecimalNumber(digits)
            && At(s, i + |digits|) == At(tail, 0) && (digits != [] ==> IsDigit(At(s, i)) && At(s, i) == digits[0])
            && (prefix != [] ==> At(s, 0) == prefix[0])
  {
    hide *;
    Behind(prefix, digits, tail);
    TailStops(tail);
    DigitsHere(prefix + digits + tail, |prefix|, digits);
  }

  lemma TailStops(tail: seq<byte>)
    requires NoDigitFirst(tail)
    ensures !IsDigit(At(tail, 0))
  {
  }

  // ----- stoint

  /** Digits denote their value, cut down to the maximum; behind a minus sign, if the type has negative
      values, the negated value, cut down to the minimum. */
  lemma IntSyntax(digits: seq<byte>, tail: seq<byte>, minval: int, maxval: int)
    requires digits != [] && Decimals(digits) && NoDigitFirst(tail) && minval <= 0 <= maxval
    ensures var v := DecimalNumber(digits);
            ParseInt(digits + tail, minval, maxval) == if v <= maxval then Parsed(v, |digits|, false) else Parsed(maxval, |digits|, true)
    ensures var v := -DecimalNumber(digits);
            ParseInt([45] + digits + tail, minval, maxval)
              == if minval == 0 then Parsed(0, 0, false)
                 else if minval <= v then Parsed(v, |digits| + 1, false) else Parsed(minval, |digits| + 1, true)
  {
    hide DecVal, DecimalNumber, DigitsEnd, ParseInt, Decimals;
    DigitsFound([], digits, tail);
    assert [] + digits + tail == digits + tail;
    DigitsFound([45], digits, tail);
    IntAt(digits + tail, |digits|, minval, maxval);
    IntAt([45] + digits + tail, |digits| + 1, minval, maxval);
  }

  lemma IntAt(s: seq<byte>, j: nat, minval: int, maxval: int)
    requires j <= |s| && minval <= 0 <= maxval
    ensures IsDigit(At(s, 0)) && DigitsEnd(s, 0) == j ==>
              var v := DecVal(s, 0, j); ParseInt(s, minval, maxval) == if v <= maxval then Parsed(v, j, false) else Parsed(maxval, j, true)
    ensures At(s, 0) == 45 && IsDigit(At(s, 1)) && DigitsEnd(s, 1) == j && 1 <= j ==>
              var v := -DecVal(s, 1, j);
              ParseInt(s, minval, maxval) == if minval == 0 then Parsed(0, 0, false)
                                             else if minval <= v then Parsed(v, j, false) else Parsed(minval, j, true)
  {
    hide DecVal, DigitsEnd;
  }

  /** Anything else is no integer. */
  lemma NoInt(s: seq<byte>, minval: int, maxval: int)
    requires NoDigitFirst(s) && (s == [] || s[0] != 45 || NoDigitFirst(s[1..]))
    ensures ParseInt(s, minval, maxval) == Parsed(0, 0, false)
  {
    assert |s| > 1 ==> s[1..][0] == s[1];
  }

  /** An integer is written with a minus sign if it is negative, and without leading zeros. */
  lemma {:induction false} DecForm(n: nat)
    ensures Decimals(Dec(n)) && DecimalNumber(Dec(n)) == n && Dec(n) != [] && (n > 0 ==> Dec(n)[0] != 48)
  {
    if n < 10 {
      assert [ZERO + n][..0] == [] && DecimalNumber([]) == 0;
    } else {
      DecForm(n / 10);
      assert Dec(n)[..|Dec(n)| - 1] == Dec(n / 10);
    }
  }

  lemma IntForm(x: int)
    ensures var t := DecInt(x);
            if x < 0 then |t| > 1 && t[0] == 45 && Decimals(t[1..]) && DecimalNumber(t[1..]) == -x && t[1] != 48
            else t != [] && Decimals(t) && DecimalNumber(t) == x && (t[0] == 48 ==> t == [48])
  {
    hide Dec, DecimalNumber;
    DecForm(if x < 0 then -x else x);
    if x < 0 {
      assert DecInt(x)[1..] == Dec(-x);
    } else if x == 0 {
      ZeroForm();
    }
  }

  lemma ZeroForm()
    ensures Dec(0) == [48]
  {
  }

  // ----- time stamps

  /** Whole digits, and behind a dot the digits of a fraction, with or without a minus sign: the numeral is
      all digits together, divided by as many tens as the fraction has digits. */
  lemma NumeralSyntax(negative: bool, whole: seq<byte>, fraction: seq<byte>, tail: seq<byte>)
    requires whole != [] && Decimals(whole) && Decimals(fraction) && NoDigitFirst(tail)
    ensures var sign, v := if negative then [45] else [], DecimalNumber(whole + fraction);
            ReadNumeral(sign + whole + ([46] + fraction + tail), true)
              == Numeral(if negative then -v else v, |fraction|, |sign| + |whole| + 1 + |fraction|)
  {
    hide DecVal, DecimalNumber, DigitsEnd, Shift, Decimals, ReadNumeral;
    var sign := if negative then [45] else [];
    var more := [46] + fraction + tail;
    var s := sign + whole + more;
    DigitsFound(sign, whole, more);
    assert s == (sign + whole + [46]) + fraction + tail;
    DigitsFound(sign + whole + [46], fraction, tail);
    Together(whole, fraction);
    FractionAt(s, |sign|, |sign| + |whole|, |sign| + |whole| + 1 + |fraction|);
  }

  lemma FractionAt(s: seq<byte>, start: nat, j: nat, e: nat)
    requires start <= j < e <= |s| && start == (if At(s, 0) == 45 then 1 else 0) && IsDigit(At(s, start)) && DigitsEnd(s, start) == j
    requires At(s, j) == 46 && DigitsEnd(s, j + 1) == e
    ensures var v := Shift(DecVal(s, start, j), e - (j + 1)) + DecVal(s, j + 1, e);
            ReadNumeral(s, true) == Numeral(if start == 1 then -v else v, e - (j + 1), e)
  {
    hide DecVal, DigitsEnd, Shift;
  }

  lemma Together(whole: seq<byte>, fraction: seq<byte>)
    ensures DecimalNumber(whole + fraction) == Shift(DecimalNumber(whole), |fraction|) + DecimalNumber(fraction)
  {
    hide DecVal, DecimalNumber, Shift;
    var s, n := whole + fraction, |whole|;
    DecValSplit(s, 0, n, |s|);
    assert s[0..n] == whole && s[n..|s|] == fraction && s[0..|s|] == s;
    DecimalNumberAt(s, 0, whole);
    DecimalNumberAt(s, n, fraction);
    DecimalNumberAt(s, 0, s);
  }

  /** Without a fraction, or if none is to be read, the numeral ends with the whole digits. */
  lemma WholeNumeralSyntax(negative: bool, whole: seq<byte>, tail: seq<byte>, parseFraction: bool)
    requires whole != [] && Decimals(whole) && NoDigitFirst(tail) && (parseFraction ==> tail == [] || tail[0] != 46)
    ensures var sign := if negative then [45] else [];
            ReadNumeral(sign + whole + tail, parseFraction)
              == Numeral(if negative then -DecimalNumber(whole) else DecimalNumber(whole), 0, |sign| + |whole|)
  {
    hide DecVal, DecimalNumber, DigitsEnd, Decimals, ReadNumeral;
    var sign := if negative then [45] else [];
    DigitsFound(sign, whole, tail);
    NumeralAt(sign + whole + tail, |sign|, |sign| + |whole|, parseFraction);
  }

  lemma NumeralAt(s: seq<byte>, start: nat, j: nat, parseFraction: bool)
    requires start <= j <= |s| && start == (if At(s, 0) == 45 then 1 else 0) && IsDigit(At(s, start)) && DigitsEnd(s, start) == j
    requires parseFraction ==> At(s, j) != 46
    ensures var v := DecVal(s, start, j); ReadNumeral(s, parseFraction) == Numeral(if start == 1 then -v else v, 0, j)
  {
    hide DecVal, DigitsEnd;
  }

  /** Half a second before the epoch is written -0.5. */
  lemma HalfSecondBefore()
    ensures TimespecText(-1, 500_000_000) == [45, 48, 46, 53]
  {
    hide NsFraction;
    ZeroForm();
    HalfFraction();
    assert [45] + [48] + [46, 53] == [45, 48, 46, 53];
  }

  lemma HalfFraction()
    ensures NsFraction(500_000_000) == [46, 53]
  {
    assert Trimmed(5, 1) == [53];
    assert Trimmed(50, 2) == [53];
    assert Trimmed(500, 3) == [53];
    assert Trimmed(5_000, 4) == [53];
    assert Trimmed(50_000, 5) == [53];
    assert Trimmed(500_000, 6) == [53];
    assert Trimmed(5_000_000, 7) == [53];
    assert Trimmed(50_000_000, 8) == [53];
  }
}

/** What numeric fields written by to_chars mean to from_header. */
module HeaderNumberLaws {
  import opened Bytes
  import opened HeaderNumbers

  // ----- octal fields

  lemma {:induction false} Pow2Shift8(n: nat)
    ensures Pow2(3 * n) == Shift8(1, n)
  {
    if n > 0 {
      Pow2Shift8(n - 1);
      assert Pow2(3 * n) == 2 * Pow2(3 * n - 1) && Pow2(3 * n - 1) == 2 * Pow2(3 * n - 2);
    }
  }

  lemma OctalFits(x: int, n: nat)
    requires 0 <= x <= MaxVal(n, 3)
    ensures x < Shift8(1, n)
  {
    Pow2Shift8(n);
    if n * 3 >= 64 {
      Pow2Monotone(64, 3 * n);
      Pow2Limits();
    }
  }

  lemma {:induction false} OctValOfOctal(x: int, n: nat, f: seq<byte>)
    requires 0 <= x < Shift8(1, n) && n <= |f|
    requires forall k :: 0 <= k < n ==> f[k] == Octal(x, n)[k]
    ensures OctVal(f, 0, n) == x
    decreases n
  {
    if n > 0 {
      OctValOfOctal(x / 8, n - 1, f);
    }
  }

  lemma OctalEndIs(f: seq<byte>, i: nat, j: nat)
    requires OctalAt(f, i, j) && (j < |f| ==> !IsOctal(f[j]))
    ensures OctalEnd(f, i) == j
  {
  }

  /** A field of octal digits that a NUL ends is scanned up to the NUL. */
  lemma OctalFieldStart(f: seq<byte>, n: nat)
    requires 0 < n < |f| && OctalAt(f, 0, n) && f[n] == NUL
    ensures BlankEnd(f, 0) == 0 && f[0] != NUL && IsOctal(f[0]) && OctalEnd(f, 0) == n
  {
    OctalEndIs(f, 0, n);
  }

  lemma OctalFieldValue(f: seq<byte>, x: int, n: nat, typed: bool, minval: int, maxval: int, octalOnly: bool)
    requires 0 < n < |f| && f[n] == NUL && forall k :: 0 <= k < n ==> f[k] == Octal(x, n)[k]
    requires 0 <= x <= MaxVal(n, 3) && x <= maxval <= UINTMAX_MAX
    ensures ParseField(f, typed, minval, maxval, octalOnly) == Some(x)
  {
    hide MaxVal, OctalEnd, Octal;
    OctalFits(x, n);
    OctValOfOctal(x, n, f);
    assert OctalAt(f, 0, n);
    OctalFieldStart(f, n);
  }

  // ----- base-256 fields

  lemma {:induction false} Pow2Shift256(n: nat)
    ensures Pow2(8 * n) == Shift256(1, n)
  {
    if n > 0 {
      Pow2Shift256(n - 1);
      assert Pow2(8 * n) == 2 * Pow2(8 * n - 1) && Pow2(8 * n - 1) == 2 * Pow2(8 * n - 2);
      assert Pow2(8 * n - 2) == 2 * Pow2(8 * n - 3) && Pow2(8 * n - 3) == 2 * Pow2(8 * n - 4);
      assert Pow2(8 * n - 4) == 2 * Pow2(8 * n - 5) && Pow2(8 * n - 5) == 2 * Pow2(8 * n - 6);
      assert Pow2(8 * n - 6) == 2 * Pow2(8 * n - 7) && Pow2(8 * n - 7) == 2 * Pow2(8 * n - 8);
    }
  }

  lemma Base256Fits(x: int, n: nat)
    requires INTMAX_MIN <= x <= UINTMAX_MAX && (if x < 0 then -1 - x else x) <= MaxVal(n, 8)
    ensures -Shift256(1, n) <= x < Shift256(1, n)
  {
    Pow2Shift256(n);
    if n * 8 >= 64 {
      Pow2Monotone(64, 8 * n);
      Pow2Limits();
    }
  }

  lemma {:induction false} ByteValOfBase256(x: int, n: nat, f: seq<byte>)
    requires -Shift256(1, n) <= x < Shift256(1, n) && n + 1 <= |f|
    requires forall k :: 1 <= k <= n ==> f[k] == Base256(x, n)[k - 1]
    ensures ByteVal(if x < 0 then -1 else 0, f, 1, n + 1) == x
    decreases n
  {
    if n > 0 {
      ByteValOfBase256(x / 256, n - 1, f);
    }
  }

  lemma Base256RoundTrip(x: int, n: nat, typed: bool, minval: int, maxval: int)
    requires n > 0 && INTMAX_MIN <= x <= UINTMAX_MAX && (if x < 0 then -1 - x else x) <= MaxVal(n, 8)
    requires minval <= x <= maxval
    ensures ParseField([if x < 0 then 255 else 128] + Base256(x, n), typed, minval, maxval, false) == Some(x)
  {
    hide MaxVal, Base256, ByteVal;
    var f := [if x < 0 then 255 else 128] + Base256(x, n);
    Base256Fits(x, n);
    ByteValOfBase256(x, n, f);
    assert BlankEnd(f, 0) == 0;
  }

  /** Every value that to_chars accepts, at any field size and in either notation, is what
      from_header returns for every range that holds it. */
  lemma FieldRoundTrip(gnu: bool, x: int, size: nat, typed: bool, minval: int, maxval: int)
    requires size > 1 && INTMAX_MIN <= x <= UINTMAX_MAX && minval <= x <= maxval <= UINTMAX_MAX
    requires FieldText(gnu, x, size).Some?
    ensures ParseField(FieldText(gnu, x, size).value, typed, minval, maxval, false) == Some(x)
  {
    if 0 <= x <= MaxVal(size - 1, 3) {
      OctalFieldValue(Octal(x, size - 1) + [NUL], x, size - 1, typed, minval, maxval, false);
    } else {
      Base256RoundTrip(x, size - 1, typed, minval, maxval);
    }
  }

  /** Field texts are injective, across formats and notations. */
  lemma FieldTextInjective(gnu: bool, gnu': bool, x: int, y: int, size: nat)
    requires size > 1 && INTMAX_MIN <= x <= UINTMAX_MAX && INTMAX_MIN <= y <= UINTMAX_MAX
    requires FieldText(gnu, x, size).Some? && FieldText(gnu, x, size) == FieldText(gnu', y, size)
    ensures x == y
  {
    hide FieldText, ParseField;
    FieldRoundTrip(gnu, x, size, true, INTMAX_MIN, UINTMAX_MAX);
    FieldRoundTrip(gnu', y, size, true, INTMAX_MIN, UINTMAX_MAX);
  }

  // ----- octal digits out of range

  lemma {:induction false} ComplementValue(f: seq<byte>, i: nat, j: nat)
    requires i < j <= |f| && OctalAt(f, i, j)
    ensures Complement(f, i, j) + OctVal(f, i, j)
         == Shift8(1, j - i) - 1 - (if f[i] - ZERO < 4 then Shift8(4, j - i - 1) else 0)
  {
    if i + 1 < j {
      ComplementValue(f, i, j - 1);
    } else {
      assert OctVal(f, i, i) == 0;
    }
  }

  lemma {:induction false} LeadingDigit(f: seq<byte>, i: nat, j: nat)
    requires i < j <= |f| && OctalAt(f, i, j)
    ensures Shift8(f[i] - ZERO, j - i - 1) <= OctVal(f, i, j) < Shift8(f[i] - ZERO + 1, j - i - 1)
  {
    if i + 1 < j {
      LeadingDigit(f, i, j - 1);
    } else {
      assert OctVal(f, i, i) == 0;
    }
  }

  lemma Shift8Ten(d: int)
    ensures Shift8(d, 10) == 0x4000_0000 * d
    ensures Shift8(d, 11) == 0x2_0000_0000 * d
  {
    assert Shift8(d, 1) == 8 * d;
    assert Shift8(d, 2) == 64 * d;
    assert Shift8(d, 3) == 512 * d;
    assert Shift8(d, 4) == 4096 * d;
    assert Shift8(d, 5) == 0x8000 * d;
    assert Shift8(d, 6) == 0x4_0000 * d;
    assert Shift8(d, 7) == 0x20_0000 * d;
    assert Shift8(d, 8) == 0x100_0000 * d;
    assert Shift8(d, 9) == 0x800_0000 * d;
  }

  /** Eleven octal digits with the low 32 bits of a negative 32-bit value still decode to that
      value for a signed 32-bit type. */
  lemma OldNegativeTimes(x: int)
    requires -0x8000_0000 <= x < 0
    ensures ParseField(Octal(x + 0x1_0000_0000, 11) + [NUL], true, -0x8000_0000, 0x7fff_ffff, false) == Some(x)
  {
    hide Octal, OctVal, Complement, OctalEnd;
    var v := x + 0x1_0000_0000;
    var f := Octal(v, 11) + [NUL];
    Shift8Ten(1);
    Shift8Ten(4);
    OctValOfOctal(v, 11, f);
    assert OctalAt(f, 0, 11);
    OctalFieldStart(f, 11);
    LeadingDigit(f, 0, 11);
    Shift8Ten(f[0] - ZERO);
    Shift8Ten(f[0] - ZERO + 1);
    ComplementValue(f, 0, 11);
  }

  /** When an octal field is out of range, its two's complement is tried; if the complement is not
      a negative of the range either, it is kept as a positive number.  So a field of octal digits is
      misread as another non-negative number exactly when its digits exceed the range, the leading
      digit is 2 or more, and the complement is beyond the negatives but within the range. */
  lemma OctalMisread(f: seq<byte>, n: nat, minval: int, maxval: int)
    requires n > 0 && |f| == n + 1 && OctalAt(f, 0, n) && f[n] == NUL
    requires INTMAX_MIN <= minval <= 0 <= maxval <= UINTMAX_MAX
    ensures var r, v, c := ParseField(f, true, minval, maxval, false), OctVal(f, 0, n), Complement(f, 0, n) + 1;
            (r.Some? && r.value >= 0 && r.value != v)
            <==> (maxval < v && ZERO + 2 <= f[0] && -minval < c <= maxval)
  {
    hide OctVal, Complement, OctalEnd;
    OctalFieldStart(f, n);
    ComplementNonNegative(f, 0, n);
  }

  /** For instance, eleven sevens read as 1 where sizes are 32 bits wide. */
  lemma ElevenSevens(f: seq<byte>)
    requires |f| == 12 && (forall k :: 0 <= k < 11 ==> f[k] == ZERO + 7) && f[11] == NUL
    ensures ParseField(f, true, 0, 0x7fff_ffff, false) == Some(1)
  {
    hide OctVal, Complement, OctalEnd;
    OctalFieldStart(f, 11);
    LeadingDigit(f, 0, 11);
    Shift8Ten(7);
    ComplementOfSevens(f, 11);
  }

  lemma {:induction false} ComplementOfSevens(f: seq<byte>, j: nat)
    requires 0 < j <= |f| && forall k :: 0 <= k < j ==> f[k] == ZERO + 7
    ensures Complement(f, 0, j) == 0
  {
    if j > 1 {
      ComplementOfSevens(f, j - 1);
    }
  }

  lemma {:induction false} ByteValSign(acc: int, f: seq<byte>, i: nat, j: nat)
    requires i <= j <= |f|
    ensures acc >= 0 ==> ByteVal(acc, f, i, j) >= 0
    ensures acc < 0 ==> ByteVal(acc, f, i, j) < 0
  {
    if i < j {
      ByteValSign(acc, f, i, j - 1);
    }
  }

  /** A base-256 field is read as what it denotes if that is in the range and refused if it is not, with a
      single exception: minus two to the power 64 is read as 0, because the last shift is not tested. */
  lemma Base256Misread(f: seq<byte>, typed: bool, minval: int, maxval: int)
    requires |f| >= 2 && (f[0] == 128 || f[0] == 255)
    requires INTMAX_MIN <= minval <= 0 <= maxval <= UINTMAX_MAX
    ensures var r, v := ParseField(f, typed, minval, maxval, false), ByteVal(if f[0] == 255 then -1 else 0, f, 1, |f|);
            && (r.Some? && r.value != v <==> v == -TWO64)
            && r == if v == -TWO64 then Some(0) else if minval <= v <= maxval then Some(v) else None
  {
    hide ByteVal;
    ByteValSign(if f[0] == 255 then -1 else 0, f, 1, |f|);
    assert BlankEnd(f, 0) == 0;
  }

  /** For instance, a size field of four bytes 255 and eight zero bytes denotes -2^64 and is read as 0. */
  lemma MinusTwo64(f: seq<byte>)
    requires |f| == 12 && (forall k :: 0 <= k < 4 ==> f[k] == 255) && (forall k :: 4 <= k < 12 ==> f[k] == 0)
    ensures ByteVal(-1, f, 1, 12) == -TWO64 && ParseField(f, true, 0, INTMAX_MAX, false) == Some(0)
  {
    assert ByteVal(-1, f, 1, 2) == -1;
    assert ByteVal(-1, f, 1, 4) == -1;
    assert ByteVal(-1, f, 1, 6) == -0x1_0000;
    assert ByteVal(-1, f, 1, 8) == -0x1_0000_0000;
    assert ByteVal(-1, f, 1, 10) == -0x1_0000_0000_0000;
    Base256Misread(f, true, 0, INTMAX_MAX);
  }
}

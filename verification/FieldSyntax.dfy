/** The notations of numeric header fields, character by character, and what from_header of src/list.c
    makes of them. */
module FieldSyntax {
  import opened Bytes
  import opened HeaderNumbers
  import opened HeaderNumberLaws

  /** Tab, line feed, vertical tab, form feed, carriage return and space. */
  predicate IsBlank(c: byte) {
    c == 9 || c == 10 || c == 11 || c == 12 || c == 13 || c == 32
  }

  ghost predicate Blanks(s: seq<byte>) {
    forall k :: 0 <= k < |s| ==> IsBlank(s[k])
  }

  /** What may precede a number: one NUL, then blanks. */
  ghost predicate Leading(s: seq<byte>) {
    Blanks(s) || (s != [] && s[0] == 0 && Blanks(s[1..]))
  }

  /** What may follow a number: nothing, or a NUL or a blank and then anything. */
  predicate Trailing(s: seq<byte>) {
    s == [] || s[0] == 0 || IsBlank(s[0])
  }

  /** The digits 0 to 7. */
  ghost predicate OctalDigits(s: seq<byte>) {
    forall k :: 0 <= k < |s| ==> 48 <= s[k] <= 55
  }

  function OctalNumber(s: seq<byte>): int {
    if s == [] then 0 else 8 * OctalNumber(s[..|s| - 1]) + s[|s| - 1] - 48
  }

  // ----- octal

  lemma {:induction false} BlanksEnd(f: seq<byte>, i: nat, j: nat)
    requires i <= j <= |f| && (forall k :: i <= k < j ==> IsBlank(f[k])) && (j < |f| ==> !IsBlank(f[j]))
    ensures BlankEnd(f, i) == j
    decreases j - i
  {
    if i < j {
      BlanksEnd(f, i + 1, j);
    }
  }

  /** Scanning starts behind what may precede a number. */
  lemma LeadingEnd(lead: seq<byte>, s: seq<byte>)
    requires Leading(lead) && s != [] && !IsBlank(s[0]) && (lead == [] ==> s[0] != 0)
    ensures var f := lead + s; BlankEnd(f, if f[0] == 0 then 1 else 0) == |lead|
  {
    var f := lead + s;
    assert forall k :: 0 <= k < |lead| ==> f[k] == lead[k];
    if lead != [] && lead[0] == 0 {
      forall k | 1 <= k < |lead| ensures IsBlank(f[k]) {
        assert f[k] == lead[1..][k - 1];
      }
      BlanksEnd(f, 1, |lead|);
    } else {
      BlanksEnd(f, 0, |lead|);
    }
  }

  lemma {:induction false} OctalNumberAt(f: seq<byte>, i: nat, digits: seq<byte>)
    requires i + |digits| <= |f| && f[i..i + |digits|] == digits
    ensures OctVal(f, i, i + |digits|) == OctalNumber(digits)
    decreases |digits|
  {
    if digits != [] {
      var n := |digits| - 1;
      assert f[i..i + n] == f[i..i + n + 1][..n];
      OctalNumberAt(f, i, digits[..n]);
      assert f[i + n] == f[i..i + n + 1][n];
    }
  }

  /** Where the parts of lead + digits + tail are. */
  lemma Parts(lead: seq<byte>, digits: seq<byte>, tail: seq<byte>)
    requires digits != []
    ensures var f, i, j := lead + digits + tail, |lead|, |lead| + |digits|;
            && j <= |f| && f[i..j] == digits && (forall k :: i <= k < j ==> f[k] == digits[k - i])
            && (j < |f| ==> tail != [] && f[j] == tail[0]) && (tail == [] ==> j == |f|)
            && f[j..] == tail && f == lead + (digits + tail) && (digits + tail)[0] == digits[0]
  {
  }

  /** Octal digits, with anything allowed before and after them, denote their value if it is in the range. */
  lemma OctalSyntax(lead: seq<byte>, digits: seq<byte>, tail: seq<byte>, typed: bool, minval: int, maxval: int, octalOnly: bool)
    requires Leading(lead) && digits != [] && OctalDigits(digits) && Trailing(tail)
    requires minval <= 0 <= maxval <= UINTMAX_MAX
    ensures OctalNumber(digits) <= maxval ==> ParseField(lead + digits + tail, typed, minval, maxval, octalOnly) == Some(OctalNumber(digits))
    ensures maxval < OctalNumber(digits) && (!typed || digits[0] < 50) ==> ParseField(lead + digits + tail, typed, minval, maxval, octalOnly) == None
  {
    hide BlankEnd, OctalEnd, OctVal, OctalNumber, Leading, ParseField;
    var f, i, j := lead + digits + tail, |lead|, |lead| + |digits|;
    Parts(lead, digits, tail);
    LeadingEnd(lead, digits + tail);
    OctalEndIs(f, i, j);
    OctalNumberAt(f, i, digits);
    OctalNumberNonNegative(digits);
    OctalFieldAt(f, i, j, typed, minval, maxval, octalOnly);
  }

  lemma OctalFieldAt(f: seq<byte>, i: nat, j: nat, typed: bool, minval: int, maxval: int, octalOnly: bool)
    requires i < j <= |f| && BlankEnd(f, if f[0] == 0 then 1 else 0) == i && 48 <= f[i] <= 55
    requires OctalEnd(f, i) == j && (j == |f| || f[j] == 0 || IsBlank(f[j])) && OctVal(f, i, j) >= 0
    requires minval <= 0 <= maxval <= UINTMAX_MAX
    ensures OctVal(f, i, j) <= maxval ==> ParseField(f, typed, minval, maxval, octalOnly) == Some(OctVal(f, i, j))
    ensures maxval < OctVal(f, i, j) && (!typed || f[i] < 50) ==> ParseField(f, typed, minval, maxval, octalOnly) == None
  {
    hide BlankEnd, OctalEnd, OctVal, Complement, Base64End, Base64Val, ByteVal;
  }

  lemma {:induction false} OctalNumberNonNegative(digits: seq<byte>)
    requires OctalDigits(digits)
    ensures OctalNumber(digits) >= 0
  {
    if digits != [] {
      OctalNumberNonNegative(digits[..|digits| - 1]);
    }
  }

  /** Digits that anything else follows are refused. */
  lemma OctalGarbage(lead: seq<byte>, digits: seq<byte>, tail: seq<byte>, typed: bool, minval: int, maxval: int, octalOnly: bool)
    requires Leading(lead) && digits != [] && OctalDigits(digits)
    requires tail != [] && !Trailing(tail) && !(48 <= tail[0] <= 55)
    ensures ParseField(lead + digits + tail, typed, minval, maxval, octalOnly) == None
  {
    hide BlankEnd, OctalEnd, OctVal, Complement, Leading, Base64End, Base64Val, ByteVal;
    Parts(lead, digits, tail);
    LeadingEnd(lead, digits + tail);
    OctalEndIs(lead + digits + tail, |lead|, |lead| + |digits|);
  }

  // ----- fields without a number

  /** Blanks alone are refused. */
  lemma BlankSyntax(lead: seq<byte>, typed: bool, minval: int, maxval: int, octalOnly: bool)
    requires Leading(lead) && lead != []
    ensures ParseField(lead, typed, minval, maxval, octalOnly) == None
  {
    hide BlankEnd, Scan;
    if lead[0] == 0 {
      forall k | 1 <= k < |lead| ensures IsBlank(lead[k]) {
        assert lead[k] == lead[1..][k - 1];
      }
      BlanksEnd(lead, 1, |lead|);
    } else {
      BlanksEnd(lead, 0, |lead|);
    }
  }

  /** A NUL where the number should begin stands for zero. */
  lemma NulSyntax(lead: seq<byte>, tail: seq<byte>, typed: bool, minval: int, maxval: int, octalOnly: bool)
    requires Leading(lead) && lead != [] && minval <= 0 <= maxval
    ensures ParseField(lead + [0] + tail, typed, minval, maxval, octalOnly) == Some(0)
  {
    hide BlankEnd, Leading, Base64End, Base64Val, ByteVal;
    Parts(lead, [0], tail);
    LeadingEnd(lead, [0] + tail);
  }

  /** Any other character is refused. */
  lemma OtherSyntax(lead: seq<byte>, c: byte, tail: seq<byte>, typed: bool, minval: int, maxval: int, octalOnly: bool)
    requires Leading(lead) && c != 0 && !IsBlank(c) && !(48 <= c <= 55)
    requires octalOnly || (c != 43 && c != 45 && (tail == [] || (c != 128 && c != 255)))
    ensures ParseField(lead + [c] + tail, typed, minval, maxval, octalOnly) == None
  {
    hide BlankEnd, Leading, Base64End, Base64Val, ByteVal;
    Parts(lead, [c], tail);
    LeadingEnd(lead, [c] + tail);
  }

  // ----- base 64

  /** A to Z, a to z, 0 to 9, plus and slash. */
  function Alphabet(): (s: seq<byte>)
    ensures |s| == 64
  {
    seq(26, k requires 0 <= k < 26 => 65 + k) + seq(26, k requires 0 <= k < 26 => 97 + k)
    + seq(10, k requires 0 <= k < 10 => 48 + k) + [43, 47]
  }

  lemma AlphabetDigit(d: nat)
    requires d < 64
    ensures Base64Digit(Alphabet()[d]) == d
  {
  }

  /** The digits of a base-64 number as characters. */
  function Letters(ds: seq<nat>): seq<byte>
    requires forall k :: 0 <= k < |ds| ==> ds[k] < 64
  {
    seq(|ds|, k requires 0 <= k < |ds| => Alphabet()[ds[k]])
  }

  function Number64(ds: seq<nat>): nat {
    if ds == [] then 0 else 64 * Number64(ds[..|ds| - 1]) + ds[|ds| - 1]
  }

  lemma {:induction false} Number64At(f: seq<byte>, i: nat, ds: seq<nat>)
    requires (forall k :: 0 <= k < |ds| ==> ds[k] < 64) && i + |ds| <= |f|
    requires forall k :: 0 <= k < |ds| ==> f[i + k] == Alphabet()[ds[k]]
    ensures Base64Val(f, i, i + |ds|) == Number64(ds)
    decreases |ds|
  {
    hide Base64Digit;
    if ds != [] {
      var n := |ds| - 1;
      Number64At(f, i, ds[..n]);
      AlphabetDigit(ds[n]);
    }
  }

  lemma {:induction false} LettersEnd(f: seq<byte>, i: nat, j: nat)
    requires i <= j <= |f| && (forall k :: i <= k < j ==> Base64Digit(f[k]) >= 0) && (j < |f| ==> Base64Digit(f[j]) < 0)
    ensures Base64End(f, i) == j
    decreases j - i
  {
    hide Base64Digit;
    if i < j {
      LettersEnd(f, i + 1, j);
    }
  }

  /** Plus or minus and base-64 digits denote their value, with that sign, if it is in the range. */
  lemma Base64Syntax(lead: seq<byte>, negative: bool, ds: seq<nat>, tail: seq<byte>, typed: bool, minval: int, maxval: int)
    requires Leading(lead) && (forall k :: 0 <= k < |ds| ==> ds[k] < 64) && Trailing(tail)
    requires INTMAX_MIN <= minval <= 0 <= maxval <= UINTMAX_MAX
    ensures var x: int := if negative then 0 - Number64(ds) else Number64(ds);
            ParseField(lead + ([if negative then 45 else 43] + Letters(ds)) + tail, typed, minval, maxval, false)
              == if minval <= x <= maxval then Some(x) else None
  {
    hide BlankEnd, Leading, Number64, ParseField, Alphabet;
    var digits := [if negative then 45 else 43] + Letters(ds);
    var f, i := lead + digits + tail, |lead| + 1;
    Parts(lead, digits, tail);
    LeadingEnd(lead, digits + tail);
    forall k | 0 <= k < |ds| ensures f[i + k] == Alphabet()[ds[k]] {
      assert f[i + k] == digits[1 + k];
    }
    LettersAt(f, i, ds, typed, minval, maxval);
  }

  lemma LettersAt(f: seq<byte>, i: nat, ds: seq<nat>, typed: bool, minval: int, maxval: int)
    requires (forall k :: 0 <= k < |ds| ==> ds[k] < 64) && 0 < i && i + |ds| <= |f|
    requires forall k :: 0 <= k < |ds| ==> f[i + k] == Alphabet()[ds[k]]
    requires Trailing(f[i + |ds|..]) && (f[i - 1] == 43 || f[i - 1] == 45)
    requires BlankEnd(f, if f[0] == 0 then 1 else 0) == i - 1 && INTMAX_MIN <= minval <= 0 <= maxval <= UINTMAX_MAX
    ensures var x: int := if f[i - 1] == 45 then 0 - Number64(ds) else Number64(ds);
            ParseField(f, typed, minval, maxval, false) == if minval <= x <= maxval then Some(x) else None
  {
    hide BlankEnd, Base64End, Base64Val, Base64Digit, Number64, ParseField, Alphabet;
    var j := i + |ds|;
    forall k | i <= k < j ensures Base64Digit(f[k]) >= 0 {
      assert f[k] == f[i + (k - i)];
      AlphabetDigit(ds[k - i]);
    }
    TrailingIsNoDigit(f[j..]);
    LettersEnd(f, i, j);
    Number64At(f, i, ds);
    Base64At(f, i, j, typed, minval, maxval);
  }

  lemma Base64At(f: seq<byte>, i: nat, j: nat, typed: bool, minval: int, maxval: int)
    requires 0 < i <= j <= |f| && BlankEnd(f, if f[0] == 0 then 1 else 0) == i - 1 && (f[i - 1] == 43 || f[i - 1] == 45)
    requires Base64End(f, i) == j && (j == |f| || f[j] == 0 || IsBlank(f[j])) && Base64Val(f, i, j) >= 0
    requires INTMAX_MIN <= minval <= 0 <= maxval <= UINTMAX_MAX
    ensures var x := if f[i - 1] == 45 then -Base64Val(f, i, j) else Base64Val(f, i, j);
            ParseField(f, typed, minval, maxval, false) == if minval <= x <= maxval then Some(x) else None
  {
    hide BlankEnd, Base64End, Base64Val, ByteVal, OctalEnd, OctVal;
  }

  lemma TrailingIsNoDigit(tail: seq<byte>)
    requires Trailing(tail)
    ensures tail != [] ==> Base64Digit(tail[0]) < 0
  {
  }

  /** For instance, three blanks, 644, a blank and a NUL are 420. */
  lemma BlankPadded(typed: bool)
    ensures ParseField([32, 32, 32, 54, 52, 52, 32, 0], typed, 0, INTMAX_MAX, false) == Some(420)
  {
    var lead, digits, tail := [32, 32, 32], [54, 52, 52], [32, 0];
    assert OctalNumber(digits) == 420 by {
      assert digits[..2] == [54, 52] && [54, 52][..1] == [54] && [54][..0] == [];
      assert OctalNumber([]) == 0 && OctalNumber([54]) == 6 && OctalNumber([54, 52]) == 52;
    }
    OctalSyntax(lead, digits, tail, typed, 0, INTMAX_MAX, false);
    assert lead + digits + tail == [32, 32, 32, 54, 52, 52, 32, 0];
  }

  // ----- the notation that to_chars chooses

  lemma {:induction false} OctalOf(x: int, n: nat)
    requires 0 <= x < Shift8(1, n)
    ensures OctalDigits(Octal(x, n)) && OctalNumber(Octal(x, n)) == x
    decreases n
  {
    if n > 0 {
      OctalOf(x / 8, n - 1);
      assert Octal(x, n)[..n - 1] == Octal(x / 8, n - 1);
    }
  }

  /** The limits of fields of eight and twelve bytes. */
  lemma FieldLimits()
    ensures MaxVal(7, 3) == 0x1f_ffff && MaxVal(11, 3) == 0x1_ffff_ffff
    ensures MaxVal(7, 8) == 0xff_ffff_ffff_ffff && MaxVal(11, 8) == UINTMAX_MAX
    ensures Shift8(1, 7) == 0x20_0000 && Shift8(1, 11) == 0x2_0000_0000
  {
    Pow2Shift8(7);
    Pow2Shift8(11);
    assert Pow2(8) == 0x100;
    assert Pow2(16) == 0x1_0000;
    assert Pow2(21) == 0x20_0000;
    assert Pow2(28) == 0x1000_0000;
    assert Pow2(33) == 0x2_0000_0000;
    assert Pow2(41) == 0x200_0000_0000;
    assert Pow2(49) == 0x2_0000_0000_0000;
    assert Pow2(56) == 0x100_0000_0000_0000;
  }

  /** A number that fits is written as octal digits and a NUL.  Any other is refused outside the GNU formats;
      in these it is written in base 256, behind a byte 128 or 255, if seven or eleven bytes hold it. */
  lemma FieldForm(gnu: bool, x: int, size: nat)
    requires size == 8 || size == 12
    ensures var r, octalMax, max := FieldText(gnu, x, size), if size == 8 then 0x1f_ffff else 0x1_ffff_ffff,
                                    if size == 8 then 0xff_ffff_ffff_ffff else 0xffff_ffff_ffff_ffff;
            if 0 <= x <= octalMax then
              r.Some? && |r.value| == size && r.value[size - 1] == 0
              && OctalDigits(r.value[..size - 1]) && OctalNumber(r.value[..size - 1]) == x
            else if gnu && -1 - max <= x <= max then
              r.Some? && |r.value| == size && r.value[0] == if x < 0 then 255 else 128
            else r.None?
  {
    hide Octal, Base256, MaxVal, OctalNumber, OctalDigits, Shift8;
    FieldLimits();
    if 0 <= x <= MaxVal(size - 1, 3) {
      OctalOf(x, size - 1);
      assert (Octal(x, size - 1) + [NUL])[..size - 1] == Octal(x, size - 1);
    }
  }
}

/** Numeric header fields: to_chars of src/create.c writes them, from_header of src/list.c reads them. */
module HeaderNumbers {
  import opened Bytes

  const TWO56: int := 0x100_0000_0000_0000
  const TWO64: int := 0x1_0000_0000_0000_0000

  lemma WrapNegative(x: int)
    requires -TWO64 <= x < 0
    ensures WrapUnsigned(x) == x + TWO64
  {
  }

  /** Negating a wrapped value wraps the negated value. */
  lemma WrapNegate(x: int)
    requires -TWO64 <= x < TWO64
    ensures WrapUnsigned(-WrapUnsigned(x)) == WrapUnsigned(-x)
  {
  }

  // ----- positional values

  predicate IsOctal(c: int) {
    ZERO <= c <= ZERO + 7
  }

  predicate OctalAt(s: seq<byte>, i: nat, j: nat) {
    i <= j <= |s| && forall k :: i <= k < j ==> IsOctal(s[k])
  }

  /** The number that the octal digits at indices i .. j of s denote. */
  function OctVal(s: seq<byte>, i: nat, j: nat): int
    requires i <= j <= |s|
  {
    if i == j then 0 else 8 * OctVal(s, i, j - 1) + (s[j - 1] - ZERO)
  }

  /** acc followed by the bytes at indices i .. j, in base 256. */
  function ByteVal(acc: int, s: seq<byte>, i: nat, j: nat): int
    requires i <= j <= |s|
  {
    if i == j then acc else 256 * ByteVal(acc, s, i, j - 1) + s[j - 1]
  }

  function Shift8(x: int, m: nat): int {
    if m == 0 then x else 8 * Shift8(x, m - 1)
  }

  function Shift256(x: int, m: nat): int {
    if m == 0 then x else 256 * Shift256(x, m - 1)
  }

  function Pow2(n: nat): (r: int)
    ensures r > 0
  {
    if n == 0 then 1 else 2 * Pow2(n - 1)
  }

  lemma {:induction false} OctValBound(s: seq<byte>, i: nat, j: nat)
    requires OctalAt(s, i, j)
    ensures 0 <= OctVal(s, i, j) < Shift8(1, j - i)
  {
    if i < j {
      OctValBound(s, i, j - 1);
    }
  }

  // ----- the writer

  /** The maximum uintmax_t of that many digits of that many bits. */
  function MaxVal(digits: nat, bits: nat): int {
    if digits * bits < 64 then Pow2(digits * bits) - 1 else UINTMAX_MAX
  }

  /** n octal digits of v, and n base-256 digits of the two's complement of v. */
  function Octal(v: int, n: nat): (s: seq<byte>)
    ensures |s| == n && OctalAt(s, 0, n)
    decreases n
  {
    if n == 0 then [] else Octal(v / 8, n - 1) + [ZERO + v % 8]
  }

  function Base256(v: int, n: nat): (s: seq<byte>)
    ensures |s| == n
    decreases n
  {
    if n == 0 then [] else Base256(v / 256, n - 1) + [v % 256]
  }

  /** f with text stored at index at. */
  function Put(f: seq<byte>, at: nat, text: seq<byte>): (r: seq<byte>)
    requires at + |text| <= |f|
    ensures |r| == |f| && r[at..at + |text|] == text
    ensures forall k :: 0 <= k < at || at + |text| <= k < |f| ==> r[k] == f[k]
  {
    f[..at] + text + f[at + |text|..]
  }

  /** The field text of x, or None if to_chars refuses it. */
  function FieldText(gnu: bool, x: int, size: nat): Option<seq<byte>>
    requires size > 1
  {
    if 0 <= x <= MaxVal(size - 1, 3) then Some(Octal(x, size - 1) + [NUL])
    else if gnu && (if x < 0 then -1 - x else x) <= MaxVal(size - 1, 8) then
      Some([if x < 0 then 255 else 128] + Base256(x, size - 1))
    else None
  }

  /** x is a value of an integer type of valsize bytes. */
  predicate ValueOfSize(x: int, valsize: nat) {
    1 <= valsize <= 8 && -Pow2(8 * valsize - 1) <= x < Pow2(8 * valsize)
  }

  lemma {:induction false} Pow2Monotone(a: nat, b: nat)
    requires a <= b
    ensures Pow2(a) <= Pow2(b)
  {
    if a < b {
      Pow2Monotone(a, b - 1);
    }
  }

  lemma Pow2Limits()
    ensures Pow2(63) == -INTMAX_MIN && Pow2(64) == UINTMAX_MAX + 1
  {
    assert Pow2(8) == 256;
    assert Pow2(16) == 0x1_0000;
    assert Pow2(24) == 0x100_0000;
    assert Pow2(32) == 0x1_0000_0000;
    assert Pow2(40) == 0x100_0000_0000;
    assert Pow2(48) == 0x1_0000_0000_0000;
    assert Pow2(56) == 0x100_0000_0000_0000;
  }

  lemma ValueRange(x: int, valsize: nat)
    requires ValueOfSize(x, valsize)
    ensures INTMAX_MIN <= x <= UINTMAX_MAX
  {
    Pow2Limits();
    Pow2Monotone(8 * valsize - 1, 63);
    Pow2Monotone(8 * valsize, 64);
  }

  /** A negative value whose octal form would fit its field always fits in base-256, so the
      branch that writes negative octal numbers is dead. */
  lemma NegativeOctalUnreachable(x: int, valsize: nat, size: nat)
    requires size > 1 && ValueOfSize(x, valsize)
    requires x < 0 && valsize * 8 <= (size - 1) * 3
    ensures -1 - x <= MaxVal(size - 1, 8)
  {
    ValueRange(x, valsize);
    if (size - 1) * 8 < 64 {
      Pow2Monotone(8 * valsize - 1, (size - 1) * 8);
    }
  }

  lemma PutTwice(f: seq<byte>, at: nat, a: seq<byte>, b: seq<byte>)
    requires at + |a| + |b| <= |f|
    ensures Put(Put(f, at + |a|, b), at, a) == Put(f, at, a + b)
    ensures Put(Put(f, at, a), at + |a|, b) == Put(f, at, a + b)
  {
  }

  /** f holds the last n - i entries of text at its end, and is g before that. */
  ghost predicate Filled(f: seq<byte>, at: nat, i: nat, text: seq<byte>, g: seq<byte>) {
    && |f| == |g| && at + |text| <= |f| && i <= |text|
    && (forall k :: i <= k < |text| ==> f[at + k] == text[k])
    && forall k :: 0 <= k < |f| && !(at + i <= k < at + |text|) ==> f[k] == g[k]
  }

  lemma FilledAll(f: seq<byte>, at: nat, text: seq<byte>, g: seq<byte>)
    requires Filled(f, at, 0, text, g)
    ensures f == Put(g, at, text)
  {
    var r := Put(g, at, text);
    forall k | 0 <= k < |f| ensures f[k] == r[k] {
      if at <= k < at + |text| {
        assert f[at + (k - at)] == text[k - at];
        assert r[k] == r[at..at + |text|][k - at];
      }
    }
  }

  /** What to_octal and to_base256 still have to store after k digits. */
  function OctalRest(v: int, k: nat): int
    decreases k
  {
    if k == 0 then v else OctalRest(v / 8, k - 1)
  }

  function ByteRest(v: int, k: nat): (r: int)
    ensures r < 0 <==> v < 0
    decreases k
  {
    if k == 0 then v else ByteRest(v / 256, k - 1)
  }

  lemma {:induction false} OctalRestStep(v: int, k: nat)
    ensures OctalRest(v, k + 1) == OctalRest(v, k) / 8
    decreases k
  {
    if k > 0 {
      OctalRestStep(v / 8, k - 1);
    }
  }

  lemma {:induction false} ByteRestStep(v: int, k: nat)
    ensures ByteRest(v, k + 1) == ByteRest(v, k) / 256
    decreases k
  {
    if k > 0 {
      ByteRestStep(v / 256, k - 1);
    }
  }

  lemma {:induction false} OctalDigit(v: int, n: nat, i: nat)
    requires 0 < i <= n
    ensures Octal(v, n)[i - 1] == ZERO + OctalRest(v, n - i) % 8
    decreases n
  {
    if i < n {
      OctalDigit(v / 8, n - 1, i);
    }
  }

  lemma {:induction false} Base256Digit(v: int, n: nat, i: nat)
    requires 0 < i <= n
    ensures Base256(v, n)[i - 1] == ByteRest(v, n - i) % 256
    decreases n
  {
    if i < n {
      Base256Digit(v / 256, n - 1, i);
    }
  }

  /** to_octal fills the field from its last digit. */
  method ToOctal(value: nat, where: array<byte>, at: nat, size: nat)
    requires size > 0 && at + size <= where.Length
    modifies where
    ensures where[..] == Put(old(where[..]), at, Octal(value, size))
  {
    hide Octal, Put;
    ghost var text := Octal(value, size);
    var v: int, i: nat := value, size;
    while true
      invariant 0 < i <= size && 0 <= v
      invariant v == OctalRest(value, size - i)
      invariant Filled(where[..], at, i, text, old(where[..]))
      decreases i
    {
      OctalDigit(value, size, i);
      OctalRestStep(value, size - i);
      i := i - 1;
      where[at + i] := ZERO + v % 8;
      v := v / 8;
      if i == 0 {
        break;
      }
    }
    FilledAll(where[..], at, text, old(where[..]));
  }

  /** to_base256 shifts the sign in from the left; its argument is x converted to uintmax_t. */
  method ToBase256(negative: bool, value: int, ghost x: int, where: array<byte>, at: nat, size: nat)
    requires size > 0 && at + size <= where.Length
    requires INTMAX_MIN <= x <= UINTMAX_MAX && negative == (x < 0) && value == WrapUnsigned(x)
    modifies where
    ensures where[..] == Put(old(where[..]), at, Base256(x, size))
  {
    hide Base256, Put;
    ghost var text := Base256(x, size);
    var v, i: nat := value, size;
    while true
      invariant 0 < i <= size && 0 <= v <= UINTMAX_MAX
      invariant v == ByteRest(x, size - i) + if negative then 0x1_0000_0000_0000_0000 else 0
      invariant Filled(where[..], at, i, text, old(where[..]))
      decreases i
    {
      Base256Digit(x, size, i);
      ByteRestStep(x, size - i);
      i := i - 1;
      where[at + i] := v % 256;
      // The propagated sign bits occupy the top byte, which v / 256 leaves clear.
      v := (if negative then 0xff00_0000_0000_0000 else 0) + v / 256;
      if i == 0 {
        break;
      }
    }
    FilledAll(where[..], at, text, old(where[..]));
  }

  /** to_chars: octal if it fits, else base-256 for the GNU formats, else refusal.  The source's
      further branch for negative octal values cannot be reached (NegativeOctalUnreachable). */
  method ToChars(gnu: bool, x: int, valsize: nat, where: array<byte>, at: nat, size: nat) returns (ok: bool)
    requires size > 1 && at + size <= where.Length
    requires ValueOfSize(x, valsize)
    modifies where
    ensures ok <==> FieldText(gnu, x, size).Some?
    ensures where[..] == if ok then Put(old(where[..]), at, FieldText(gnu, x, size).value) else old(where[..])
  {
    hide Octal, Base256, MaxVal, Pow2, Put, WrapUnsigned;
    ValueRange(x, valsize);
    if x < 0 {
      WrapNegative(x);
    }
    var negative, value := x < 0, WrapUnsigned(x);
    ghost var f := where[..];
    if !negative && value <= MaxVal(size - 1, 3) {
      StoreByte(where, at + size - 1, NUL);
      ToOctal(value, where, at, size - 1);
      PutTwice(f, at, Octal(x, size - 1), [NUL]);
      return true;
    } else if gnu {
      if (if negative then UINTMAX_MAX - value else value) <= MaxVal(size - 1, 8) {
        StoreByte(where, at, if negative then 255 else 128);
        ToBase256(negative, value, x, where, at + 1, size - 1);
        PutTwice(f, at, [if negative then 255 else 128], Base256(x, size - 1));
        return true;
      } else if negative && valsize * 8 <= (size - 1) * 3 {
        NegativeOctalUnreachable(x, valsize, size);
        assert false;
      }
    }
    return false;
  }

  method StoreByte(where: array<byte>, i: nat, c: byte)
    requires i < where.Length
    modifies where
    ensures where[..] == Put(old(where[..]), i, [c])
  {
    where[i] := c;
  }

  // ----- the reader

  predicate IsSpace(c: int) {
    c == SPACE || 9 <= c <= 13
  }

  /** The first index from i on that does not hold white space. */
  function BlankEnd(f: seq<byte>, i: nat): (j: nat)
    requires i <= |f|
    ensures i <= j <= |f| && (j < |f| ==> !IsSpace(f[j]))
    decreases |f| - i
  {
    if i < |f| && IsSpace(f[i]) then BlankEnd(f, i + 1) else i
  }

  /** Where the octal digits from index i on end. */
  function OctalEnd(f: seq<byte>, i: nat): (j: nat)
    requires i <= |f|
    ensures OctalAt(f, i, j) && (j < |f| ==> !IsOctal(f[j]))
    decreases |f| - i
  {
    if i < |f| && IsOctal(f[i]) then OctalEnd(f, i + 1) else i
  }

  /** The complement of octal digits whose leading digit has its sign bit forced on. */
  function Complement(f: seq<byte>, i: nat, j: nat): int
    requires i < j <= |f|
  {
    if j == i + 1 then 7 - (if f[i] - ZERO < 4 then f[i] - ZERO + 4 else f[i] - ZERO)
    else 8 * Complement(f, i, j - 1) + (7 - (f[j - 1] - ZERO))
  }

  /** base64_map minus one, or -1. */
  function Base64Digit(c: int): (d: int)
    ensures -1 <= d < 64
  {
    if 65 <= c <= 90 then c - 65
    else if 97 <= c <= 122 then c - 71
    else if 48 <= c <= 57 then c + 4
    else if c == 43 then 62
    else if c == 47 then 63
    else -1
  }

  function Base64End(f: seq<byte>, i: nat): (j: nat)
    requires i <= |f|
    ensures i <= j <= |f|
    decreases |f| - i
  {
    if i < |f| && Base64Digit(f[i]) >= 0 then Base64End(f, i + 1) else i
  }

  function Base64Val(f: seq<byte>, i: nat, j: nat): int
    requires i <= j <= |f|
  {
    if i == j then 0 else 64 * Base64Val(f, i, j - 1) + Base64Digit(f[j - 1])
  }

  /** A magnitude, its sign, and where scanning stopped. */
  datatype Scanned = Scanned(value: int, negative: bool, where: nat)

  /** What the field denotes from its first character that is not blank. */
  function Scan(f: seq<byte>, i: nat, typed: bool, minval: int, maxval: int, octalOnly: bool): Option<Scanned>
    requires i < |f|
  {
    if IsOctal(f[i]) then
      var j := OctalEnd(f, i);
      var v := OctVal(f, i, j);
      if maxval < v && ZERO + 2 <= f[i] && typed then
        var n := Complement(f, i, j) + 1;
        if UINTMAX_MAX < n then None else Some(Scanned(n, n <= -minval, j))
      else if UINTMAX_MAX < v then None
      else Some(Scanned(v, false, j))
    else if octalOnly then Some(Scanned(0, false, i))
    else if f[i] == MINUS || f[i] == 43 then
      var j := Base64End(f, i + 1);
      if UINTMAX_MAX < Base64Val(f, i + 1, j) then None
      else Some(Scanned(Base64Val(f, i + 1, j), f[i] == MINUS, j))
    else if i <= |f| - 2 && (f[i] == 128 || f[i] == 255) then
      var v := ByteVal(if f[i] == 255 then -1 else 0, f, i + 1, |f|);
      if -0x1_0000_0000_0000_0000 <= v <= UINTMAX_MAX
      then Some(Scanned(WrapUnsigned(if f[i] == 255 then -v else v), f[i] == 255, |f|))
      else None
    else Some(Scanned(0, false, i))
  }

  /** The number that a header field denotes within a range, or None. */
  function ParseField(f: seq<byte>, typed: bool, minval: int, maxval: int, octalOnly: bool): Option<int>
    requires |f| > 0
  {
    var i := BlankEnd(f, if f[0] == NUL then 1 else 0);
    if i == |f| then None
    else
      match Scan(f, i, typed, minval, maxval, octalOnly)
      case None => None
      case Some(Scanned(value, negative, where)) =>
        if where < |f| && f[where] != NUL && !IsSpace(f[where]) then None
        else if value <= (if negative then -minval else maxval) then Some(if negative then -value else value)
        else None
  }

  // ----- from_header, with its wrapping accumulators

  /** A wrapping accumulator and its sticky flag hold the exact value x. */
  predicate Accumulates(value: int, overflow: bool, x: int) {
    0 <= value <= UINTMAX_MAX && (overflow <==> UINTMAX_MAX < x) && (!overflow ==> value == x)
  }

  /** A digit goes into the place that a multiplication by eight has freed. */
  lemma AccumulateDigit(value: int, overflow: bool, x: int, d: int)
    requires Accumulates(value, overflow, 8 * x) && value % 8 == 0 && 0 <= d < 8
    ensures Accumulates(value + d, overflow, 8 * x + d)
  {
  }

  lemma AccumulateShift(value: int, overflow: bool, x: int)
    requires Accumulates(value, overflow, x) && 0 <= x
    ensures Accumulates(WrapUnsigned(value * 8), overflow || value * 8 != WrapUnsigned(value * 8), 8 * x)
    ensures WrapUnsigned(value * 8) % 8 == 0
  {
    var hi := value / 0x2000_0000_0000_0000;
    var lo := value - 0x2000_0000_0000_0000 * hi;
    assert value * 8 == TWO64 * hi + 8 * lo && 0 <= 8 * lo < TWO64;
    WrapIs(value * 8, hi, 8 * lo);
  }

  lemma WrapIs(x: int, k: int, r: int)
    requires x == TWO64 * k + r && 0 <= r < TWO64
    ensures WrapUnsigned(x) == r
  {
  }

  lemma AccumulateIncrement(value: int, overflow: bool, x: int)
    requires Accumulates(value, overflow, x) && 0 <= x
    ensures Accumulates(WrapUnsigned(value + 1), overflow || value + 1 != WrapUnsigned(value + 1), x + 1)
  {
  }

  lemma OctalSteps(f: seq<byte>, i: nat, where: nat)
    requires i <= where < |f| && OctalAt(f, i, where + 1)
    ensures OctVal(f, i, i) == 0 && 0 <= OctVal(f, i, where)
    ensures 0 <= OctVal(f, i, where + 1) == 8 * OctVal(f, i, where) + (f[where] - ZERO)
    ensures OctalEnd(f, where) == OctalEnd(f, where + 1)
    ensures where + 1 == |f| || !IsOctal(f[where + 1]) ==> OctalEnd(f, where + 1) == where + 1
    ensures i < where ==> 0 <= Complement(f, i, where)
    ensures i < where ==> 0 <= Complement(f, i, where + 1) == 8 * Complement(f, i, where) + 7 - (f[where] - ZERO)
  {
    OctValBound(f, i, where);
    OctValBound(f, i, where + 1);
    if i < where {
      ComplementNonNegative(f, i, where);
    }
  }

  lemma {:induction false} ComplementNonNegative(f: seq<byte>, i: nat, j: nat)
    requires i < j <= |f| && OctalAt(f, i, j)
    ensures 0 <= Complement(f, i, j)
  {
    if i + 1 < j {
      ComplementNonNegative(f, i, j - 1);
    }
  }

  method ScanOctal(f: seq<byte>, i: nat) returns (value: int, where: nat, overflow: bool)
    requires i < |f| && IsOctal(f[i])
    ensures where == OctalEnd(f, i) && i < where
    ensures overflow <==> UINTMAX_MAX < OctVal(f, i, where)
    ensures !overflow ==> value == OctVal(f, i, where)
  {
    hide OctVal, OctalEnd, Complement, WrapUnsigned;
    value, where, overflow := 0, i, false;
    OctalSteps(f, i, i);
    while true
      invariant i <= where < |f| && OctalAt(f, i, where + 1) && OctalEnd(f, i) == OctalEnd(f, where)
      invariant Accumulates(value, overflow, 8 * OctVal(f, i, where)) && value % 8 == 0
      decreases |f| - where
    {
      OctalSteps(f, i, where);
      AccumulateDigit(value, overflow, OctVal(f, i, where), f[where] - ZERO);
      value := value + (f[where] - ZERO);
      where := where + 1;
      if where == |f| || !IsOctal(f[where]) {
        break;
      }
      AccumulateShift(value, overflow, OctVal(f, i, where));
      overflow := overflow || value * 8 != WrapUnsigned(value * 8);
      value := WrapUnsigned(value * 8);
    }
  }

  /** What the second pass accumulates before index where: nothing at first, and the complement later. */
  function ComplementBefore(f: seq<byte>, i: nat, where: nat): int
    requires i <= where <= |f|
  {
    if where == i then 0 else Complement(f, i, where)
  }

  method ScanComplement(f: seq<byte>, i: nat) returns (value: int, where: nat, overflow: bool)
    requires i < |f| && IsOctal(f[i])
    ensures where == OctalEnd(f, i) && i < where
    ensures overflow <==> UINTMAX_MAX < Complement(f, i, where) + 1
    ensures !overflow ==> value == Complement(f, i, where) + 1 >= 1
  {
    hide OctVal, OctalEnd, Complement, WrapUnsigned;
    var digit := if f[i] - ZERO < 4 then f[i] - ZERO + 4 else f[i] - ZERO;
    value, where, overflow := 0, i, false;
    ComplementStart(f, i);
    while true
      invariant i <= where < |f| && OctalAt(f, i, where + 1) && OctalEnd(f, i) == OctalEnd(f, where)
      invariant 0 <= digit <= 7 && digit == if where == i then 7 - Complement(f, i, i + 1) else f[where] - ZERO
      invariant Accumulates(value, overflow, 8 * ComplementBefore(f, i, where)) && value % 8 == 0
      decreases |f| - where
    {
      OctalSteps(f, i, where);
      AccumulateDigit(value, overflow, ComplementBefore(f, i, where), 7 - digit);
      value := value + (7 - digit);
      where := where + 1;
      if where == |f| || !IsOctal(f[where]) {
        break;
      }
      digit := f[where] - ZERO;
      AccumulateShift(value, overflow, Complement(f, i, where));
      overflow := overflow || value * 8 != WrapUnsigned(value * 8);
      value := WrapUnsigned(value * 8);
    }
    AccumulateIncrement(value, overflow, Complement(f, i, where));
    overflow := overflow || value + 1 != WrapUnsigned(value + 1);
    value := WrapUnsigned(value + 1);
  }

  lemma ComplementStart(f: seq<byte>, i: nat)
    requires i < |f| && IsOctal(f[i])
    ensures Complement(f, i, i + 1) == 7 - (if f[i] - ZERO < 4 then f[i] - ZERO + 4 else f[i] - ZERO) >= 0
  {
  }

  lemma {:induction false} Base64Grows(f: seq<byte>, i: nat, k: nat, j: nat)
    requires i <= k <= j <= |f| && forall x :: i <= x < j ==> Base64Digit(f[x]) >= 0
    ensures 0 <= Base64Val(f, i, k) <= Base64Val(f, i, j)
    decreases j
  {
    if k < j {
      Base64Grows(f, i, k, j - 1);
    } else if i < k {
      Base64Grows(f, i, k - 1, k - 1);
    }
  }

  lemma {:induction false} Base64Digits(f: seq<byte>, i: nat)
    requires i <= |f|
    ensures forall x :: i <= x < Base64End(f, i) ==> Base64Digit(f[x]) >= 0
    decreases |f| - i
  {
    if i < |f| && Base64Digit(f[i]) >= 0 {
      Base64Digits(f, i + 1);
    }
  }

  /** The obsolete signed base-64 form; the magnitude is None when it overflows. */
  method ScanBase64(f: seq<byte>, i: nat) returns (value: Option<int>, where: nat)
    requires i <= |f|
    ensures value.Some? <==> Base64Val(f, i, Base64End(f, i)) <= UINTMAX_MAX
    ensures value.Some? ==> where == Base64End(f, i) && value.value == Base64Val(f, i, where)
  {
    hide Base64Digit;
    var v := 0;
    where := i;
    Base64Digits(f, i);
    while where < |f| && Base64Digit(f[where]) >= 0
      invariant i <= where <= |f| && Base64End(f, i) == Base64End(f, where)
      invariant v == Base64Val(f, i, where) && 0 <= v <= UINTMAX_MAX
      decreases |f| - where
    {
      Base64Grows(f, i, where + 1, Base64End(f, i));
      if v * 64 != WrapUnsigned(v * 64) {
        return None, where;
      }
      v := WrapUnsigned(v * 64) + Base64Digit(f[where]);
      where := where + 1;
    }
    value := Some(v);
  }

  lemma {:induction false} ByteValGrows(acc: int, f: seq<byte>, i: nat, k: nat, j: nat)
    requires i <= k < j <= |f|
    ensures TWO56 <= ByteVal(acc, f, i, k) ==> UINTMAX_MAX < ByteVal(acc, f, i, j)
    ensures ByteVal(acc, f, i, k) < -TWO56 ==> ByteVal(acc, f, i, j) < -TWO64
    decreases j
  {
    if k + 1 < j {
      ByteValGrows(acc, f, i, k, j - 1);
    }
  }

  predicate Roomy(a: int, negative: bool) {
    if negative then -TWO56 <= a < 0 else 0 <= a < TWO56
  }

  /** Shifting a byte into a wrapped accumulator, and the test that no bit will be lost. */
  lemma ShiftIn(a: int, b: byte, negative: bool)
    requires Roomy(a, negative)
    ensures WrapUnsigned(a) % TWO56 * 256 + b == WrapUnsigned(256 * a + b)
    ensures var v := WrapUnsigned(256 * a + b);
            v % TWO56 + (if negative then 255 * TWO56 else 0) == v <==> Roomy(256 * a + b, negative)
  {
    if negative {
      assert WrapUnsigned(a) == a + TWO64;
      assert (a + TWO64) % TWO56 == if a == -TWO56 then 0 else a + TWO56 by {
        assert a + TWO64 == 255 * TWO56 + (a + TWO56);
      }
      assert WrapUnsigned(256 * a + b) == 256 * a + b + TWO64;
    }
  }

  /** Base-256 bytes from index i to the end, after an all-zero or all-one start. */
  method ScanBase256(f: seq<byte>, i: nat, negative: bool) returns (value: Option<int>)
    requires i < |f|
    ensures var v := ByteVal(if negative then -1 else 0, f, i, |f|);
            value == if -TWO64 <= v <= UINTMAX_MAX then Some(WrapUnsigned(v)) else None
  {
    hide WrapUnsigned;
    ghost var acc := if negative then -1 else 0;
    assert WrapUnsigned(acc) == if negative then UINTMAX_MAX else 0 by { WrapNegative(-1); }
    var v, where := if negative then UINTMAX_MAX else 0, i;
    while true
      invariant i <= where < |f| && v == WrapUnsigned(ByteVal(acc, f, i, where))
      invariant Roomy(ByteVal(acc, f, i, where), negative)
      decreases |f| - where
    {
      ShiftIn(ByteVal(acc, f, i, where), f[where], negative);
      v := v % TWO56 * 256 + f[where];
      where := where + 1;
      if where == |f| {
        break;
      }
      ByteValGrows(acc, f, i, where, |f|);
      if v % TWO56 + (if negative then 255 * TWO56 else 0) != v {
        return None;
      }
    }
    value := Some(v);
  }

  /** from_header reads the number that the field denotes within the range, or reports an error. */
  method FromHeader(f: seq<byte>, typed: bool, minval: int, maxval: int, octalOnly: bool) returns (r: Option<int>)
    requires |f| > 0 && INTMAX_MIN <= minval <= 0 <= maxval <= UINTMAX_MAX
    ensures r == ParseField(f, typed, minval, maxval, octalOnly)
  {
    hide OctVal, Complement, Base64Val, ByteVal, OctalEnd, Base64End, Base64Digit;
    var where := if f[0] == NUL then 1 else 0;
    ghost var start := where;
    while true
      invariant where <= |f| && BlankEnd(f, start) == BlankEnd(f, where)
      decreases |f| - where
    {
      if where == |f| {
        return None;
      }
      if !IsSpace(f[where]) {
        break;
      }
      where := where + 1;
    }
    var scanned := ScanValue(f, where, typed, minval, maxval, octalOnly);
    if scanned.None? {
      return None;
    }
    var Scanned(value, negative, end) := scanned.value;
    if end < |f| && f[end] != NUL && !IsSpace(f[end]) {
      return None;
    }
    if value <= (if negative then -minval else maxval) {
      return Some(if negative then -value else value);
    }
    return None;
  }

  method ScanValue(f: seq<byte>, i: nat, typed: bool, minval: int, maxval: int, octalOnly: bool)
    returns (r: Option<Scanned>)
    requires i < |f| && INTMAX_MIN <= minval <= 0 <= maxval <= UINTMAX_MAX
    ensures r == Scan(f, i, typed, minval, maxval, octalOnly)
  {
    hide OctVal, Complement, Base64Val, ByteVal, OctalEnd, Base64End, Base64Digit, WrapUnsigned;
    if IsOctal(f[i]) {
      var value, where, overflow := ScanOctal(f, i);
      var negative := false;
      if (overflow || maxval < value) && ZERO + 2 <= f[i] && typed {
        value, where, overflow := ScanComplement(f, i);
        if !overflow && value <= -minval {
          negative := true;
        }
      }
      return if overflow then None else Some(Scanned(value, negative, where));
    } else if octalOnly {
      return Some(Scanned(0, false, i));
    } else if f[i] == MINUS || f[i] == 43 {
      var value, where := ScanBase64(f, i + 1);
      return if value.None? then None else Some(Scanned(value.value, f[i] == MINUS, where));
    } else if i <= |f| - 2 && (f[i] == 128 || f[i] == 255) {
      var negative := f[i] == 255;
      var value := ScanBase256(f, i + 1, negative);
      if value.None? {
        return None;
      }
      WrapNegate(ByteVal(if negative then -1 else 0, f, i + 1, |f|));
      return Some(Scanned(if negative then WrapUnsigned(-value.value) else value.value, negative, |f|));
    } else {
      return Some(Scanned(0, false, i));
    }
  }
}

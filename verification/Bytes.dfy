/** Bytes, blocks and the fixed-width integers of the C code. */
module Bytes {

  datatype Option<T> = None | Some(value: T)

  type byte = x: int | 0 <= x < 256

  const BLOCKSIZE: int := 512

  const NUL: byte := 0
  const NEWLINE: byte := 10
  const SPACE: byte := 32
  const MINUS: byte := 45
  const DOT: byte := 46
  const SLASH: byte := 47
  const ZERO: byte := 48

  const INTMAX_MIN: int := -0x8000_0000_0000_0000
  const INTMAX_MAX: int := 0x7fff_ffff_ffff_ffff
  const UINTMAX_MAX: int := 0xffff_ffff_ffff_ffff

  /** Nanoseconds in a second. */
  const BILLION: int := 1_000_000_000

  /** The value an intmax_t holds after an operation whose exact result is x. */
  function WrapSigned(x: int): (r: int)
    ensures INTMAX_MIN <= r <= INTMAX_MAX
    ensures INTMAX_MIN <= x <= INTMAX_MAX ==> r == x
  {
    (x - INTMAX_MIN) % 0x1_0000_0000_0000_0000 + INTMAX_MIN
  }

  /** The value a uintmax_t holds after an operation whose exact result is x. */
  function WrapUnsigned(x: int): (r: int)
    ensures 0 <= r <= UINTMAX_MAX
    ensures 0 <= x <= UINTMAX_MAX ==> r == x
  {
    x % 0x1_0000_0000_0000_0000
  }

  function Min(a: int, b: int): int {
    if a < b then a else b
  }

  function Max(a: int, b: int): int {
    if a < b then b else a
  }

  function Zeros(n: nat): (s: seq<byte>)
    ensures |s| == n
    ensures forall i :: 0 <= i < n ==> s[i] == 0
  {
    seq(n, _ => 0)
  }

  /** How many blocks hold n bytes. */
  function BlocksFor(n: nat): (k: nat)
    ensures (k - 1) * BLOCKSIZE < n <= k * BLOCKSIZE
  {
    (n + BLOCKSIZE - 1) / BLOCKSIZE
  }

  /** Whole blocks in front add their number. */
  lemma BlocksAdd(a: nat, b: nat)
    requires a % BLOCKSIZE == 0
    ensures BlocksFor(a + b) == BlocksFor(a) + BlocksFor(b) && BLOCKSIZE * BlocksFor(a) == a
    ensures b % BLOCKSIZE == 0 ==> (a + b) % BLOCKSIZE == 0
  {
    var q := a / BLOCKSIZE;
    assert a == BLOCKSIZE * q;
  }

  lemma SliceOfSlice(s: seq<byte>, from: nat, to: nat, i: nat, j: nat)
    requires from <= to <= |s| && i <= j <= to - from
    ensures s[from..to][i..j] == s[from + i..from + j]
  {
    var a, b := s[from..to][i..j], s[from + i..from + j];
    assert |a| == |b|;
    forall k | 0 <= k < |a| ensures a[k] == b[k] {
      assert a[k] == s[from..to][i + k] == s[from + (i + k)];
      assert b[k] == s[from + i + k];
    }
  }

  /** The bytes of s before its first NUL. */
  function CStr(s: seq<byte>): (r: seq<byte>)
    ensures r <= s
  {
    s[..NulEnd(s, 0)]
  }

  function NulEnd(s: seq<byte>, i: nat): (j: nat)
    requires i <= |s|
    ensures i <= j <= |s| && (j < |s| ==> s[j] == NUL)
    ensures forall k :: i <= k < j ==> s[k] != NUL
    decreases |s| - i
  {
    if i < |s| && s[i] != NUL then NulEnd(s, i + 1) else i
  }

  /** The character at index i of a NUL-terminated string. */
  function At(s: seq<byte>, i: nat): byte {
    if i < |s| then s[i] else NUL
  }

  predicate NulFree(s: seq<byte>) {
    forall i :: 0 <= i < |s| ==> s[i] != NUL
  }

  /** The text t stands in data at index p. */
  ghost predicate Here(data: seq<byte>, p: nat, t: seq<byte>) {
    p + |t| <= |data| && data[p..p + |t|] == t
  }

  lemma HereParts(data: seq<byte>, p: nat, a: seq<byte>, b: seq<byte>)
    requires Here(data, p, a + b)
    ensures Here(data, p, a) && Here(data, p + |a|, b)
  {
    var t := a + b;
    SliceOfSlice(data, p, p + |t|, 0, |a|);
    SliceOfSlice(data, p, p + |t|, |a|, |t|);
    assert t[0..|a|] == a && t[|a|..|t|] == b;
  }
}

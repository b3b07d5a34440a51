/** The header checksum: simple_finish_header of src/create.c and tar_checksum of src/list.c. */
module HeaderBlock {
  import opened Bytes
  import opened HeaderNumbers
  import opened HeaderNumberLaws

  const CHKSUM: int := 148
  const CHKSUM_SIZE: int := 8
  const INT_MAX: int := 0x7fff_ffff

  datatype Status = StillUnread | Success | SuccessExtended | ZeroBlock | EndOfFile | Failure

  type Block = b: seq<byte> | |b| == BLOCKSIZE witness Zeros(BLOCKSIZE)

  function Sum(s: seq<byte>, i: nat, j: nat): int
    requires i <= j <= |s|
  {
    if i == j then 0 else Sum(s, i, j - 1) + s[j - 1]
  }

  /** How many bytes are negative when taken as signed char. */
  function High(s: seq<byte>, i: nat, j: nat): int
    requires i <= j <= |s|
  {
    if i == j then 0 else High(s, i, j - 1) + if s[j - 1] >= 128 then 1 else 0
  }

  /** The block with blanks in the checksum field. */
  function Blank(b: Block): (r: Block)
    ensures forall k :: 0 <= k < BLOCKSIZE ==>
              r[k] == if CHKSUM <= k < CHKSUM + CHKSUM_SIZE then SPACE else b[k]
  {
    seq(BLOCKSIZE, i requires 0 <= i < BLOCKSIZE =>
      if CHKSUM <= i < CHKSUM + CHKSUM_SIZE then SPACE else b[i])
  }

  /** The POSIX checksum and the one of systems whose char was signed. */
  function UnsignedSum(b: Block): int {
    Sum(Blank(b), 0, BLOCKSIZE)
  }

  function SignedSum(b: Block): int {
    Sum(Blank(b), 0, BLOCKSIZE) - 256 * High(Blank(b), 0, BLOCKSIZE)
  }

  function RecordedSum(b: Block): Option<int> {
    ParseField(b[CHKSUM..CHKSUM + CHKSUM_SIZE], false, 0, INT_MAX, true)
  }

  function ChecksumStatus(b: Block): Status {
    if Sum(b, 0, BLOCKSIZE) == 0 then ZeroBlock
    else
      var recorded := RecordedSum(b);
      if recorded.None? then Failure
      else if recorded.value == UnsignedSum(b) || recorded.value == SignedSum(b) then Success
      else Failure
  }

  /** The header with its checksum stored: six octal digits, a NUL and a blank. */
  function Finished(b: Block): Block {
    Put(b, CHKSUM, Octal(UnsignedSum(b), 6) + [NUL, SPACE])
  }

  lemma {:induction false} SumSplit(s: seq<byte>, i: nat, k: nat, j: nat)
    requires i <= k <= j <= |s|
    ensures Sum(s, i, j) == Sum(s, i, k) + Sum(s, k, j)
    ensures High(s, i, j) == High(s, i, k) + High(s, k, j)
    decreases j
  {
    if k < j {
      SumSplit(s, i, k, j - 1);
    }
  }

  lemma {:induction false} SumEqual(s: seq<byte>, t: seq<byte>, i: nat, j: nat)
    requires i <= j <= |s| && j <= |t| && forall k :: i <= k < j ==> s[k] == t[k]
    ensures Sum(s, i, j) == Sum(t, i, j) && High(s, i, j) == High(t, i, j)
    decreases j
  {
    if i < j {
      SumEqual(s, t, i, j - 1);
    }
  }

  lemma {:induction false} SumBounds(s: seq<byte>, i: nat, j: nat)
    requires i <= j <= |s|
    ensures 0 <= Sum(s, i, j) <= 255 * (j - i)
    ensures 0 <= High(s, i, j) <= j - i
    decreases j
  {
    if i < j {
      SumBounds(s, i, j - 1);
    }
  }

  lemma {:induction false} SumOfBlanks(s: seq<byte>, i: nat, j: nat)
    requires i <= j <= |s| && forall k :: i <= k < j ==> s[k] == SPACE
    ensures Sum(s, i, j) == SPACE * (j - i) && High(s, i, j) == 0
    decreases j
  {
    if i < j {
      SumOfBlanks(s, i, j - 1);
    }
  }

  /** The blanked sums are the raw ones with the checksum field exchanged for blanks. */
  lemma BlankSums(b: Block)
    ensures UnsignedSum(b) == Sum(b, 0, BLOCKSIZE) - Sum(b, CHKSUM, CHKSUM + CHKSUM_SIZE) + 256
    ensures High(Blank(b), 0, BLOCKSIZE) == High(b, 0, BLOCKSIZE) - High(b, CHKSUM, CHKSUM + CHKSUM_SIZE)
  {
    hide Sum, High;
    var r, i, j := Blank(b), CHKSUM, CHKSUM + CHKSUM_SIZE;
    SumEqual(b, r, 0, i);
    SumEqual(b, r, j, BLOCKSIZE);
    SumOfBlanks(r, i, j);
    SumSplit(b, 0, i, BLOCKSIZE);
    SumSplit(b, i, j, BLOCKSIZE);
    SumSplit(r, 0, i, BLOCKSIZE);
    SumSplit(r, i, j, BLOCKSIZE);
  }

  /** tar_checksum adds up the bytes twice, takes the checksum field out again, and compares. */
  method TarChecksum(b: Block) returns (status: Status)
    ensures status == ChecksumStatus(b)
  {
    var unsignedSum, signedSum := 0, 0;
    for i := 0 to BLOCKSIZE
      invariant unsignedSum == Sum(b, 0, i) && signedSum == unsignedSum - 256 * High(b, 0, i)
    {
      unsignedSum := unsignedSum + b[i];
      signedSum := signedSum + if b[i] >= 128 then b[i] - 256 else b[i];
    }
    if unsignedSum == 0 {
      return ZeroBlock;
    }
    ghost var u, s := unsignedSum, signedSum;
    for i := 0 to CHKSUM_SIZE
      invariant unsignedSum == u - Sum(b, CHKSUM, CHKSUM + i)
      invariant signedSum == s - Sum(b, CHKSUM, CHKSUM + i) + 256 * High(b, CHKSUM, CHKSUM + i)
    {
      var c := b[CHKSUM + i];
      unsignedSum := unsignedSum - c;
      signedSum := signedSum - if c >= 128 then c - 256 else c;
    }
    unsignedSum := unsignedSum + SPACE * CHKSUM_SIZE;
    signedSum := signedSum + SPACE * CHKSUM_SIZE;
    BlankSums(b);
    var recorded := FromHeader(b[CHKSUM..CHKSUM + CHKSUM_SIZE], false, 0, INT_MAX, true);
    if recorded.None? {
      return Failure;
    }
    if unsignedSum != recorded.value && signedSum != recorded.value {
      return Failure;
    }
    return Success;
  }

  lemma ChecksumFits(b: Block)
    ensures 0 <= UnsignedSum(b) <= MaxVal(6, 3)
  {
    hide Sum, High;
    BlankSums(b);
    SumSplit(b, 0, CHKSUM, BLOCKSIZE);
    SumSplit(b, CHKSUM, CHKSUM + CHKSUM_SIZE, BLOCKSIZE);
    SumBounds(b, 0, CHKSUM);
    SumBounds(b, CHKSUM + CHKSUM_SIZE, BLOCKSIZE);
    assert Pow2(9) == 512;
    assert Pow2(18) == 0x4_0000;
  }

  /** simple_finish_header blanks the field, adds up the bytes, and stores the sum in place. */
  method SimpleFinishHeader(h: array<byte>)
    requires h.Length == BLOCKSIZE
    modifies h
    ensures h[..] == Finished(old(h[..]))
  {
    hide Octal, Put, High, MaxVal;
    ghost var b: Block := h[..];
    for i := 0 to CHKSUM_SIZE
      invariant forall k :: 0 <= k < BLOCKSIZE ==> h[k] == if CHKSUM <= k < CHKSUM + i then SPACE else b[k]
    {
      h[CHKSUM + i] := SPACE;
    }
    assert h[..] == Blank(b);
    var sum: int := 0;
    for i := 0 to BLOCKSIZE
      invariant sum == Sum(Blank(b), 0, i) && h[..] == Blank(b)
    {
      assert h[i] == h[..][i];
      sum := sum + h[i];
    }
    ChecksumFits(b);
    StoreByte(h, CHKSUM + 6, NUL);
    ToOctal(sum, h, CHKSUM, 6);
    FinishedPieces(b);
  }

  lemma FinishedPieces(b: Block)
    ensures Put(Put(Blank(b), CHKSUM + 6, [NUL]), CHKSUM, Octal(UnsignedSum(b), 6)) == Finished(b)
  {
    hide Octal, Sum;
    PutTwice(Blank(b), CHKSUM, Octal(UnsignedSum(b), 6), [NUL]);
  }

  lemma FinishedField(b: Block)
    ensures RecordedSum(Finished(b)) == Some(UnsignedSum(b))
    ensures Blank(Finished(b)) == Blank(b)
  {
    hide Sum, High, Octal, MaxVal, ParseField;
    ChecksumFits(b);
    var sum, f := UnsignedSum(b), Finished(b);
    var field := f[CHKSUM..CHKSUM + CHKSUM_SIZE];
    assert field == Octal(sum, 6) + [NUL, SPACE];
    SixDigits();
    OctalFieldValue(field, sum, 6, false, 0, INT_MAX, true);
  }

  /** Every finished header is accepted, and its sum fits the six octal digits. */
  lemma FinishedAccepted(b: Block)
    ensures 0 <= UnsignedSum(b) < 0x4_0000
    ensures ChecksumStatus(Finished(b)) == Success
  {
    hide Sum, High, Octal, MaxVal, Put;
    ChecksumFits(b);
    SixDigits();
    FinishedField(b);
    NotZero(Finished(b));
  }

  lemma SixDigits()
    ensures MaxVal(6, 3) == 0x3_ffff
  {
    assert Pow2(9) == 512;
    assert Pow2(18) == 0x4_0000;
  }

  /** A block with a recorded sum in digits is no zero block. */
  lemma NotZero(b: Block)
    requires b[CHKSUM] != NUL
    ensures Sum(b, 0, BLOCKSIZE) > 0
  {
    hide Sum, High;
    SumSplit(b, 0, CHKSUM, BLOCKSIZE);
    SumSplit(b, CHKSUM, CHKSUM + 1, BLOCKSIZE);
    SumBounds(b, 0, CHKSUM);
    SumBounds(b, CHKSUM + 1, BLOCKSIZE);
    OneByte(b, CHKSUM);
  }

  lemma OneByte(s: seq<byte>, i: nat)
    requires i < |s|
    ensures Sum(s, i, i + 1) == s[i]
    ensures High(s, i, i + 1) == if s[i] >= 128 then 1 else 0
  {
    assert Sum(s, i, i) == 0 && High(s, i, i) == 0;
  }

  lemma SumUpdate(s: seq<byte>, i: nat, c: byte)
    requires i < |s|
    ensures Sum(s[i := c], 0, |s|) == Sum(s, 0, |s|) - s[i] + c
  {
    hide Sum, High;
    var t := s[i := c];
    SumEqual(s, t, 0, i);
    SumEqual(s, t, i + 1, |s|);
    OneByte(s, i);
    OneByte(t, i);
    SumSplit(s, 0, i, |s|);
    SumSplit(s, i, i + 1, |s|);
    SumSplit(t, 0, i, |s|);
    SumSplit(t, i, i + 1, |s|);
  }

  /** Changing any one byte outside the checksum field of a finished header is detected, although
      two different sums are accepted. */
  lemma SingleByteDetected(b: Block, i: nat, c: byte)
    requires i < BLOCKSIZE && !(CHKSUM <= i < CHKSUM + CHKSUM_SIZE)
    requires c != Finished(b)[i]
    ensures ChecksumStatus(Finished(b)[i := c]) == Failure
  {
    hide Sum, High, Octal, MaxVal, ParseField, Put;
    var f := Finished(b);
    var g := f[i := c];
    FinishedField(b);
    FinishedStart(b);
    NotZero(g);
    assert g[CHKSUM..CHKSUM + CHKSUM_SIZE] == f[CHKSUM..CHKSUM + CHKSUM_SIZE];
    assert Blank(g) == Blank(f)[i := c];
    SumUpdate(Blank(f), i, c);
    SumBounds(Blank(g), 0, BLOCKSIZE);
  }

  lemma FinishedStart(b: Block)
    ensures Finished(b)[CHKSUM] != NUL
  {
    hide Octal, UnsignedSum;
    var text := Octal(UnsignedSum(b), 6) + [NUL, SPACE];
    assert Finished(b)[CHKSUM] == Finished(b)[CHKSUM..CHKSUM + |text|][0] == text[0];
  }
}

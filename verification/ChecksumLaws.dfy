/** What the header checksum is, byte by byte, and which blocks tar_checksum of src/list.c accepts. */
module ChecksumLaws {
  import opened Bytes
  import opened HeaderNumbers
  import opened HeaderBlock
  import opened FieldSyntax

  /** What byte i adds to the sum: a blank at 148 to 155. */
  function Addend(b: Block, signed: bool, i: nat): int
    requires i < 512
  {
    var c: int := b[i];
    if 148 <= i < 156 then 32 else if signed && 128 <= c then c - 256 else c
  }

  /** The sum of the first n bytes. */
  function ByteSum(b: Block, signed: bool, n: nat): int
    requires n <= 512
  {
    if n == 0 then 0 else ByteSum(b, signed, n - 1) + Addend(b, signed, n - 1)
  }

  lemma {:induction false} SumsAre(b: Block, n: nat)
    requires n <= 512
    ensures ByteSum(b, false, n) == Sum(Blank(b), 0, n)
    ensures ByteSum(b, true, n) == Sum(Blank(b), 0, n) - 256 * High(Blank(b), 0, n)
  {
    hide Blank;
    if n > 0 {
      SumsAre(b, n - 1);
    }
  }

  lemma {:induction false} ZeroSum(s: seq<byte>, n: nat)
    requires n <= |s|
    ensures Sum(s, 0, n) >= 0 && (Sum(s, 0, n) == 0 <==> forall k :: 0 <= k < n ==> s[k] == 0)
  {
    if n > 0 {
      ZeroSum(s, n - 1);
    }
  }

  /** A block of zeros is a zero block; any other one is accepted if and only if its checksum field holds
      the unsigned or the signed sum. */
  lemma ChecksumMeaning(b: Block)
    ensures var recorded := ParseField(b[148..156], false, 0, 0x7fff_ffff, true);
            ChecksumStatus(b) ==
              if forall k :: 0 <= k < 512 ==> b[k] == 0 then ZeroBlock
              else if recorded.Some? && (recorded.value == ByteSum(b, false, 512) || recorded.value == ByteSum(b, true, 512)) then Success
              else Failure
  {
    hide ParseField, ByteSum, Sum, High, Blank;
    SumsAre(b, 512);
    ZeroSum(b, 512);
  }

  /** So a header is accepted if its field spells either sum in octal, with blanks before and after it. */
  lemma SpelledAccepted(b: Block, lead: seq<byte>, digits: seq<byte>, tail: seq<byte>)
    requires b[148..156] == lead + digits + tail
    requires Leading(lead) && digits != [] && OctalDigits(digits) && Trailing(tail)
    ensures ChecksumStatus(b) == Success
            <==> OctalNumber(digits) == ByteSum(b, false, 512) || OctalNumber(digits) == ByteSum(b, true, 512)
  {
    hide ParseField, ByteSum, OctalNumber, ChecksumStatus, Leading;
    OctalNumberSmall(digits);
    OctalSyntax(lead, digits, tail, false, 0, 0x7fff_ffff, true);
    ChecksumMeaning(b);
    var k := 148 + |lead|;
    assert b[k] == b[148..156][|lead|] == digits[0];
  }

  /** Eight octal digits hold less than 2^24. */
  lemma OctalNumberSmall(digits: seq<byte>)
    requires OctalDigits(digits) && |digits| <= 8
    ensures 0 <= OctalNumber(digits) <= 0x7fff_ffff
  {
    OctalNumberBound(digits);
    PowersOf8();
  }

  function Power8(n: nat): nat {
    if n == 0 then 1 else 8 * Power8(n - 1)
  }

  lemma PowersOf8()
    ensures forall n: nat :: n <= 8 ==> Power8(n) <= 0x100_0000
  {
    assert Power8(1) == 8 && Power8(2) == 64 && Power8(3) == 512 && Power8(4) == 4096;
    assert Power8(5) == 0x8000 && Power8(6) == 0x4_0000 && Power8(7) == 0x20_0000 && Power8(8) == 0x100_0000;
    forall n: nat | n <= 8 ensures Power8(n) <= 0x100_0000 {
      assert n == 0 || n == 1 || n == 2 || n == 3 || n == 4 || n == 5 || n == 6 || n == 7 || n == 8;
    }
  }

  lemma {:induction false} OctalNumberBound(digits: seq<byte>)
    requires OctalDigits(digits)
    ensures 0 <= OctalNumber(digits) < Power8(|digits|)
  {
    if digits != [] {
      OctalNumberBound(digits[..|digits| - 1]);
    }
  }
}

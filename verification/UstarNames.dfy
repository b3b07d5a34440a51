/** Splitting a long name over the ustar prefix and name fields: src/create.c:555-599. */
module UstarNames {
  import opened Bytes

  const NAME_FIELD_SIZE: int := 100
  const PREFIX_FIELD_SIZE: int := 155

  /** A slash at i leaves a prefix and a rest that fit their fields. */
  predicate Splits(name: seq<byte>, i: nat) {
    && i < |name| && name[i] == SLASH
    && 1 <= i <= PREFIX_FIELD_SIZE
    && 1 <= |name| - i - 1 <= NAME_FIELD_SIZE
  }

  /** The last index up to n at which a name splits, or 0. */
  function LastSplit(name: seq<byte>, n: nat): (i: nat)
    ensures i <= n && (0 < i ==> Splits(name, i))
    ensures forall k: nat :: i < k <= n ==> !Splits(name, k)
  {
    if n == 0 || Splits(name, n) then n else LastSplit(name, n - 1)
  }

  /** split_long_name: the last slash of the part that a prefix may reach, or 0. */
  method SplitLongName(name: seq<byte>) returns (i: nat)
    requires |name| > NAME_FIELD_SIZE
    ensures i < |name| && i <= PREFIX_FIELD_SIZE
    ensures 0 < i ==> name[i] == SLASH && i + 1 < |name|
    ensures forall k :: i < k <= PREFIX_FIELD_SIZE && k + 1 < |name| ==> name[k] != SLASH
  {
    var length := |name|;
    if length > PREFIX_FIELD_SIZE + 1 {
      length := PREFIX_FIELD_SIZE + 1;
    } else if name[length - 1] == SLASH {
      length := length - 1;
    }
    i := length - 1;
    while i > 0
      invariant i < length
      invariant forall k :: i < k < length ==> name[k] != SLASH
    {
      if name[i] == SLASH {
        return;
      }
      i := i - 1;
    }
  }

  datatype Split = TooLong | CannotSplit | Split(prefix: seq<byte>, rest: seq<byte>)

  /** write_ustar_long_name finds a split exactly when there is one, and the reader's prefix, slash
      and name give the original name back. */
  method WriteUstarLongName(name: seq<byte>) returns (r: Split)
    requires |name| > NAME_FIELD_SIZE
    ensures r.Split? <==> exists i :: Splits(name, i)
    ensures r.Split? ==>
              && 1 <= |r.prefix| <= PREFIX_FIELD_SIZE && 1 <= |r.rest| <= NAME_FIELD_SIZE
              && r.prefix + [SLASH] + r.rest == name
    ensures r.Split? ==> Splits(name, |r.prefix|) && |r.prefix| == LastSplit(name, PREFIX_FIELD_SIZE)
    ensures r.TooLong? <==> |name| > PREFIX_FIELD_SIZE + NAME_FIELD_SIZE + 1
  {
    if |name| > PREFIX_FIELD_SIZE + NAME_FIELD_SIZE + 1 {
      return TooLong;
    }
    var i := SplitLongName(name);
    var nlen := |name| - i - 1;
    if i == 0 || !(0 < nlen <= NAME_FIELD_SIZE) {
      return CannotSplit;
    }
    assert Splits(name, i);
    r := Split(name[..i], name[i + 1..]);
    assert name == name[..i] + [name[i]] + name[i + 1..];
  }
}

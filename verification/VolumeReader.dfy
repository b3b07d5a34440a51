/** Reading a member that goes on over several volumes: the reading side of src/buffer.c and the loop of
    extract_file in src/extract.c. */
module VolumeReading {
  import opened Bytes
  import opened Volumes
  import opened VolumeWriting

  /** The bufmap of the member that is being read. */
  datatype Tracked = Tracked(id: nat, sizetotal: nat, sizeleft: int)

  class VolumeReader<B> {
    const volumes: seq<seq<Slot<B>>>
    var v: nat                          // the current volume
    var k: nat                          // how many of its blocks have been used
    var continued: Option<Slot<B>>      // the last continuation header that was seen

    predicate Valid()
      reads this
    {
      v < |volumes| && k <= |volumes[v]| && (continued.Some? ==> continued.value.Continued?)
    }

    constructor (volumes: seq<seq<Slot<B>>>)
      requires volumes != []
      ensures Valid() && this.volumes == volumes && v == 0 && k == 0
    {
      this.volumes, v, k, continued := volumes, 0, 0, None;
    }

    /** Whether the reader may go on with the member on this volume. */
    function Matches(map_: Option<Tracked>): bool
      requires Valid()
      reads this
    {
      map_.Some? ==>
        && continued.Some? && continued.value.id == map_.value.id
        && CheckContinuation(map_.value.sizetotal, map_.value.sizeleft, continued.value.size, continued.value.offset) == Accept
    }

    /** try_new_volume: the label and the continuation header are taken, and the latter is checked if a
        member is being read.  The next volume is refused unless the last continuation header seen names the
        member, its size is what is left of the member, and its offset what is on the earlier volumes. */
    method TryNewVolume(map_: Option<Tracked>) returns (ok: bool)
      requires Valid()
      modifies this
      ensures Valid()
      ensures v == if old(v) + 1 < |volumes| then old(v) + 1 else old(v)
      ensures ok ==> old(v) + 1 < |volumes| && volumes[v] != []
      ensures ok && map_.Some? ==> continued.Some? && continued.value.id == map_.value.id
      ensures ok && map_.Some? && 0 <= map_.value.sizeleft <= map_.value.sizetotal ==>
                continued.value.size == map_.value.sizeleft && continued.value.offset == map_.value.sizetotal - map_.value.sizeleft
      ensures old(v) + 1 < |volumes| && volumes[v] != [] && map_.None? ==> ok
      ensures (old(v) + 1 < |volumes| && volumes[v] != [] && map_.Some? && 0 <= map_.value.sizeleft <= map_.value.sizetotal
               && continued.Some? && continued.value.id == map_.value.id && continued.value.size == map_.value.sizeleft
               && continued.value.offset == map_.value.sizetotal - map_.value.sizeleft) ==> ok
      ensures v == old(v) + 1 ==> k == HeadLength(volumes[v])
      ensures continued == if v == old(v) + 1 && Continuation(volumes[v]).Some? then Continuation(volumes[v]) else old(continued)
    {
      if v + 1 >= |volumes| {
        return false;
      }
      v, k := v + 1, 0;
      if volumes[v] == [] {
        return false;
      }
      if volumes[v][k].Label? {
        k := k + 1;
      }
      if k < |volumes[v]| && volumes[v][k].Continued? {
        continued := Some(volumes[v][k]);
        k := k + 1;
      }
      ok := Matches(map_);
    }

    /** find_next_block: the next block, on this volume or the next one. */
    method FindNextBlock(map_: Option<Tracked>) returns (slot: Option<Slot<B>>)
      requires Valid()
      modifies this
      ensures Valid() && (slot.Some? ==> k < |volumes[v]| && slot == Some(volumes[v][k]))
      ensures if old(k) < |volumes[old(v)]| then slot.Some? && v == old(v) && k == old(k) && continued == old(continued)
              else old(v) + 1 < |volumes| ==>
                && v == old(v) + 1 && k == HeadLength(volumes[v])
                && continued == if Continuation(volumes[v]).Some? then Continuation(volumes[v]) else old(continued)
      ensures slot.Some? && v != old(v) ==> v == old(v) + 1
      ensures slot.Some? && v != old(v) && map_.Some? ==> continued.Some? && continued.value.id == map_.value.id
      ensures slot.Some? && v != old(v) && map_.Some? && 0 <= map_.value.sizeleft <= map_.value.sizetotal ==>
                continued.value.size == map_.value.sizeleft && continued.value.offset == map_.value.sizetotal - map_.value.sizeleft
      ensures slot.Some? && old(k) == |volumes[old(v)]| ==> old(v) + 1 < |volumes|
      ensures old(k) == |volumes[old(v)]| && old(v) + 1 < |volumes| && HeadLength(volumes[v]) < |volumes[v]| && map_.None? ==> slot.Some?
      ensures (old(k) == |volumes[old(v)]| && old(v) + 1 < |volumes| && HeadLength(volumes[v]) < |volumes[v]|
               && map_.Some? && 0 <= map_.value.sizeleft <= map_.value.sizetotal && continued.Some?
               && continued.value.id == map_.value.id && continued.value.size == map_.value.sizeleft
               && continued.value.offset == map_.value.sizetotal - map_.value.sizeleft) ==> slot.Some?
    {
      if k == |volumes[v]| {
        var ok := TryNewVolume(map_);
        if !ok || k == |volumes[v]| {
          return None;
        }
      }
      slot := Some(volumes[v][k]);
    }

    /** Every header of the volume is behind the reader, which has passed n of the caller's blocks. */
    ghost predicate Standing(n: nat)
      reads this
    {
      && Valid()
      && n == Before(volumes[..v]) + |Payloads(volumes[v][..k])|
      && forall j :: k <= j < |volumes[v]| ==> !IsHeader(volumes[v][j])
    }

    /** The reader stands before block n of media that can be read, inside the tracked member if there is one. */
    ghost predicate Good(map_: Option<Tracked>, n: nat, labelled: bool, members: seq<MemberInfo>, filled: seq<B>)
      reads this
    {
      && Standing(n) && MediaOk(volumes, labelled, members, filled) && n < |filled|
      && (map_.Some? ==> InProgress(map_.value, members, n))
    }

    /** The next block is taken; on media that can be read it is the caller's next one. */
    method NextBlock(map_: Option<Tracked>, ghost n: nat, ghost labelled: bool, ghost members: seq<MemberInfo>, ghost filled: seq<B>)
      returns (slot: Option<Slot<B>>)
      requires Valid() && (map_.Some? ==> 0 <= map_.value.sizeleft <= map_.value.sizetotal)
      modifies this
      ensures Valid() && (slot.Some? ==> 0 < k && slot.value == volumes[v][k - 1])
      ensures slot.Some? ==> if old(k) < |volumes[old(v)]| then v == old(v) && k == old(k) + 1
                             else v == old(v) + 1 && k == HeadLength(volumes[v]) + 1
      ensures slot.Some? ==> continued == if v != old(v) && Continuation(volumes[v]).Some? then Continuation(volumes[v]) else old(continued)
      ensures slot.Some? && v != old(v) && map_.Some? ==>
                && continued.Some? && continued.value.id == map_.value.id && continued.value.size == map_.value.sizeleft
                && continued.value.offset == map_.value.sizetotal - map_.value.sizeleft
      ensures old(Good(map_, n, labelled, members, filled)) ==> slot == Some(Payload(filled[n])) && Standing(n + 1)
    {
      hide MediaOk, HeadLength, Continuation, InProgress, Before, Payloads;
      ghost var good := Good(map_, n, labelled, members, filled);
      if good && k == |volumes[v]| {
        VolumeEnds(volumes, v, n, labelled, members, filled);
        VolumeStarts(volumes, v + 1, n, labelled, members, filled, map_);
      }
      slot := FindNextBlock(map_);
      if good {
        BlockIsThere(volumes, v, k, n, labelled, members, filled);
        BlockAt(volumes, v, k);
        MediaPayloads(volumes, labelled, members, filled);
      }
      if slot.Some? {
        k := k + 1;
      }
    }

    /** The reading loop of extract_file, with mv_size_left before each block, on any media.  at says where
        each block was taken: every volume that was entered announced the member with exactly what was left.
        On media that can be read these are the member's blocks. */
    method ReadMember(id: nat, total: nat, ghost labelled: bool, ghost members: seq<MemberInfo>, ghost filled: seq<B>)
      returns (data: seq<Slot<B>>, ok: bool, ghost at: seq<(nat, nat)>)
      requires Valid()
      modifies this
      ensures Valid() && Trace(volumes, at, data, old(v), old(k), old(continued), id, total)
      ensures (ok <==> |data| == BlocksFor(total)) && |data| <= BlocksFor(total)
      ensures old(Readable(id, total, labelled, members, filled)) ==>
                ok && AreBlocks(data, filled, members[id].first) && Standing(members[id].first + BlocksFor(total))
    {
      hide MediaOk, Standing, LastSeen, HeadLength, Continuation, Trace, AreBlocks, InProgress;
      data, at, ok := [], [], false;
      ghost var good, first := Readable(id, total, labelled, members, filled), if id < |members| then members[id].first else 0;
      ghost var v0, k0, c0 := v, k, continued;
      TraceStart(volumes, v0, k0, c0, id, total, filled, first);
      var size: int := total;
      while size > 0
        invariant Valid() && |at| == |data| && size <= total && (size > 0 ==> size == total - BLOCKSIZE * |data|)
        invariant |data| + (if size > 0 then BlocksFor(size) else 0) == BlocksFor(total)
        invariant Trace(volumes, at, data, v0, k0, c0, id, total) && AfterLast(at, v0, k0) == (v, k)
        invariant v0 <= v && continued == LastSeen(volumes, v0, c0, v)
        invariant good ==> Storing(id, total, labelled, members, filled) && Standing(first + |data|) && AreBlocks(data, filled, first)
        decreases size
      {
        ghost var v1, k1 := v, k;
        if good {
          ProgressHere(members[id], id, total, size, |data|, members);
        }
        var slot := NextBlock(Some(Tracked(id, total, size)), first + |data|, labelled, members, filled);
        if slot.None? {
          return;
        }
        LastSeenStep(volumes, v0, c0, v1, v);
        TraceStep(volumes, at, data, v0, k0, c0, id, total, v, k - 1, slot.value);
        if good {
          MoreBlocks(data, filled, first);
        }
        at := at + [(v, k - 1)];
        data := data + [slot.value];
        size := size - BLOCKSIZE;
      }
      ok := true;
    }

    /** The reader stands before the data of a member on media that can be read. */
    ghost predicate Readable(id: nat, total: nat, labelled: bool, members: seq<MemberInfo>, filled: seq<B>)
      reads this
    {
      Storing(id, total, labelled, members, filled) && Standing(members[id].first)
    }

    /** The media can be read and hold all of the member. */
    ghost predicate Storing(id: nat, total: nat, labelled: bool, members: seq<MemberInfo>, filled: seq<B>) {
      && id < |members| && members[id].total == total && MediaOk(volumes, labelled, members, filled)
      && members[id].first + BlocksFor(total) <= |filled|
    }

    /** Blocks that belong to no tracked member. */
    method SkipBlocks(count: nat, ghost labelled: bool, ghost members: seq<MemberInfo>, ghost filled: seq<B>)
      requires Standing(0) && MediaOk(volumes, labelled, members, filled) && count <= |filled|
      modifies this
      ensures Standing(count) && Valid()
    {
      hide MediaOk;
      for i := 0 to count
        invariant Standing(i)
      {
        var slot := NextBlock(None, i, labelled, members, filled);
      }
    }
  }

  /** The last continuation header among volumes v0 + 1 to w, or else the one seen before. */
  ghost function LastSeen<B>(volumes: seq<seq<Slot<B>>>, v0: nat, c0: Option<Slot<B>>, w: nat): Option<Slot<B>>
    requires v0 <= w < |volumes|
  {
    if w == v0 then c0
    else if Continuation(volumes[w]).Some? then Continuation(volumes[w])
    else LastSeen(volumes, v0, c0, w - 1)
  }

  /** The position behind the last block taken. */
  ghost function AfterLast(at: seq<(nat, nat)>, v0: nat, k0: nat): (nat, nat) {
    if at == [] then (v0, k0) else (at[|at| - 1].0, at[|at| - 1].1 + 1)
  }

  /** Block i was taken behind the one before it, or behind the headers of the next volume.  In the second
      case the last continuation header seen by then was that of the member, with what was left of it as its
      size and what was taken of it as its offset. */
  ghost predicate TakenAt<B>(volumes: seq<seq<Slot<B>>>, at: seq<(nat, nat)>, i: nat, v0: nat, k0: nat, c0: Option<Slot<B>>, id: nat, total: nat)
    requires i < |at|
  {
    var (v, k) := AfterLast(at[..i], v0, k0);
    && v0 <= v < |volumes|
    && if k < |volumes[v]| then at[i] == (v, k)
       else
         && v + 1 < |volumes| && at[i] == (v + 1, HeadLength(volumes[v + 1]))
         && var c := LastSeen(volumes, v0, c0, v + 1);
         && c.Some? && c.value.Continued? && c.value.id == id
         && c.value.size == total - 512 * i && c.value.offset == 512 * i
  }

  ghost predicate Trace<B>(volumes: seq<seq<Slot<B>>>, at: seq<(nat, nat)>, data: seq<Slot<B>>, v0: nat, k0: nat, c0: Option<Slot<B>>,
                           id: nat, total: nat) {
    && |at| == |data|
    && (forall i :: 0 <= i < |at| ==> TakenAt(volumes, at, i, v0, k0, c0, id, total))
    && (forall i :: 0 <= i < |at| ==> IsBlock(volumes, at[i], data[i]))
  }

  predicate IsBlock<B(==)>(volumes: seq<seq<Slot<B>>>, p: (nat, nat), s: Slot<B>) {
    p.0 < |volumes| && p.1 < |volumes[p.0]| && volumes[p.0][p.1] == s
  }

  /** The slots are the caller's blocks from number first on. */
  ghost predicate AreBlocks<B>(data: seq<Slot<B>>, filled: seq<B>, first: nat) {
    first + |data| <= |filled| && forall i :: 0 <= i < |data| ==> data[i] == Payload(filled[first + i])
  }

  lemma TraceStart<B>(volumes: seq<seq<Slot<B>>>, v0: nat, k0: nat, c0: Option<Slot<B>>, id: nat, total: nat, filled: seq<B>, first: nat)
    requires v0 < |volumes|
    ensures LastSeen(volumes, v0, c0, v0) == c0 && Trace(volumes, [], [], v0, k0, c0, id, total)
    ensures first <= |filled| ==> AreBlocks([], filled, first)
  {
  }

  lemma TraceStep<B>(volumes: seq<seq<Slot<B>>>, at: seq<(nat, nat)>, data: seq<Slot<B>>, v0: nat, k0: nat, c0: Option<Slot<B>>, id: nat, total: nat,
                     v: nat, k: nat, s: Slot<B>)
    requires Trace(volumes, at, data, v0, k0, c0, id, total) && IsBlock(volumes, (v, k), s)
    requires var (pv, pk) := AfterLast(at, v0, k0);
             && v0 <= pv < |volumes|
             && if pk < |volumes[pv]| then (v, k) == (pv, pk)
                else
                  && v == pv + 1 && k == HeadLength(volumes[v])
                  && var c := LastSeen(volumes, v0, c0, v);
                  && c.Some? && c.value.Continued? && c.value.id == id
                  && c.value.size == total - 512 * |data| && c.value.offset == 512 * |data|
    ensures Trace(volumes, at + [(v, k)], data + [s], v0, k0, c0, id, total) && AfterLast(at + [(v, k)], v0, k0) == (v, k + 1)
  {
    hide HeadLength, LastSeen;
    var at' := at + [(v, k)];
    forall i | 0 <= i < |at'| ensures TakenAt(volumes, at', i, v0, k0, c0, id, total) {
      assert at'[..i] == at[..i];
      if i < |at| {
        assert TakenAt(volumes, at, i, v0, k0, c0, id, total);
      } else {
        assert at[..i] == at;
      }
    }
  }

  lemma MoreBlocks<B>(data: seq<Slot<B>>, filled: seq<B>, first: nat)
    requires AreBlocks(data, filled, first) && first + |data| < |filled|
    ensures AreBlocks(data + [Payload(filled[first + |data|])], filled, first)
  {
  }

  /** The counter of the loop is right inside the member. */
  lemma ProgressHere(info: MemberInfo, id: nat, total: nat, size: int, n: nat, members: seq<MemberInfo>)
    requires id < |members| && members[id] == info && info.total == total && 0 < size == total - BLOCKSIZE * n
    requires n + BlocksFor(size) == BlocksFor(total)
    ensures InProgress(Tracked(id, total, size), members, info.first + n) && n < BlocksFor(total)
  {
  }

  lemma LastSeenStep<B>(volumes: seq<seq<Slot<B>>>, v0: nat, c0: Option<Slot<B>>, v: nat, w: nat)
    requires v0 <= v < |volumes| && v <= w < |volumes| && w <= v + 1
    ensures LastSeen(volumes, v0, c0, w)
         == if w != v && Continuation(volumes[w]).Some? then Continuation(volumes[w]) else LastSeen(volumes, v0, c0, v)
  {
  }

  /** The slots that try_new_volume takes at the start of a volume. */
  function HeadLength<B>(vol: seq<Slot<B>>): (n: nat)
    ensures n <= |vol|
  {
    var i := if vol != [] && vol[0].Label? then 1 else 0;
    if i < |vol| && vol[i].Continued? then i + 1 else i
  }

  function Continuation<B>(vol: seq<Slot<B>>): Option<Slot<B>> {
    var i := if vol != [] && vol[0].Label? then 1 else 0;
    if i < |vol| && vol[i].Continued? then Some(vol[i]) else None
  }

  // ----- where the caller's blocks are

  lemma {:induction false} FlatSplit<B>(volumes: seq<seq<Slot<B>>>, v: nat)
    requires v < |volumes|
    ensures exists rest :: Flat(volumes) == Flat(volumes[..v]) + volumes[v] + rest
    decreases |volumes|
  {
    var init, last := volumes[..|volumes| - 1], volumes[|volumes| - 1];
    if v == |volumes| - 1 {
      assert volumes[..v] == init;
      assert Flat(volumes) == Flat(volumes[..v]) + volumes[v] + [];
    } else {
      FlatSplit(init, v);
      assert init[..v] == volumes[..v] && init[v] == volumes[v];
      var rest :| Flat(init) == Flat(init[..v]) + init[v] + rest;
      assert Flat(volumes) == Flat(volumes[..v]) + volumes[v] + (rest + last);
    }
  }

  /** The block at a position is the one that the number of blocks before it says. */
  lemma BlockAt<B>(volumes: seq<seq<Slot<B>>>, v: nat, k: nat)
    requires v < |volumes| && k < |volumes[v]| && volumes[v][k].Payload?
    ensures var n := Before(volumes[..v]) + |Payloads(volumes[v][..k])|;
            n < |Payloads(Flat(volumes))| && Payloads(Flat(volumes))[n] == volumes[v][k].b
    ensures |Payloads(volumes[v][..k + 1])| == |Payloads(volumes[v][..k])| + 1
  {
    FlatSplit(volumes, v);
    var rest :| Flat(volumes) == Flat(volumes[..v]) + volumes[v] + rest;
    hide Payloads, Flat;
    var vol := volumes[v];
    var a, b, c := Flat(volumes[..v]), vol[..k], vol[k + 1..] + rest;
    assert vol == b + [vol[k]] + vol[k + 1..];
    assert Flat(volumes) == ((a + b) + [vol[k]]) + c;
    PayloadsConcat((a + b) + [vol[k]], c);
    PayloadsConcat(a + b, [vol[k]]);
    PayloadsConcat(a, b);
    PayloadsConcat(b, [vol[k]]);
    assert vol[..k + 1] == b + [vol[k]];
    OnePayload(vol[k].b);
  }

  /** The reader is inside the member, and has counted its bytes. */
  ghost predicate InProgress(map_: Tracked, members: seq<MemberInfo>, n: nat) {
    && map_.id < |members| && members[map_.id].total == map_.sizetotal && Inside(members[map_.id], n)
    && map_.sizeleft == map_.sizetotal - BLOCKSIZE * (n - members[map_.id].first)
  }

  lemma MediaPayloads<B>(volumes: seq<seq<Slot<B>>>, labelled: bool, members: seq<MemberInfo>, filled: seq<B>)
    requires MediaOk(volumes, labelled, members, filled)
    ensures Payloads(Flat(volumes)) == filled
  {
  }

  /** At the end of a volume that is not the end of the blocks, there is another volume. */
  lemma VolumeEnds<B>(volumes: seq<seq<Slot<B>>>, v: nat, n: nat, labelled: bool, members: seq<MemberInfo>, filled: seq<B>)
    requires MediaOk(volumes, labelled, members, filled) && v < |volumes| && n < |filled|
    requires n == Before(volumes[..v]) + |Payloads(volumes[v][..|volumes[v]|])|
    ensures v + 1 < |volumes| && n == Before(volumes[..v + 1])
  {
    hide Payloads, VolumeReadable;
    assert volumes[v][..|volumes[v]|] == volumes[v];
    assert volumes[..v + 1] == volumes[..v] + [volumes[v]];
    FlatSnoc(volumes[..v], volumes[v]);
    PayloadsConcat(Flat(volumes[..v]), volumes[v]);
  }

  /** The start of a later volume: its headers are taken, the member that is being read goes on, and a block
      of the caller follows. */
  lemma VolumeStarts<B>(volumes: seq<seq<Slot<B>>>, v: nat, n: nat, labelled: bool, members: seq<MemberInfo>, filled: seq<B>,
                        map_: Option<Tracked>)
    requires MediaOk(volumes, labelled, members, filled) && 0 < v < |volumes| && n == Before(volumes[..v]) < |filled|
    requires map_.Some? ==> InProgress(map_.value, members, n)
    ensures var vol := volumes[v];
            && HeadLength(vol) < |vol| && |Payloads(vol[..HeadLength(vol)])| == 0
            && (forall j :: HeadLength(vol) <= j < |vol| ==> !IsHeader(vol[j]))
            && (map_.Some? ==> var c := Continuation(vol);
                               c.Some? && c.value.Continued? && c.value.id == map_.value.id
                               && CheckContinuation(map_.value.sizetotal, map_.value.sizeleft, c.value.size, c.value.offset) == Accept)
            && (Continuation(vol).Some? ==> Continuation(vol).value.Continued?)
  {
    hide Payloads, Flat, Before, BlocksFor;
    var vol, i := volumes[v], LabelCount(labelled);
    assert VolumeReadable(volumes, v, labelled, members);
    PayloadsLeft(volumes, v, labelled, members, filled);
    assert HeadLength(vol) == if i < |vol| && vol[i].Continued? then i + 1 else i;
    PayloadsCount(vol[..HeadLength(vol)]);
    PayloadsCount(vol);
  }

  lemma PayloadsLeft<B>(volumes: seq<seq<Slot<B>>>, v: nat, labelled: bool, members: seq<MemberInfo>, filled: seq<B>)
    requires MediaOk(volumes, labelled, members, filled) && 0 < v < |volumes| && Before(volumes[..v]) < |filled|
    ensures Payloads(volumes[v]) != []
  {
    hide Payloads, GoodVolume;
    assert VolumeReadable(volumes, v, labelled, members);
    if v + 1 == |volumes| {
      assert volumes[..v] + [volumes[v]] == volumes;
      FlatSnoc(volumes[..v], volumes[v]);
      PayloadsConcat(Flat(volumes[..v]), volumes[v]);
    }
  }

  /** Behind the headers, as long as blocks are left, comes a block of the caller and no zero fill. */
  lemma BlockIsThere<B>(volumes: seq<seq<Slot<B>>>, v: nat, k: nat, n: nat, labelled: bool, members: seq<MemberInfo>, filled: seq<B>)
    requires MediaOk(volumes, labelled, members, filled) && v < |volumes| && k < |volumes[v]| && n < |filled|
    requires n == Before(volumes[..v]) + |Payloads(volumes[v][..k])| && !IsHeader(volumes[v][k])
    ensures volumes[v][k].Payload?
  {
    hide Payloads, GoodVolume;
    var vol := volumes[v];
    assert VolumeReadable(volumes, v, labelled, members);
    if vol[k].Zero? {
      PayloadsCount(vol[k..]);
      PayloadsConcat(vol[..k], vol[k..]);
      assert vol == vol[..k] + vol[k..];
      assert v + 1 == |volumes| && volumes[..v] + [vol] == volumes;
      FlatSnoc(volumes[..v], vol);
      PayloadsConcat(Flat(volumes[..v]), vol);
      assert false;
    }
  }

  /** Writing a member over any number of volumes and reading it back: all continuation headers are accepted
      and the data comes back, if every volume takes more than its headers and the next write reaches the
      member's first data block, unless closing overruns.  It does not if all writes are whole from the first
      one on that closing can make, or if these take a whole record or nothing; earlier records may be cut
      anywhere.  passed is the number of blocks that precede the data. */
  method DumpAndRead<B>(w: VolumeWriter<B>, passed: nat, total: nat, data: seq<B>, after: seq<B>, zero: B) returns (outcome: Outcome, copy: seq<B>)
    requires w.Valid() && w.tracked.None? && (w.done == [] || Before(w.done) < |w.filled|) && w.Medium(w.writes)
    requires w.clean && w.cur <= w.WriteSize(w.writes) && |data| == BlocksFor(total) && passed == |w.filled|
    modifies w, w.record, w.spare
    ensures outcome == if w.RunOverruns(old(w.Start(total)), |data| + |after| + 2) then Overrun else Ok
    ensures outcome == Overrun ==> old(w.writes) < w.writes && w.cur < w.WriteSize(w.writes - 1) < w.blockingFactor
    ensures outcome == Ok ==> copy == data
    ensures w.WholeFrom(w.FirstClosing(old(w.Start(total)), |data| + |after| + 2)) ==> outcome == Ok
    ensures w.NothingOrWhole(w.FirstClosing(old(w.Start(total)), |data| + |after| + 2)) ==> outcome == Ok
  {
    hide Invariant, MediaOk, Payloads, Before, BlocksFor, VolumeWriter.Roomy, VolumeReader.Standing,
         VolumeWriter.RunEnds, VolumeWriter.RunGives, VolumeWriter.RunOverruns, VolumeWriter.FirstClosing;
    var id := w.begun;
    w.MediumRuns(w.Start(total), |data| + |after| + 2);
    outcome := w.DumpMember(total, data, after, zero);
    copy := [];
    if outcome == Ok {
      copy := ReadBack(w.done + [w.volume], id, passed, total, w.labelled, w.members, w.filled);
    }
  }

  /** Opening the volumes and reading a member behind the blocks that precede it. */
  method ReadBack<B>(volumes: seq<seq<Slot<B>>>, id: nat, passed: nat, total: nat,
                     ghost labelled: bool, ghost members: seq<MemberInfo>, ghost filled: seq<B>) returns (copy: seq<B>)
    requires MediaOk(volumes, labelled, members, filled) && volumes != []
    requires id < |members| && members[id] == MemberInfo(passed, total) && passed + BlocksFor(total) <= |filled|
    ensures copy == filled[passed..passed + BlocksFor(total)]
  {
    hide MediaOk, Payloads, Before, BlocksFor, VolumeReader.Standing, Trace;
    var r := new VolumeReader(volumes);
    StartStanding(r, labelled, members, filled);
    r.SkipBlocks(passed, labelled, members, filled);
    var slots, ok, at := r.ReadMember(id, total, labelled, members, filled);
    copy := Contents(slots);
    CopyIs(copy, slots, filled[passed..passed + BlocksFor(total)], filled, passed);
  }

  /** Records of four blocks, of which the medium takes two blocks of the second and all of the others: a
      member of twenty blocks goes to two volumes and comes back. */
  method CutRecordExample(data: seq<int>) returns (outcome: Outcome, copy: seq<int>)
    requires |data| == 20
    ensures outcome == Ok && copy == data
  {
    hide Invariant, MediaOk, Payloads, VolumeWriter.Flushed, VolumeWriter.RunOverruns;
    var w := new VolumeWriter<int>(4, false, n => if n == 1 then 2 else 4);
    outcome := w.PutBlock(1);
    w.SoundFacts();
    outcome, copy := DumpAndRead(w, 1, 20 * BLOCKSIZE, data, [], 0);
  }

  lemma CopyIs<B>(copy: seq<B>, slots: seq<Slot<B>>, data: seq<B>, filled: seq<B>, first: nat)
    requires AreBlocks(slots, filled, first) && |slots| == |data| && first + |data| <= |filled| && data == filled[first..first + |data|]
    requires (forall i :: 0 <= i < |slots| ==> slots[i].Payload?) ==> |copy| == |slots| && forall i :: 0 <= i < |copy| ==> slots[i] == Payload(copy[i])
    ensures copy == data
  {
  }

  /** The blocks of the caller among the slots. */
  method Contents<B>(slots: seq<Slot<B>>) returns (bs: seq<B>)
    ensures (forall i :: 0 <= i < |slots| ==> slots[i].Payload?) ==> |bs| == |slots| && forall i :: 0 <= i < |bs| ==> slots[i] == Payload(bs[i])
  {
    bs := [];
    for i := 0 to |slots|
      invariant (forall j :: 0 <= j < |slots| ==> slots[j].Payload?) ==> |bs| == i && forall j :: 0 <= j < i ==> slots[j] == Payload(bs[j])
    {
      if slots[i].Payload? {
        bs := bs + [slots[i].b];
      }
    }
  }

  lemma StartStanding<B>(r: VolumeReader<B>, labelled: bool, members: seq<MemberInfo>, filled: seq<B>)
    requires r.Valid() && r.v == 0 && r.k == 0 && MediaOk(r.volumes, labelled, members, filled)
    ensures r.Standing(0)
  {
    assert VolumeReadable(r.volumes, 0, labelled, members);
    assert r.volumes[..0] == [] && r.volumes[0][..0] == [];
  }
}

/** Multi-volume writing: the record buffer, the bufmap counters and the volume switch of src/buffer.c,
    with one member tracked at a time. */
module Volumes {
  import opened Bytes

  /** One block of a record: a block that the caller filled, a volume-start header, or zero fill. */
  datatype Slot<B> = Payload(b: B) | Label | Continued(id: nat, size: int, offset: int) | Zero

  predicate IsHeader<B>(s: Slot<B>) {
    s.Label? || s.Continued?
  }

  /** The caller's blocks among the slots. */
  function Payloads<B>(s: seq<Slot<B>>): seq<B> {
    if s == [] then []
    else Payloads(s[..|s| - 1]) + if s[|s| - 1].Payload? then [s[|s| - 1].b] else []
  }

  function Flat<B>(volumes: seq<seq<Slot<B>>>): seq<Slot<B>> {
    if volumes == [] then [] else Flat(volumes[..|volumes| - 1]) + volumes[|volumes| - 1]
  }

  lemma {:induction false} PayloadsConcat<B>(a: seq<Slot<B>>, b: seq<Slot<B>>)
    ensures Payloads(a + b) == Payloads(a) + Payloads(b)
  {
    if b == [] {
      assert a + b == a;
    } else {
      var b' := b[..|b| - 1];
      PayloadsConcat(a, b');
      assert (a + b)[..|a + b| - 1] == a + b';
    }
  }

  lemma {:induction false} PayloadsCount<B>(s: seq<Slot<B>>)
    ensures |Payloads(s)| <= |s|
    ensures (forall k :: 0 <= k < |s| ==> s[k].Payload?) ==> |Payloads(s)| == |s|
    ensures (forall k :: 0 <= k < |s| ==> !s[k].Payload?) ==> Payloads(s) == []
  {
    if s != [] {
      PayloadsCount(s[..|s| - 1]);
    }
  }

  // ----- the counters of one tracked member

  /** A bufmap entry: the position of its first data block, and the bytes in all and still to go. */
  datatype BufMap = BufMap(id: nat, start: int, sizetotal: int, sizeleft: int)

  /** The member behind a bufmap: which of the caller's blocks holds its first data, and its size. */
  datatype MemberInfo = MemberInfo(first: nat, total: nat)

  /** The map after status blocks of the record have been written: _flush_write. */
  function UpdateMap(map_: Option<BufMap>, status: nat): (r: Option<BufMap>)
    ensures map_.None? ==> r.None?
  {
    if map_.None? || status == 0 then map_
    else
      var m := map_.value;
      var delta := BLOCKSIZE * (status - m.start);
      var left := m.sizeleft - if delta > m.sizeleft then m.sizeleft else delta;
      if left == 0 then None else Some(m.(start := 0, sizeleft := left))
  }

  /** Where the first data block of the tracked member is, in a record that will hold x blocks when
      filled is all that the caller has filled. */
  function TruePosition(x: int, filled: int, first: int): int {
    x - (filled - first)
  }

  /** sizetotal - sizeleft is the distance from the true position to start, in every state. */
  ghost predicate Counted(map_: Option<BufMap>, members: seq<MemberInfo>, x: int, filled: int) {
    map_.Some? ==>
      var m := map_.value;
      && m.id < |members| && m.sizetotal == members[m.id].total
      && members[m.id].first <= filled && 0 <= m.sizeleft
      && m.sizetotal - m.sizeleft == BLOCKSIZE * (m.start - TruePosition(x, filled, members[m.id].first))
  }

  lemma CountedUpdate(map_: Option<BufMap>, members: seq<MemberInfo>, x: int, filled: int, status: nat)
    requires Counted(map_, members, x, filled)
    ensures Counted(UpdateMap(map_, status), members, x - status, filled)
  {
  }

  /** start marks the true position, or the first slot behind the volume headers if the data began on an
      earlier record. */
  ghost predicate Aligned(map_: Option<BufMap>, members: seq<MemberInfo>, x: int, filled: int, lead: int) {
    map_.Some? && map_.value.id < |members| ==>
      map_.value.start == Max(lead, TruePosition(x, filled, members[map_.value.id].first))
  }

  /** The tracked member's first data block is among the first n slots of the record, or before it. */
  ghost predicate Reached(map_: Option<BufMap>, members: seq<MemberInfo>, x: int, filled: int, n: int) {
    map_.Some? && map_.value.id < |members| ==> TruePosition(x, filled, members[map_.value.id].first) <= n
  }

  lemma AlignedUpdate(map_: Option<BufMap>, members: seq<MemberInfo>, x: int, filled: int, lead: int, status: nat)
    requires Aligned(map_, members, x, filled, lead) && 0 <= lead <= status
    requires Reached(map_, members, x, filled, status)
    ensures Aligned(UpdateMap(map_, status), members, x - status, filled, 0)
    ensures Reached(UpdateMap(map_, status), members, x - status, filled, 0)
  {
  }

  /** How many bytes of the member are on earlier volumes when these hold before of the caller's blocks. */
  function BytesBefore(before: int, info: MemberInfo): int {
    BLOCKSIZE * Max(0, before - info.first)
  }

  /** A continuation header written when rest blocks are still to be copied is exact. */
  lemma OffsetExact(map_: Option<BufMap>, members: seq<MemberInfo>, rest: nat, filled: int, before: int)
    requires Counted(map_, members, rest, filled) && Aligned(map_, members, rest, filled, 0)
    requires before == filled - rest
    requires map_.Some?
    ensures var m := map_.value;
            m.sizetotal - m.sizeleft == BytesBefore(before, members[m.id])
  {
  }

  /** The exact condition under which the offset stored at a volume switch is the number of bytes on the
      earlier volumes, for a record that starts with lead volume headers: the write that ran short wrote
      nothing, or reached past the headers and up to the member's first data block. */
  lemma OffsetExactIff(m: BufMap, info: MemberInfo, x: nat, filled: nat, lead: nat, status: nat)
    requires info.first <= filled && m.sizetotal == info.total && status <= x && lead <= x
    requires m.sizetotal - m.sizeleft == BLOCKSIZE * (m.start - TruePosition(x, filled, info.first))
    requires Aligned(Some(m.(id := 0)), [info], x, filled, lead)
    requires UpdateMap(Some(m), status).Some?
    ensures var m' := UpdateMap(Some(m), status).value;
            m'.sizetotal - m'.sizeleft == BytesBefore(filled - (x - Max(lead, status)), info)
            <==> status == 0 || Max(lead, TruePosition(x, filled, info.first)) <= status
  {
  }

  /** A record of label, continuation header and six data blocks, of which the medium takes the label only:
      the next header says 2560 where 3072 bytes are on the earlier volumes, and the reader refuses it. */
  lemma HeadersCutExample(total: nat)
    requires total > 12 * BLOCKSIZE
    ensures var info, m := MemberInfo(0, total), BufMap(0, 2, total, total - 6 * BLOCKSIZE);
            && m.sizetotal - m.sizeleft == BLOCKSIZE * (m.start - TruePosition(8, 12, info.first))
            && Aligned(Some(m), [info], 8, 12, 2)
            && var m' := UpdateMap(Some(m), 1).value;
            && m'.sizetotal - m'.sizeleft == 2560 && BytesBefore(12 - (8 - 2), info) == 3072
            && CheckContinuation(total, total - 3072, m'.sizeleft, m'.sizetotal - m'.sizeleft) == OutOfSequence
  {
  }

  /** A member that starts at the fifth slot of a record of eight, of which the medium takes two blocks:
      the header says that minus 1024 bytes are on the earlier volumes. */
  lemma DataNotBegunExample(total: nat)
    requires total > 4 * BLOCKSIZE
    ensures var info, m := MemberInfo(4, total), BufMap(0, 4, total, total);
            && Aligned(Some(m), [info], 8, 8, 0)
            && var m' := UpdateMap(Some(m), 2).value;
            && m'.sizetotal - m'.sizeleft == -1024 && BytesBefore(8 - (8 - 2), info) == 0
            && CheckContinuation(total, total, m'.sizeleft, m'.sizetotal - m'.sizeleft) == WrongSize
  {
  }

  /** What try_new_volume checks of a continuation header against the member being read. */
  datatype Verdict = Accept | WrongSize | OutOfSequence

  /** Negative numbers cannot be read from a header field; they come out as -1. */
  function OffFromHeader(x: int): int {
    if x < 0 then -1 else x
  }

  function CheckContinuation(sizetotal: int, sizeleft: int, size: int, offset: int): Verdict {
    var continuedSize, continuedOffset := OffFromHeader(size), OffFromHeader(offset);
    if continuedSize + continuedOffset != sizetotal then WrongSize
    else if sizetotal - sizeleft != continuedOffset then OutOfSequence
    else Accept
  }

  /** The reader that has taken every block of the member from the earlier volumes accepts a header
      exactly when its offset is the number of bytes on these volumes. */
  lemma ReaderAccepts<B>(info: MemberInfo, before: nat, slot: Slot<B>)
    requires slot.Continued? && slot.size + slot.offset == info.total
    requires 0 <= slot.size && slot.offset % BLOCKSIZE == 0
    ensures var left := info.total - BytesBefore(before, info);
            CheckContinuation(info.total, left, slot.size, slot.offset) == Accept
            <==> slot.offset == BytesBefore(before, info)
  {
  }

  // ----- what a volume looks like

  function LabelCount(labelled: bool): nat {
    if labelled then 1 else 0
  }

  /** The member's data has begun when before of the caller's blocks are stored, and goes on after them. */
  predicate Inside(info: MemberInfo, before: int) {
    info.first <= before < info.first + BlocksFor(info.total)
  }

  /** A continuation header that tells the truth. */
  ghost predicate Exact<B>(slot: Slot<B>, before: int, members: seq<MemberInfo>) {
    && slot.Continued? && slot.id < |members|
    && slot.offset == BytesBefore(before, members[slot.id])
    && slot.size == members[slot.id].total - slot.offset && 0 <= slot.size
  }

  /** The only headers of a volume are its label, if there is one, and an exact continuation header. */
  ghost predicate Heads<B>(vol: seq<Slot<B>>, labelled: bool, before: int, members: seq<MemberInfo>) {
    && (forall k :: 0 <= k < |vol| ==> (vol[k].Label? <==> k < LabelCount(labelled)))
    && (forall k :: 0 <= k < |vol| && vol[k].Continued? ==> k == LabelCount(labelled) && Exact(vol[k], before, members))
  }

  /** A member that goes on across the start of the volume has its continuation header there. */
  ghost predicate Continues<B>(vol: seq<Slot<B>>, labelled: bool, before: int, members: seq<MemberInfo>) {
    forall id :: 0 <= id < |members| && Inside(members[id], before) ==>
      LabelCount(labelled) < |vol| && vol[LabelCount(labelled)].Continued? && vol[LabelCount(labelled)].id == id
  }

  ghost predicate NoHeaders<B>(vol: seq<Slot<B>>) {
    forall k :: 0 <= k < |vol| ==> !IsHeader(vol[k])
  }

  /** The first volume has no headers of its own; the others have the right ones. */
  ghost predicate GoodVolume<B>(vol: seq<Slot<B>>, labelled: bool, isFirst: bool, before: int, members: seq<MemberInfo>) {
    if isFirst then NoHeaders(vol)
    else LabelCount(labelled) <= |vol| && Heads(vol, labelled, before, members) && Continues(vol, labelled, before, members)
  }

  ghost predicate NoZeros<B>(vol: seq<Slot<B>>) {
    forall k :: 0 <= k < |vol| ==> !vol[k].Zero?
  }

  ghost predicate AllPayload<B>(vol: seq<Slot<B>>) {
    forall k :: 0 <= k < |vol| ==> vol[k].Payload?
  }

  ghost function Before<B>(done: seq<seq<Slot<B>>>): nat {
    |Payloads(Flat(done))|
  }

  ghost predicate VolumesOk<B>(done: seq<seq<Slot<B>>>, labelled: bool, members: seq<MemberInfo>) {
    forall v :: 0 <= v < |done| ==> VolumeOk(done, v, labelled, members)
  }

  /** A finished volume: good, and with data behind its headers. */
  ghost predicate VolumeOk<B>(done: seq<seq<Slot<B>>>, v: nat, labelled: bool, members: seq<MemberInfo>)
    requires v < |done|
  {
    && GoodVolume(done[v], labelled, v == 0, Before(done[..v]), members)
    && NoZeros(done[v]) && (v > 0 ==> Payloads(done[v]) != [])
  }

  /** Behind the headers a record holds nothing but the caller's blocks. */
  lemma {:induction false} PayloadSuffix<B>(u: seq<Slot<B>>)
    requires forall i, j :: 0 <= i < j < |u| && !u[j].Payload? ==> !u[i].Payload?
    ensures 0 <= |u| - |Payloads(u)| <= |u|
    ensures forall k :: 0 <= k < |u| ==> (u[k].Payload? <==> |u| - |Payloads(u)| <= k)
  {
    if u != [] {
      var u' := u[..|u| - 1];
      PayloadSuffix(u');
      if !u[|u| - 1].Payload? {
        PayloadsCount(u);
      }
      assert forall k :: 0 <= k < |u'| ==> u[k] == u'[k];
    }
  }

  lemma HeadersInFront<B>(vol: seq<Slot<B>>, labelled: bool, isFirst: bool, before: int, members: seq<MemberInfo>)
    requires if isFirst then NoHeaders(vol) else Heads(vol, labelled, before, members)
    ensures forall k :: 0 <= k < |vol| && IsHeader(vol[k]) ==> k <= LabelCount(labelled)
    ensures forall i, j :: 0 <= i < j < |vol| && IsHeader(vol[j]) ==> IsHeader(vol[i])
  {
  }

  // ----- the writer's state

  /** The whole state of a writer, as values: finished volumes, current volume, used part of the
      record, and slots of the previous record that are still to be copied. */
  datatype State<B> = State(done: seq<seq<Slot<B>>>, volume: seq<Slot<B>>, used: seq<Slot<B>>, rest: seq<Slot<B>>,
                            filled: seq<B>, members: seq<MemberInfo>, labelled: bool, clean: bool)

  ghost predicate Conserved<B>(s: State<B>) {
    Payloads(Flat(s.done) + s.volume) + Payloads(s.used) + Payloads(s.rest) == s.filled
  }

  /** Leading slots of the record that hold no block of the caller. */
  ghost function Lead<B>(s: State<B>): int {
    |s.used| - |Payloads(s.used)|
  }

  /** The caller's blocks that are on the media. */
  ghost function Stored<B>(s: State<B>): nat {
    |Payloads(Flat(s.done) + s.volume)|
  }

  /** Every member but the tracked one is on the media to its last block. */
  ghost predicate Others(map_: Option<BufMap>, members: seq<MemberInfo>, stored: int) {
    forall id :: 0 <= id < |members| && !(map_.Some? && map_.value.id == id) ==>
      members[id].first + BlocksFor(members[id].total) <= stored
  }

  /** As long as every write was clean, all volumes are good. */
  ghost predicate Ordered<B>(s: State<B>) {
    s.clean ==>
      && VolumesOk(s.done, s.labelled, s.members)
      && GoodVolume(s.volume + s.used, s.labelled, s.done == [], Before(s.done), s.members)
      && NoZeros(s.volume + s.used) && AllPayload(s.rest)
  }

  ghost predicate Invariant<B>(s: State<B>, map_: Option<BufMap>, x: int) {
    && Conserved(s)
    && Ordered(s)
    && Counted(map_, s.members, x, |s.filled|)
    && (s.clean ==> Aligned(map_, s.members, x, |s.filled|, Lead(s)) && Others(map_, s.members, Stored(s)))
  }

  /** While the headers of a new volume are written, start has not been moved behind them yet. */
  ghost predicate HeaderPhase<B>(s: State<B>, map_: Option<BufMap>) {
    && Conserved(s)
    && s.done != [] && (forall k :: 0 <= k < |s.volume + s.used| ==> IsHeader((s.volume + s.used)[k]))
    && Counted(map_, s.members, |s.rest|, |s.filled|)
    && (s.clean ==>
          && VolumesOk(s.done, s.labelled, s.members)
          && Heads(s.volume + s.used, s.labelled, Before(s.done), s.members) && AllPayload(s.rest)
          && Aligned(map_, s.members, |s.rest|, |s.filled|, 0) && Others(map_, s.members, Before(s.done)))
  }

  lemma NoPayloads<B>()
    ensures Payloads<B>([]) == []
  {
  }

  lemma FlatSnoc<B>(done: seq<seq<Slot<B>>>, v: seq<Slot<B>>)
    ensures Flat(done + [v]) == Flat(done) + v
  {
    assert (done + [v])[..|done|] == done;
  }

  /** In a good record the headers are the first Lead slots. */
  lemma UsedShape<B>(s: State<B>)
    requires Ordered(s) && s.clean
    ensures 0 <= Lead(s) <= |s.used|
    ensures forall k :: 0 <= k < |s.used| ==> (s.used[k].Payload? <==> Lead(s) <= k)
    ensures |s.volume| > LabelCount(s.labelled) ==> Lead(s) == 0
    ensures Lead(s) <= LabelCount(s.labelled) + 1
    ensures s.done == [] ==> Lead(s) == 0
  {
    hide Payloads, VolumesOk, Continues, Exact;
    var vol := s.volume + s.used;
    HeadersInFront(vol, s.labelled, s.done == [], Before(s.done), s.members);
    assert forall k :: 0 <= k < |s.used| ==> s.used[k] == vol[|s.volume| + k];
    PayloadSuffix(s.used);
    if Lead(s) > 0 {
      assert IsHeader(vol[|s.volume| + Lead(s) - 1]);
    }
  }

  /** In a clean state, what is stored and what is still in the buffers make up what was filled. */
  lemma StoredCount<B>(s: State<B>)
    requires Conserved(s) && AllPayload(s.rest)
    ensures Stored(s) == |s.filled| - |s.rest| - (|s.used| - Lead(s))
  {
    PayloadsCount(s.rest);
  }

  // ----- every step keeps the invariant

  /** A member is dropped from the map only when all its blocks are written. */
  lemma OthersUpdate(map_: Option<BufMap>, members: seq<MemberInfo>, x: int, filled: int, status: nat, stored: int, stored': int)
    requires Counted(map_, members, x, filled) && Others(map_, members, stored)
    requires stored <= stored' && (status > 0 ==> stored' == filled - x + status)
    ensures Others(UpdateMap(map_, status), members, stored')
  {
    if map_.Some? && UpdateMap(map_, status).None? {
      Complete(map_.value, members[map_.value.id], x, filled, status);
    }
  }

  lemma Complete(m: BufMap, info: MemberInfo, x: int, filled: int, status: nat)
    requires m.sizetotal == info.total && UpdateMap(Some(m), status).None?
    requires m.sizetotal - m.sizeleft == BLOCKSIZE * (m.start - TruePosition(x, filled, info.first))
    ensures info.first + BlocksFor(info.total) <= filled - x + status
  {
  }

  /** The record goes out whole. */
  lemma FullWrite<B>(s: State<B>, map_: Option<BufMap>, clean: bool)
    requires Invariant(s, map_, |s.used| + |s.rest|)
    requires clean ==> s.clean && Reached(map_, s.members, |s.used| + |s.rest|, |s.filled|, |s.used|)
    ensures Invariant(s.(volume := s.volume + s.used, used := [], clean := clean), UpdateMap(map_, |s.used|), |s.rest|)
    ensures clean ==> Reached(UpdateMap(map_, |s.used|), s.members, |s.rest|, |s.filled|, 0)
  {
    hide Payloads, Aligned, Counted, Reached, UpdateMap, VolumesOk, GoodVolume, Others, Flat, NoZeros, AllPayload;
    var t := s.(volume := s.volume + s.used, used := [], clean := clean);
    FullConserved(s, t);
    CountedUpdate(map_, s.members, |s.used| + |s.rest|, |s.filled|, |s.used|);
    assert t.volume + t.used == s.volume + s.used;
    if clean {
      UsedShape(s);
      AlignedUpdate(map_, s.members, |s.used| + |s.rest|, |s.filled|, Lead(s), |s.used|);
      StoredCount(s);
      StoredCount(t);
      LeadEmpty(t);
      OthersUpdate(map_, s.members, |s.used| + |s.rest|, |s.filled|, |s.used|, Stored(s), Stored(t));
    }
  }

  lemma LeadEmpty<B>(s: State<B>)
    requires s.used == []
    ensures Lead(s) == 0
  {
  }

  lemma FullConserved<B>(s: State<B>, t: State<B>)
    requires Conserved(s)
    requires t.done == s.done && t.volume == s.volume + s.used && t.used == [] && t.rest == s.rest && t.filled == s.filled
    ensures Conserved(t)
  {
    hide Flat, Payloads;
    PayloadsConcat(Flat(s.done) + s.volume, s.used);
    assert Flat(t.done) + t.volume == Flat(s.done) + s.volume + s.used;
    NoPayloads<B>();
  }

  /** A part of a volume that is longer than its headers holds a block of the caller. */
  lemma PayloadBehindHeaders<B>(vol: seq<Slot<B>>, w: seq<Slot<B>>, labelled: bool, isFirst: bool, before: int, members: seq<MemberInfo>)
    requires GoodVolume(vol, labelled, isFirst, before, members) && NoZeros(vol) && w <= vol && LabelCount(labelled) + 1 < |w|
    ensures Payloads(w) != []
  {
    hide Payloads, Exact, Continues;
    var k := LabelCount(labelled) + 1;
    HeadersInFront(vol, labelled, isFirst, before, members);
    assert w[k] == vol[k] && vol[k].Payload?;
    PayloadsConcat(w[..k], w[k..]);
    assert w == w[..k] + w[k..];
    PayloadFirst(w[k..]);
  }

  lemma PayloadFirst<B>(u: seq<Slot<B>>)
    requires u != [] && u[0].Payload?
    ensures Payloads(u) != []
  {
    OnePayload(u[0].b);
    PayloadsConcat([u[0]], u[1..]);
    assert u == [u[0]] + u[1..];
  }

  lemma OnePayload<B>(b: B)
    ensures Payloads([Payload(b)]) == [b]
  {
    assert Payloads([Payload(b)][..0]) == [];
  }

  /** Whether a short write leaves a good volume: it reaches the tracked member's first data block, and the
      volume, unless it is the first, has got a block of the caller. */
  ghost predicate CleanSwitch<B>(s: State<B>, map_: Option<BufMap>, status: nat)
    requires status <= |s.used|
  {
    && Reached(map_, s.members, |s.used|, |s.filled|, status)
    && (s.done == [] || Payloads(s.volume + s.used[..status]) != [])
  }

  /** The headers of a volume with data are all written. */
  lemma LeadWritten<B>(s: State<B>, status: nat)
    requires Ordered(s) && s.clean && status <= |s.used|
    requires s.done == [] || Payloads(s.volume + s.used[..status]) != []
    ensures Lead(s) <= status
  {
    hide Payloads, VolumesOk, Continues, Exact;
    UsedShape(s);
    if status < Lead(s) {
      var vol, w := s.volume + s.used, s.volume + s.used[..status];
      HeadersInFront(vol, s.labelled, false, Before(s.done), s.members);
      assert IsHeader(vol[|s.volume| + status]);
      forall k | 0 <= k < |w| ensures !w[k].Payload? {
        assert w[k] == vol[k];
      }
      PayloadsCount(w);
      assert false;
    }
  }

  /** The record goes out in part: the volume is finished, and what was not written is kept. */
  lemma ShortWrite<B>(s: State<B>, map_: Option<BufMap>, status: nat, clean: bool)
    requires Invariant(s, map_, |s.used|) && s.rest == [] && status <= |s.used|
    requires clean ==> s.clean && CleanSwitch(s, map_, status)
    ensures HeaderPhase(State(s.done + [s.volume + s.used[..status]], [], [], s.used[status..], s.filled, s.members, s.labelled, clean),
                        UpdateMap(map_, status))
    ensures clean ==> Reached(UpdateMap(map_, status), s.members, |s.used| - status, |s.filled|, 0)
  {
    hide Payloads, Aligned, Counted, UpdateMap, Reached, VolumesOk, GoodVolume, Heads, Others, Flat, NoZeros;
    var written := s.volume + s.used[..status];
    var t := State(s.done + [written], [], [], s.used[status..], s.filled, s.members, s.labelled, clean);
    ShortConserved(s, t, status);
    CountedUpdate(map_, s.members, |s.used|, |s.filled|, status);
    if clean {
      LeadWritten(s, status);
      UsedShape(s);
      AlignedUpdate(map_, s.members, |s.used|, |s.filled|, Lead(s), status);
      assert AllPayload(t.rest);
      ShortVolumes(s, status);
      EmptyHeads(t);
      FlatSnoc(s.done, written);
      assert Flat(t.done) + t.volume == Flat(t.done);
      StoredCount(s);
      StoredCount(t);
      LeadEmpty(t);
      OthersUpdate(map_, s.members, |s.used|, |s.filled|, status, Stored(s), Stored(t));
    }
  }

  lemma EmptyHeads<B>(t: State<B>)
    requires t.volume == [] && t.used == []
    ensures Heads(t.volume + t.used, t.labelled, Before(t.done), t.members)
  {
  }

  lemma ShortConserved<B>(s: State<B>, t: State<B>, status: nat)
    requires Conserved(s) && s.rest == [] && status <= |s.used|
    requires t.done == s.done + [s.volume + s.used[..status]] && t.volume == [] && t.used == []
    requires t.rest == s.used[status..] && t.filled == s.filled
    ensures Conserved(t)
  {
    hide Flat, Payloads;
    PayloadsConcat(s.used[..status], s.used[status..]);
    assert s.used == s.used[..status] + s.used[status..];
    PayloadsConcat(Flat(s.done) + s.volume, s.used[..status]);
    FlatSnoc(s.done, s.volume + s.used[..status]);
    assert Flat(t.done) + t.volume == Flat(s.done) + s.volume + s.used[..status];
    NoPayloads<B>();
  }

  /** The finished volume is good, since its headers were all written. */
  lemma ShortVolumes<B>(s: State<B>, status: nat)
    requires Ordered(s) && s.clean && Lead(s) <= status <= |s.used|
    requires s.done == [] || Payloads(s.volume + s.used[..status]) != []
    ensures VolumesOk(s.done + [s.volume + s.used[..status]], s.labelled, s.members)
  {
    hide Payloads, Flat, GoodVolume;
    var written := s.volume + s.used[..status];
    var done := s.done + [written];
    forall v | 0 <= v < |done| ensures VolumeOk(done, v, s.labelled, s.members) {
      if v < |s.done| {
        assert VolumeOk(s.done, v, s.labelled, s.members);
        assert done[..v] == s.done[..v];
      } else {
        assert done[..v] == s.done;
        assert forall k :: 0 <= k < |written| ==> written[k] == (s.volume + s.used)[k];
        ShorterVolume(s, status);
      }
    }
  }

  lemma ShorterVolume<B>(s: State<B>, status: nat)
    requires Ordered(s) && s.clean && Lead(s) <= status <= |s.used|
    requires s.done == [] || Payloads(s.volume + s.used[..status]) != []
    ensures GoodVolume(s.volume + s.used[..status], s.labelled, s.done == [], Before(s.done), s.members)
  {
    hide Payloads, Exact, VolumesOk;
    var vol, w := s.volume + s.used, s.volume + s.used[..status];
    UsedShape(s);
    PayloadsCount(w);
    assert forall k :: 0 <= k < |w| ==> w[k] == vol[k];
    var i := LabelCount(s.labelled);
    if i < |vol| && |w| <= i {
      assert vol[i] == s.used[i - |s.volume|];
    }
  }

  /** A volume header is added: the label first, or a continuation header made from the map. */
  lemma AddHeader<B>(s: State<B>, map_: Option<BufMap>, slot: Slot<B>)
    requires HeaderPhase(s, map_)
    requires |s.volume + s.used| == (if slot.Label? then 0 else LabelCount(s.labelled)) && (slot.Label? ==> s.labelled)
    requires slot.Label? || (map_.Some? && slot == Continued(map_.value.id, map_.value.sizeleft,
                                                              map_.value.sizetotal - map_.value.sizeleft))
    ensures HeaderPhase(s.(used := s.used + [slot]), map_)
  {
    hide Payloads, Flat, VolumesOk, BytesBefore, Others;
    var t := s.(used := s.used + [slot]);
    PayloadsConcat(s.used, [slot]);
    PayloadsCount([slot]);
    assert t.volume + t.used == (s.volume + s.used) + [slot];
    if slot.Continued? && s.clean {
      BeforeHeaders(s);
      OffsetExact(map_, s.members, |s.rest|, |s.filled|, Before(s.done));
    }
  }

  /** While headers are written, the earlier volumes hold all blocks but the rest. */
  lemma BeforeHeaders<B>(s: State<B>)
    requires Conserved(s) && AllPayload(s.rest)
    requires forall k :: 0 <= k < |s.volume + s.used| ==> IsHeader((s.volume + s.used)[k])
    ensures Before(s.done) == |s.filled| - |s.rest| == Stored(s) && Payloads(s.used) == []
  {
    hide Flat, Payloads;
    var vu := s.volume + s.used;
    assert forall k :: 0 <= k < |s.volume| ==> s.volume[k] == vu[k];
    assert forall k :: 0 <= k < |s.used| ==> s.used[k] == vu[|s.volume| + k];
    PayloadsConcat(Flat(s.done), s.volume);
    PayloadsCount(s.volume);
    PayloadsCount(s.used);
    PayloadsCount(s.rest);
  }

  /** A record full of headers goes out; the map is not touched. */
  lemma HeaderWrite<B>(s: State<B>, map_: Option<BufMap>)
    requires HeaderPhase(s, map_)
    ensures HeaderPhase(s.(volume := s.volume + s.used, used := []), map_)
  {
    hide Payloads, Flat, VolumesOk, BytesBefore, Heads, Counted, Aligned, Others;
    var t := s.(volume := s.volume + s.used, used := []);
    FullConserved(s, t);
    assert t.volume + t.used == s.volume + s.used;
  }

  /** The headers that the new volume must have: its label, and the header of the tracked member. */
  ghost predicate HeadersDone<B>(s: State<B>, map_: Option<BufMap>) {
    var vol, i := s.volume + s.used, LabelCount(s.labelled);
    if map_.Some? then |vol| == i + 1 && vol[i].Continued? && vol[i].id == map_.value.id else |vol| == i
  }

  /** bufmap_reset moves start behind the headers. */
  lemma ResetMap<B>(s: State<B>, map_: Option<BufMap>)
    requires HeaderPhase(s, map_) && HeadersDone(s, map_)
    ensures Invariant(s, if map_.None? then None else Some(map_.value.(start := map_.value.start + |s.used|)),
                      |s.used| + |s.rest|)
    ensures s.clean ==> Lead(s) == |s.used|
  {
    hide Payloads, Flat, VolumesOk, BytesBefore;
    if s.clean {
      BeforeHeaders(s);
    }
  }

  /** n kept slots are copied into the record. */
  lemma CopySlots<B>(s: State<B>, map_: Option<BufMap>, n: nat)
    requires Invariant(s, map_, |s.used| + |s.rest|) && n <= |s.rest|
    ensures Invariant(s.(used := s.used + s.rest[..n], rest := s.rest[n..]), map_, |s.used| + |s.rest|)
    ensures s.clean ==> Lead(s.(used := s.used + s.rest[..n], rest := s.rest[n..])) == Lead(s)
  {
    hide Payloads, Flat, VolumesOk, Counted, GoodVolume, Others, Aligned;
    var t := s.(used := s.used + s.rest[..n], rest := s.rest[n..]);
    PayloadsConcat(s.used, s.rest[..n]);
    PayloadsConcat(s.rest[..n], s.rest[n..]);
    assert s.rest == s.rest[..n] + s.rest[n..];
    PayloadsCount(s.rest[..n]);
    assert t.volume + t.used == (s.volume + s.used) + s.rest[..n];
    if s.clean {
      GrownVolume(s.volume + s.used, s.rest[..n], s.labelled, s.done == [], Before(s.done), s.members);
    }
  }

  /** Blocks behind the headers leave a volume good. */
  lemma GrownVolume<B>(vol: seq<Slot<B>>, more: seq<Slot<B>>, labelled: bool, isFirst: bool, before: int, members: seq<MemberInfo>)
    requires GoodVolume(vol, labelled, isFirst, before, members) && (forall k :: 0 <= k < |more| ==> !IsHeader(more[k]))
    ensures GoodVolume(vol + more, labelled, isFirst, before, members)
  {
    hide Exact;
    assert forall k :: 0 <= k < |vol + more| ==> (vol + more)[k] == if k < |vol| then vol[k] else more[k - |vol|];
  }

  /** The caller fills one more block. */
  lemma FillBlock<B>(s: State<B>, map_: Option<BufMap>, b: B)
    requires Invariant(s, map_, |s.used|) && s.rest == []
    ensures Invariant(s.(used := s.used + [Payload(b)], filled := s.filled + [b]), map_, |s.used| + 1)
    ensures Lead(s.(used := s.used + [Payload(b)], filled := s.filled + [b])) == Lead(s)
  {
    hide Payloads, Flat, VolumesOk, GoodVolume, Others;
    var t := s.(used := s.used + [Payload(b)], filled := s.filled + [b]);
    PayloadsConcat(s.used, [Payload(b)]);
    assert Payloads([Payload(b)]) == [b] by { OnePayload(b); }
    NoPayloads<B>();
    assert t.volume + t.used == (s.volume + s.used) + [Payload(b)];
    if s.clean {
      GrownVolume(s.volume + s.used, [Payload(b)], s.labelled, s.done == [], Before(s.done), s.members);
    }
  }

  /** mv_begin_write starts tracking a member at the current block, after its header block was filled. */
  lemma BeginTracking<B>(s: State<B>, total: nat)
    requires Invariant(s, None, |s.used|) && s.rest == []
    requires s.done == [] || Before(s.done) < |s.filled|
    ensures Invariant(s.(members := s.members + [MemberInfo(|s.filled|, total)]),
                      Some(BufMap(|s.members|, |s.used|, total, total)), |s.used|)
  {
    hide Payloads, Flat, BytesBefore, Continues, Heads, NoZeros, VolumesOk;
    var info := MemberInfo(|s.filled|, total);
    var t := s.(members := s.members + [info]);
    if s.clean {
      UsedShape(s);
      MoreVolumes(s.done, s.labelled, s.members, info);
      if s.done != [] {
        MoreMembers(s.volume + s.used, s.labelled, Before(s.done), s.members, info);
      }
    }
  }

  lemma MoreMembers<B>(vol: seq<Slot<B>>, labelled: bool, before: int, members: seq<MemberInfo>, info: MemberInfo)
    requires Heads(vol, labelled, before, members) && Continues(vol, labelled, before, members) && before < info.first
    ensures Heads(vol, labelled, before, members + [info]) && Continues(vol, labelled, before, members + [info])
  {
    hide BytesBefore;
    var more := members + [info];
    assert forall id :: 0 <= id < |members| ==> more[id] == members[id];
  }

  lemma MoreVolumes<B>(done: seq<seq<Slot<B>>>, labelled: bool, members: seq<MemberInfo>, info: MemberInfo)
    requires VolumesOk(done, labelled, members) && (done == [] || Before(done) < info.first)
    ensures VolumesOk(done, labelled, members + [info])
  {
    hide Payloads, Flat, Continues, Heads, NoZeros;
    forall v | 0 <= v < |done| ensures VolumeOk(done, v, labelled, members + [info]) {
      assert VolumeOk(done, v, labelled, members);
      if v > 0 {
        BeforeGrows(done, v);
        MoreMembers(done[v], labelled, Before(done[..v]), members, info);
      }
    }
  }

  lemma {:induction false} BeforeGrows<B>(done: seq<seq<Slot<B>>>, v: nat)
    requires v <= |done|
    ensures Before(done[..v]) <= Before(done)
    decreases |done|
  {
    hide Payloads;
    if v == |done| {
      assert done[..v] == done;
    } else {
      var init := done[..|done| - 1];
      BeforeGrows(init, v);
      assert init[..v] == done[..v];
      PayloadsConcat(Flat(init), done[|done| - 1]);
    }
  }

  // ----- finished media

  /** What a reader may rely on: the caller's blocks in order, good volumes with data on each but perhaps
      the last, and zero fill at the very end only. */
  ghost predicate MediaOk<B>(volumes: seq<seq<Slot<B>>>, labelled: bool, members: seq<MemberInfo>, filled: seq<B>) {
    && Payloads(Flat(volumes)) == filled
    && forall v :: 0 <= v < |volumes| ==> VolumeReadable(volumes, v, labelled, members)
  }

  ghost predicate VolumeReadable<B>(volumes: seq<seq<Slot<B>>>, v: nat, labelled: bool, members: seq<MemberInfo>)
    requires v < |volumes|
  {
    && GoodVolume(volumes[v], labelled, v == 0, Before(volumes[..v]), members)
    && (v + 1 < |volumes| ==> NoZeros(volumes[v]) && (v > 0 ==> Payloads(volumes[v]) != []))
    && ZerosLast(volumes[v])
  }

  ghost predicate ZerosLast<B>(vol: seq<Slot<B>>) {
    forall i, j :: 0 <= i < j < |vol| && vol[i].Zero? ==> vol[j].Zero?
  }

  /** The last record goes out with its zero fill. */
  lemma MediaDone<B>(s: State<B>, map_: Option<BufMap>, zeros: seq<Slot<B>>)
    requires Invariant(s, map_, |s.used|) && s.rest == [] && s.clean
    requires forall k :: 0 <= k < |zeros| ==> zeros[k].Zero?
    ensures MediaOk(s.done + [s.volume + s.used + zeros], s.labelled, s.members, s.filled)
  {
    hide Payloads, Flat, GoodVolume, Counted, Aligned, Others;
    var last := s.volume + s.used + zeros;
    var volumes := s.done + [last];
    LastPayloads(s, zeros);
    forall v | 0 <= v < |volumes| ensures VolumeReadable(volumes, v, s.labelled, s.members) {
      if v < |s.done| {
        assert VolumeOk(s.done, v, s.labelled, s.members);
        assert volumes[..v] == s.done[..v];
      } else {
        assert volumes[..v] == s.done;
        GrownVolume(s.volume + s.used, zeros, s.labelled, s.done == [], Before(s.done), s.members);
      }
    }
  }

  lemma LastPayloads<B>(s: State<B>, zeros: seq<Slot<B>>)
    requires Conserved(s) && s.rest == [] && (forall k :: 0 <= k < |zeros| ==> zeros[k].Zero?)
    ensures Payloads(Flat(s.done + [s.volume + s.used + zeros])) == s.filled
  {
    hide Payloads, Flat;
    FlatSnoc(s.done, s.volume + s.used + zeros);
    assert Flat(s.done) + (s.volume + s.used + zeros) == (Flat(s.done) + s.volume) + s.used + zeros;
    PayloadsConcat((Flat(s.done) + s.volume) + s.used, zeros);
    PayloadsConcat(Flat(s.done) + s.volume, s.used);
    PayloadsCount(zeros);
    NoPayloads<B>();
  }

  /** A record of a good volume may be cut after status blocks if these, or what the volume took before,
      go past the headers, and the member's first data block is reached. */
  lemma SwitchIsClean<B>(s: State<B>, map_: Option<BufMap>, status: nat)
    requires Ordered(s) && s.clean && status <= |s.used|
    requires Reached(map_, s.members, |s.used|, |s.filled|, Max(Lead(s), status))
    requires LabelCount(s.labelled) + 1 < status || LabelCount(s.labelled) + 1 < |s.volume|
    ensures CleanSwitch(s, map_, status)
  {
    hide Payloads, VolumesOk, GoodVolume, Flat, NoZeros;
    UsedShape(s);
    var w := s.volume + s.used[..status];
    assert w == (s.volume + s.used)[..|w|];
    PayloadBehindHeaders(s.volume + s.used, w, s.labelled, s.done == [], Before(s.done), s.members);
  }

  /** When a block of the caller is in the record, more has been filled than is on the media. */
  lemma FilledSince<B>(s: State<B>, b: B)
    requires Conserved(s) && s.used != [] && s.used[|s.used| - 1] == Payload(b)
    ensures Before(s.done) < |s.filled|
  {
    PayloadsConcat(Flat(s.done), s.volume);
  }
}

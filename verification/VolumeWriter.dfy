/** _gnu_flush_write and its callers: writing blocks over any number of volumes. */
module VolumeWriting {
  import opened Bytes
  import opened Volumes

  /** WriteError: the program stops because a write failed that it cannot repeat on a new volume.
      Overrun: the number of bytes to copy to the new volume came out negative. */
  datatype Outcome = Ok | WriteError | Overrun

  /** What decides the course of a run: the used blocks of the record, the number of writes and the map. */
  datatype Control = Control(cur: nat, writes: nat, tracked: Option<BufMap>)

  datatype Pass = Pass(outcome: Outcome, next: Control)

  /** The map with its start moved. */
  function MovedBy(t: Option<BufMap>, n: nat): Option<BufMap> {
    if t.None? then None else Some(t.value.(start := t.value.start + n))
  }

  class VolumeWriter<B> {
    const blockingFactor: nat
    const labelled: bool
    const plan: nat -> nat              // how many blocks the medium takes of each record, if it has so many
    var record: array<Slot<B>>
    var spare: array<Slot<B>>           // the other record buffer
    var cur: nat
    var done: seq<seq<Slot<B>>>         // finished volumes
    var volume: seq<Slot<B>>            // the current volume
    var writes: nat
    var tracked: Option<BufMap>
    var begun: nat                      // how many members were ever tracked; stands for their names
    ghost var filled: seq<B>            // every block the caller has filled
    ghost var members: seq<MemberInfo>  // every member that was ever tracked
    ghost var clean: bool               // every volume so far was left good

    ghost predicate Buffers()
      reads this
    {
      && 0 < blockingFactor && record.Length == spare.Length == blockingFactor
      && record != spare && cur <= blockingFactor && begun == |members|
      && (0 < writes && WriteSize(writes - 1) == blockingFactor ==> blockingFactor <= |volume|)
    }

    ghost function Abstract(rest: seq<Slot<B>>): State<B>
      requires Buffers()
      reads this, record
    {
      State(done, volume, record[..cur], rest, filled, members, labelled, clean)
    }

    ghost predicate Valid()
      reads this, record
    {
      Buffers() && Invariant(Abstract([]), tracked, cur)
    }

    constructor (blockingFactor: nat, labelled: bool, plan: nat -> nat)
      requires 0 < blockingFactor
      ensures Valid() && fresh(record) && fresh(spare)
      ensures filled == [] && members == [] && clean && cur == 0 && done == [] && volume == []
      ensures this.blockingFactor == blockingFactor && this.plan == plan && writes == 0 && tracked.None?
      ensures this.labelled == labelled
    {
      hide Invariant;
      this.blockingFactor, this.labelled, this.plan := blockingFactor, labelled, plan;
      record := new Slot<B>[blockingFactor](_ => Zero);
      spare := new Slot<B>[blockingFactor](_ => Zero);
      cur, done, volume, writes, tracked, begun := 0, [], [], 0, None, 0;
      filled, members, clean := [], [], true;
      new;
      EmptyState(Abstract([]));
    }

    // ----- the medium

    /** How many blocks the n-th write takes. */
    function WriteSize(n: nat): nat {
      Min(plan(n), blockingFactor)
    }

    /** The most headers that a volume can have. */
    function HeaderMax(): nat {
      LabelCount(labelled) + 1
    }

    /** The n-th write is whole, or takes more blocks than a volume has headers, or comes between two whole
        writes and records are longer than the headers.  So every volume takes more than its headers. */
    predicate Roomy(n: nat) {
      || WriteSize(n) == blockingFactor
      || HeaderMax() < WriteSize(n)
      || (HeaderMax() < blockingFactor && 0 < n
          && WriteSize(n - 1) == blockingFactor && WriteSize(n + 1) == blockingFactor)
    }

    /** From the given write on, every volume takes more than its headers. */
    ghost predicate Medium(from: nat) {
      forall n :: from <= n ==> Roomy(n)
    }

    /** Every volume so far is good, and the next write reaches the tracked member's first data block. */
    ghost predicate Sound()
      requires Buffers()
      reads this, record
    {
      clean && Reached(tracked, members, cur, |filled|, Max(Lead(Abstract([])), WriteSize(writes)))
    }

    /** sys_write_archive_buffer and the counting of _flush_write. */
    method FlushWrite(inhibitMap: bool) returns (status: nat)
      requires Buffers()
      modifies this`volume, this`writes, this`tracked
      ensures status == WriteSize(old(writes)) && Buffers()
      ensures writes == old(writes) + 1
      ensures volume == old(volume) + record[..status]
      ensures tracked == if inhibitMap then old(tracked) else UpdateMap(old(tracked), status)
    {
      status := WriteSize(writes);
      writes := writes + 1;
      volume := volume + record[..status];
      if !inhibitMap {
        tracked := UpdateMap(tracked, status);
      }
    }

    // ----- the course of a run, without the blocks

    ghost function Now(): Control
      reads this`cur, this`writes, this`tracked
    {
      Control(cur, writes, tracked)
    }

    ghost predicate Came(p: Pass, outcome: Outcome)
      reads this`cur, this`writes, this`tracked
    {
      outcome == p.outcome && Now() == p.next
    }

    /** How many headers a new volume gets. */
    function HeaderCount(t: Option<BufMap>): nat {
      LabelCount(labelled) + if t.Some? then 1 else 0
    }

    /** find_next_block while a volume is started: a full record must go out whole. */
    function Found(c: Control, counted: bool): Pass {
      if c.cur < blockingFactor then Pass(Ok, c)
      else
        var status := WriteSize(c.writes);
        Pass(if status == blockingFactor then Ok else WriteError,
             Control(0, c.writes + 1, if counted then UpdateMap(c.tracked, status) else c.tracked))
    }

    function WithHeader(p: Pass): Pass {
      if p.outcome != Ok then p
      else
        var f := Found(p.next, false);
        if f.outcome != Ok then f else Pass(Ok, f.next.(cur := f.next.cur + 1))
    }

    /** A new volume with its headers. */
    function WithHeaders(c: Control): Pass {
      var a := if labelled then WithHeader(Pass(Ok, c)) else Pass(Ok, c);
      var b := if c.tracked.Some? then WithHeader(a) else a;
      if b.outcome != Ok then b else Found(b.next, false)
    }

    /** n more blocks, no more than a record, are copied behind them. */
    function WithRest(c: Control, n: nat): Pass {
      if c.cur + n < blockingFactor then Pass(Ok, c.(cur := c.cur + n))
      else
        var f := Found(c.(cur := blockingFactor), true);
        if f.outcome != Ok then f else Pass(Ok, f.next.(cur := c.cur + n - blockingFactor))
    }

    /** A new volume, with n blocks that the old one did not take. */
    function NextVolume(c: Control, n: nat): Pass {
      var h := WithHeaders(c);
      if h.outcome != Ok then h else WithRest(h.next.(tracked := MovedBy(h.next.tracked, h.next.cur)), n)
    }

    /** _gnu_flush_write. */
    function Flushed(c: Control): Pass {
      var status := WriteSize(c.writes);
      var t := UpdateMap(c.tracked, status);
      if status == blockingFactor then Pass(Ok, Control(0, c.writes + 1, t))
      else if c.cur < status then Pass(Overrun, Control(c.cur, c.writes + 1, t))
      else NextVolume(Control(0, c.writes + 1, t), c.cur - status)
    }

    /** The close loop goes on after a pass that leaves something in the record. */
    predicate GoesOn(p: Pass) {
      p.outcome == Ok && 0 < p.next.cur
    }

    /** Where the close loop is before its pass number k, if it gets there. */
    function After(c: Control, k: nat): Option<Control> {
      if k == 0 then Some(c)
      else
        var d := After(c, k - 1);
        if d.Some? && GoesOn(Flushed(d.value)) then Some(Flushed(d.value).next) else None
    }

    /** The close loop ends. */
    ghost predicate CloseEnds(c: Control) {
      exists k: nat :: After(c, k).None?
    }

    /** Pass number k of the close loop is its last one, and this is what it comes to. */
    ghost predicate LastPass(c: Control, k: nat, p: Pass) {
      After(c, k).Some? && Flushed(After(c, k).value) == p && !GoesOn(p)
    }

    ghost predicate CloseGives(c: Control, p: Pass) {
      exists k: nat :: LastPass(c, k, p)
    }

    /** In pass number k the medium takes more than the used part of the record, but not the whole record. */
    predicate OverrunsAt(c: Control, k: nat) {
      After(c, k).Some? && After(c, k).value.cur < WriteSize(After(c, k).value.writes) < blockingFactor
    }

    ghost predicate Overruns(c: Control) {
      exists k: nat :: OverrunsAt(c, k)
    }

    /** One block of the caller. */
    function Put(c: Control): Pass {
      if c.cur < blockingFactor then Pass(Ok, c.(cur := c.cur + 1))
      else
        var f := Flushed(c);
        if f.outcome != Ok then f else Pass(Ok, f.next.(cur := f.next.cur + 1))
    }

    function Puts(c: Control, n: nat): Pass {
      if n == 0 then Pass(Ok, c)
      else
        var p := Puts(c, n - 1);
        if p.outcome != Ok then p else Put(p.next)
    }

    /** A run of n blocks and the closing of the archive ends. */
    ghost predicate RunEnds(c: Control, n: nat) {
      Puts(c, n).outcome == Ok ==> CloseEnds(Puts(c, n).next)
    }

    /** What such a run comes to. */
    ghost predicate RunGives(c: Control, n: nat, p: Pass) {
      if Puts(c, n).outcome == Ok then CloseGives(Puts(c, n).next, p) else p == Puts(c, n)
    }

    ghost predicate RunOverruns(c: Control, n: nat) {
      Puts(c, n).outcome == Ok && Overruns(Puts(c, n).next)
    }

    // ----- facts about that course

    lemma NoOverrun(c: Control, n: nat)
      ensures NextVolume(c, n).outcome != Overrun && c.writes <= NextVolume(c, n).next.writes
    {
    }

    lemma FlushedFacts(c: Control)
      ensures c.writes < Flushed(c).next.writes
      ensures Flushed(c).outcome == Overrun <==> c.cur < WriteSize(c.writes) < blockingFactor
      ensures GoesOn(Flushed(c)) ==> WriteSize(c.writes) < blockingFactor
    {
      hide NextVolume, UpdateMap;
      if c.cur >= WriteSize(c.writes) {
        var d := Control(0, c.writes + 1, UpdateMap(c.tracked, WriteSize(c.writes)));
        NoOverrun(d, c.cur - WriteSize(c.writes));
      }
    }

    lemma {:induction false} AfterForward(c: Control, k: nat)
      ensures After(c, k).Some? ==> c.writes + k <= After(c, k).value.writes
    {
      hide Flushed;
      if k > 0 && After(c, k - 1).Some? {
        AfterForward(c, k - 1);
        FlushedFacts(After(c, k - 1).value);
      }
    }

    lemma {:induction false} AfterEnd(c: Control, i: nat, k: nat)
      requires i <= k && After(c, i).None?
      ensures After(c, k).None?
      decreases k
    {
      if i < k {
        AfterEnd(c, i, k - 1);
      }
    }

    /** The close loop ends if and only if some pass writes a whole record, empties it, overruns or fails. */
    lemma {:induction false} CloseEndsIff(c: Control)
      ensures CloseEnds(c) <==> exists k: nat, p :: LastPass(c, k, p)
    {
      hide Flushed;
      if CloseEnds(c) {
        var k: nat :| After(c, k).None?;
        FirstEnd(c, k);
      }
      if k: nat, p :| LastPass(c, k, p) {
        assert After(c, k + 1).None?;
      }
    }

    lemma {:induction false} FirstEnd(c: Control, k: nat)
      requires After(c, k).None?
      ensures exists i: nat, p :: LastPass(c, i, p)
    {
      hide Flushed;
      if After(c, k - 1).None? {
        FirstEnd(c, k - 1);
      } else {
        assert LastPass(c, k - 1, Flushed(After(c, k - 1).value));
      }
    }

    /** There is only one way to end. */
    lemma GivesOnce(c: Control, p: Pass, q: Pass)
      requires CloseGives(c, p) && CloseGives(c, q)
      ensures p == q
    {
      hide Flushed;
      var i: nat :| LastPass(c, i, p);
      var j: nat :| LastPass(c, j, q);
      if i < j {
        AfterEnd(c, i + 1, j);
      } else if j < i {
        AfterEnd(c, j + 1, i);
      }
    }

    /** Closing overruns if and only if the medium once takes more than the used part of a record. */
    lemma OverrunIff(c: Control, p: Pass)
      requires CloseGives(c, p)
      ensures p.outcome == Overrun <==> Overruns(c)
    {
      hide Flushed, WriteSize;
      var k: nat :| LastPass(c, k, p);
      FlushedFacts(After(c, k).value);
      if p.outcome == Overrun {
        assert OverrunsAt(c, k);
      }
      if i: nat :| OverrunsAt(c, i) {
        var q := Flushed(After(c, i).value);
        FlushedFacts(After(c, i).value);
        assert LastPass(c, i, q);
        GivesOnce(c, p, q);
      }
    }

    // ----- the headers of a new volume

    /** find_next_block while the headers of a new volume are written: a full record must go out. */
    method FindNextForHeader(ghost rest: seq<Slot<B>>) returns (outcome: Outcome)
      requires Buffers() && HeaderPhase(Abstract(rest), tracked)
      modifies this`volume, this`writes, this`tracked, this`cur
      ensures Came(Found(old(Now()), false), outcome)
      ensures outcome == Ok ==> Buffers() && HeaderPhase(Abstract(rest), tracked) && cur < blockingFactor
      ensures outcome == Ok ==> volume + record[..cur] == old(volume + record[..cur])
    {
      hide Invariant, HeaderPhase;
      outcome := Ok;
      if cur == blockingFactor {
        HeaderWrite(Abstract(rest), tracked);
        WholeRecord(record[..], cur);
        cur := 0;
        var status := FlushWrite(true);
        EmptyPrefix(record[..]);
        if status != blockingFactor {
          return WriteError;
        }
      }
    }

    method PutHeader(slot: Slot<B>, ghost rest: seq<Slot<B>>) returns (outcome: Outcome)
      requires Buffers() && HeaderPhase(Abstract(rest), tracked)
      requires |volume + record[..cur]| == (if slot.Label? then 0 else LabelCount(labelled)) && (slot.Label? ==> labelled)
      requires slot.Label? || (tracked.Some? && slot == Continued(tracked.value.id, tracked.value.sizeleft,
                                                                   tracked.value.sizetotal - tracked.value.sizeleft))
      modifies this`volume, this`writes, this`tracked, this`cur, record
      ensures Came(WithHeader(Pass(Ok, old(Now()))), outcome)
      ensures outcome == Ok ==> Buffers() && HeaderPhase(Abstract(rest), tracked)
      ensures outcome == Ok ==> volume + record[..cur] == old(volume + record[..cur]) + [slot]
    {
      hide Invariant, HeaderPhase;
      outcome := FindNextForHeader(rest);
      if outcome == Ok {
        AddHeader(Abstract(rest), tracked, slot);
        ghost var before := record[..cur];
        record[cur] := slot;
        cur := cur + 1;
        assert record[..cur] == before + [slot];
      }
    }

    // ----- copying what the old volume did not take

    /** Every volume so far is good, and the tracked member's data has begun before this record, with rest
        still to be copied. */
    ghost predicate Steady(rest: seq<Slot<B>>)
      requires Buffers()
      reads this, record
    {
      clean && Reached(tracked, members, cur + |rest|, |filled|, Lead(Abstract(rest)))
    }

    /** find_next_block while kept slots are copied: a full record must go out, and is counted. */
    method FindNextForCopy(ghost rest: seq<Slot<B>>) returns (outcome: Outcome)
      requires Buffers() && Invariant(Abstract(rest), tracked, cur + |rest|)
      modifies this`volume, this`writes, this`tracked, this`cur, this`clean
      ensures old(tracked).None? ==> tracked.None?
      ensures Came(Found(old(Now()), true), outcome)
      ensures outcome == Ok ==> Buffers() && Invariant(Abstract(rest), tracked, cur + |rest|) && cur < blockingFactor
      ensures outcome == Ok && old(Steady(rest)) ==> Steady(rest)
    {
      hide Invariant, Steady;
      outcome := Ok;
      if cur == blockingFactor {
        var status := SendRecord(rest);
        if status != blockingFactor {
          return WriteError;
        }
      }
    }

    /** A full record goes out, with rest still to be copied. */
    method SendRecord(ghost rest: seq<Slot<B>>) returns (status: nat)
      requires Buffers() && cur == blockingFactor && Invariant(Abstract(rest), tracked, cur + |rest|)
      modifies this`volume, this`writes, this`tracked, this`cur, this`clean
      ensures old(tracked).None? ==> tracked.None?
      ensures status == WriteSize(old(writes)) && Now() == Control(0, old(writes) + 1, UpdateMap(old(tracked), status))
      ensures status == blockingFactor ==> Buffers() && Invariant(Abstract(rest), tracked, |rest|)
      ensures status == blockingFactor && old(Steady(rest)) ==> Steady(rest)
    {
      hide Invariant, Reached, Lead, UpdateMap, WriteSize;
      ghost var s := Abstract(rest);
      ghost var ok := clean && Reached(tracked, members, cur + |rest|, |filled|, cur);
      Sent(s, tracked, ok);
      WholeRecord(record[..], cur);
      cur := 0;
      status := FlushWrite(false);
      EmptyPrefix(record[..]);
      clean := ok;
      assert status == blockingFactor ==> Abstract(rest) == s.(volume := s.volume + s.used, used := [], clean := ok);
    }

    /** Copy kept slots source[from..to] behind the used part of the record. */
    method CopyIn(source: array<Slot<B>>, from: nat, n: nat, ghost rest: seq<Slot<B>>)
      requires Buffers() && source != record && from + n <= source.Length && cur + n <= blockingFactor
      requires n <= |rest| && source[from..from + n] == rest[..n]
      requires Invariant(Abstract(rest), tracked, cur + |rest|)
      modifies this`cur, record
      ensures Buffers() && cur == old(cur) + n
      ensures Invariant(Abstract(rest[n..]), tracked, cur + |rest[n..]|)
      ensures old(Steady(rest)) ==> Steady(rest[n..])
    {
      hide Invariant, Lead;
      CopySlots(Abstract(rest), tracked, n);
      ghost var before := record[..cur];
      var chunk := source[from..from + n];
      forall k | 0 <= k < n {
        record[cur + k] := chunk[k];
      }
      cur := cur + n;
      assert record[..cur] == before + chunk;
    }

    /** Fill the record with kept slots and send it out. */
    method CopyRecord(source: array<Slot<B>>, from: nat, level: nat) returns (outcome: Outcome)
      requires Buffers() && source == spare && cur < blockingFactor && blockingFactor - cur < level - from && level <= source.Length
      requires Invariant(Abstract(source[from..level]), tracked, cur + (level - from))
      modifies this`volume, this`writes, this`tracked, this`cur, this`clean, record
      ensures old(tracked).None? ==> tracked.None?
      ensures Came(Found(old(Now()).(cur := blockingFactor), true), outcome)
      ensures outcome == Ok ==> cur == 0 && Buffers() && var rest := source[from + (blockingFactor - old(cur))..level];
                                Invariant(Abstract(rest), tracked, |rest|) && (old(Steady(source[from..level])) ==> Steady(rest))
    {
      hide Invariant, Steady;
      var n := blockingFactor - cur;
      SliceStep(source[..], from, n, level);
      CopyIn(source, from, n, source[from..level]);
      outcome := FindNextForCopy(source[from + n..level]);
    }

    /** Put the last kept slots into the record and zero what is behind them. */
    method CopyTail(source: array<Slot<B>>, from: nat, level: nat) returns (outcome: Outcome)
      requires Buffers() && source == spare && from <= level <= source.Length && level - from <= blockingFactor - cur
      requires Invariant(Abstract(source[from..level]), tracked, cur + (level - from))
      modifies this`volume, this`writes, this`tracked, this`cur, this`clean, record
      ensures old(tracked).None? ==> tracked.None?
      ensures Came(Found(old(Now()).(cur := old(cur) + (level - from)), true), outcome)
      ensures outcome == Ok ==> Valid() && cur < blockingFactor && (cur > 0 ==> ZeroBeyond())
      ensures outcome == Ok && old(Steady(source[from..level])) ==> Steady([])
    {
      hide Invariant, Steady;
      SliceStep(source[..], from, level - from, level);
      CopyIn(source, from, level - from, source[from..level]);
      assert source[level..level] == [];
      ZeroFill();
      outcome := FindNextForCopy([]);
    }

    /** Zero the record behind its used part. */
    method ZeroFill()
      requires Valid()
      modifies record
      ensures Valid() && ZeroBeyond() && record[..cur] == old(record[..cur])
      ensures old(Steady([])) ==> Steady([])
      ensures old(Sound()) ==> Sound()
    {
      hide Invariant, Lead, Reached;
      ghost var used := record[..cur];
      forall k | cur <= k < blockingFactor {
        record[k] := Zero;
      }
      assert record[..cur] == used;
    }

    /** The part of _gnu_flush_write that follows the volume headers: copy what the old volume did not
        take, and zero the rest of the last record.  At most one record goes out. */
    method CopyRest(source: array<Slot<B>>, status: nat, level: nat) returns (outcome: Outcome)
      requires Buffers() && source == spare && status <= level <= source.Length && cur < blockingFactor
      requires Invariant(Abstract(source[status..level]), tracked, cur + (level - status))
      modifies this`volume, this`writes, this`tracked, this`cur, this`clean, record
      ensures old(tracked).None? ==> tracked.None?
      ensures Came(WithRest(old(Now()), level - status), outcome)
      ensures outcome == Ok ==> Valid() && cur < blockingFactor && (cur > 0 ==> ZeroBeyond())
      ensures outcome == Ok && old(Steady(source[status..level])) ==> Steady([])
    {
      hide Invariant, Steady;
      var from := status;
      while blockingFactor - cur < level - from
        invariant Buffers() && cur < blockingFactor && status <= from <= level
        invariant old(tracked).None? ==> tracked.None?
        invariant Invariant(Abstract(source[from..level]), tracked, cur + (level - from))
        invariant old(Steady(source[status..level])) ==> Steady(source[from..level])
        invariant if from == status then Now() == old(Now())
                  else Pass(Ok, Now()) == Found(old(Now()).(cur := blockingFactor), true) && from == status + (blockingFactor - old(cur))
        decreases level - from
      {
        var n := blockingFactor - cur;
        outcome := CopyRecord(source, from, level);
        from := from + n;
        if outcome != Ok {
          return;
        }
      }
      outcome := CopyTail(source, from, level);
    }

    /** Everything in the record beyond the used part is zero fill. */
    ghost predicate ZeroBeyond()
      reads this, record
    {
      forall k :: cur <= k < record.Length ==> record[k].Zero?
    }

    /** Label and continuation header of a new volume. */
    method PutHeaders(ghost rest: seq<Slot<B>>) returns (outcome: Outcome)
      requires Buffers() && cur == 0 && volume == [] && HeaderPhase(Abstract(rest), tracked)
      modifies this`volume, this`writes, this`tracked, this`cur, record
      ensures Came(WithHeaders(old(Now())), outcome) && tracked == old(tracked)
      ensures outcome == Ok ==> Buffers() && cur < blockingFactor && HeaderPhase(Abstract(rest), tracked)
      ensures outcome == Ok ==> HeadersDone(Abstract(rest), tracked)
    {
      hide HeaderPhase;
      EmptyPrefix(record[..]);
      if labelled {
        outcome := PutHeader(Label, rest);
        if outcome != Ok { return; }
      }
      if tracked.Some? {
        outcome := PutHeader(Continued(tracked.value.id, tracked.value.sizeleft,
                                       tracked.value.sizetotal - tracked.value.sizeleft), rest);
        if outcome != Ok { return; }
      }
      outcome := FindNextForHeader(rest);
    }

    /** The new volume: label, continuation header, reset of the map, and the copied slots. */
    method SwitchVolume(status: nat, level: nat) returns (outcome: Outcome)
      requires Buffers() && cur == 0 && volume == [] && status <= level <= spare.Length
      requires HeaderPhase(Abstract(spare[status..level]), tracked)
      modifies this`volume, this`writes, this`tracked, this`cur, this`clean, record
      ensures old(tracked).None? ==> tracked.None?
      ensures Came(NextVolume(old(Now()), level - status), outcome)
      ensures outcome == Ok ==> Valid() && cur < blockingFactor && (cur > 0 ==> ZeroBeyond())
      ensures outcome == Ok && old(clean && Reached(tracked, members, level - status, |filled|, 0)) ==> Steady([])
    {
      hide Invariant, HeaderPhase, Reached, HeadersDone, Steady;
      ghost var rest := spare[status..level];
      outcome := PutHeaders(rest);
      if outcome != Ok { return; }
      BufmapReset(rest);
      outcome := CopyRest(spare, status, level);
    }

    /** bufmap_reset: start moves behind the headers. */
    method BufmapReset(ghost rest: seq<Slot<B>>)
      requires Buffers() && HeaderPhase(Abstract(rest), tracked) && HeadersDone(Abstract(rest), tracked)
      modifies this`tracked
      ensures Buffers() && Invariant(Abstract(rest), tracked, cur + |rest|) && tracked.None? == old(tracked).None?
      ensures tracked == MovedBy(old(tracked), cur)
      ensures old(clean && Reached(tracked, members, |rest|, |filled|, 0)) ==> Steady(rest)
    {
      hide Invariant, HeaderPhase, Reached, HeadersDone, Lead;
      ResetMap(Abstract(rest), tracked);
      SteadyReset(tracked, members, |rest|, |filled|, cur);
      tracked := MovedBy(tracked, cur);
    }

    // ----- flushing

    /** The record has been written whole. */
    method RecordOut(ghost s: State<B>, ghost t: Option<BufMap>)
      requires Buffers() && s == Abstract([]).(volume := s.volume) && volume == s.volume + record[..blockingFactor]
      requires Invariant(s, t, cur) && tracked == UpdateMap(t, blockingFactor) && (cur == blockingFactor || ZeroBeyond())
      modifies this`cur, this`clean
      ensures Buffers() && cur == 0 && Payloads(Flat(done) + volume) == filled
      ensures s.clean ==> MediaOk(done + [volume], labelled, members, filled)
      ensures old(cur) == blockingFactor ==> Valid()
      ensures old(cur) == blockingFactor && s.clean && Reached(t, members, old(cur), |filled|, old(cur)) ==> Steady([])
      ensures old(cur) < blockingFactor ==> clean == s.clean
    {
      hide Invariant, Reached, UpdateMap, Payloads, MediaOk, Lead;
      ghost var level := cur;
      cur := 0;
      EmptyPrefix(record[..]);
      WholeRecord(record[..], blockingFactor);
      RecordParts(s, t, record[..]);
      if level == blockingFactor {
        ghost var ok := clean && Reached(t, members, level, |filled|, level);
        FullWrite(s, t, ok);
        clean := ok;
        LeadEmpty(Abstract([]));
      }
    }

    /** The volume is full after status blocks of the record: it is finished, and the buffers change places. */
    method VolumeOut(status: nat, ghost s: State<B>, ghost t: Option<BufMap>)
      requires Buffers() && status <= cur && s == Abstract([]).(volume := s.volume) && status < blockingFactor
      requires volume == s.volume + record[..status] && 0 < writes && WriteSize(writes - 1) == status
      requires Invariant(s, t, cur) && tracked == UpdateMap(t, status)
      modifies this`done, this`volume, this`record, this`spare, this`cur, this`clean
      ensures Buffers() && cur == 0 && volume == [] && record == old(spare) && spare == old(record)
      ensures HeaderPhase(Abstract(spare[status..old(cur)]), tracked)
      ensures s.clean && CleanSwitch(s, t, status) ==> clean && Reached(tracked, members, old(cur) - status, |filled|, 0)
    {
      hide Invariant, HeaderPhase, CleanSwitch, Reached, UpdateMap;
      ghost var level := cur;
      ghost var ok := clean && CleanSwitch(s, t, status);
      ShortWrite(s, t, status, ok);
      assert record[..level][..status] == record[..status];
      assert record[..level][status..] == record[status..level];
      clean := ok;
      done, volume := done + [volume], [];
      record, spare, cur := spare, record, 0;
      EmptyPrefix(record[..]);
    }

    /** _gnu_flush_write with buffer level cur: write the record; if the medium is full, start a new volume
        with its headers and copy over what was not written. */
    method GnuFlushWrite() returns (outcome: Outcome)
      requires Valid() && (cur == blockingFactor || ZeroBeyond())
      modifies this, record, spare
      ensures old(tracked).None? ==> tracked.None?
      ensures {record, spare} == {old(record), old(spare)}
      ensures filled == old(filled) && members == old(members)
      ensures outcome == Overrun <==> old(cur) < WriteSize(old(writes)) < blockingFactor
      ensures outcome == Overrun ==> cur == old(cur) && writes == old(writes) + 1
      ensures Came(Flushed(old(Now())), outcome)
      ensures outcome == Ok ==> Buffers() && cur < blockingFactor
      ensures outcome == Ok && (old(cur) == blockingFactor || WriteSize(old(writes)) < blockingFactor) ==>
                Valid() && (cur > 0 ==> ZeroBeyond())
      ensures outcome == Ok && cur == 0 ==> OnMedia()
      ensures outcome == Ok && old(Sound()) && Roomy(old(writes)) ==>
                clean && (old(cur) == blockingFactor || WriteSize(old(writes)) < blockingFactor ==> Sound())
    {
      hide Invariant, UpdateMap, CleanSwitch, Steady, Sound, OnMedia, Reached, Lead, NextVolume, Roomy;
      ghost var s, t := Abstract([]), tracked;
      SoundFacts();
      var level := cur;
      var status := FlushWrite(false);
      if status == blockingFactor {
        WholeWrite(s, t);
        outcome := Ok;
      } else if level < status {
        outcome := Overrun;
      } else {
        NoOverrun(Control(0, writes, tracked), level - status);
        outcome := NewVolume(status, s, t);
      }
    }

    /** A whole write: the record is empty again. */
    method WholeWrite(ghost s: State<B>, ghost t: Option<BufMap>)
      requires Buffers() && s == Abstract([]).(volume := s.volume) && volume == s.volume + record[..blockingFactor]
      requires Invariant(s, t, cur) && tracked == UpdateMap(t, blockingFactor) && (cur == blockingFactor || ZeroBeyond())
      modifies this`cur, this`clean
      ensures Buffers() && cur == 0 && OnMedia() && (old(cur) == blockingFactor ==> Valid())
      ensures if old(cur) < blockingFactor then clean == s.clean
              else s.clean && Reached(t, members, old(cur), |filled|, old(cur)) ==> clean && Sound()
    {
      hide Invariant, UpdateMap, Reached, Lead, MediaOk, Payloads, Sound, Steady;
      RecordOut(s, t);
      MediaFacts();
    }

    /** A short write: finish the volume, start the next one. */
    method NewVolume(status: nat, ghost s: State<B>, ghost t: Option<BufMap>) returns (outcome: Outcome)
      requires Buffers() && status <= cur && s == Abstract([]).(volume := s.volume) && status < blockingFactor
      requires volume == s.volume + record[..status] && 0 < writes && WriteSize(writes - 1) == status
      requires Invariant(s, t, cur) && tracked == UpdateMap(t, status)
      modifies this`done, this`volume, this`record, this`spare, this`cur, this`clean, this`writes, this`tracked, record, spare
      ensures old(tracked).None? ==> tracked.None?
      ensures record == old(spare) && spare == old(record)
      ensures Came(NextVolume(Control(0, old(writes), old(tracked)), old(cur) - status), outcome)
      ensures outcome == Ok ==> Valid() && cur < blockingFactor && (cur > 0 ==> ZeroBeyond()) && (cur == 0 ==> OnMedia())
      ensures outcome == Ok && s.clean && CleanSwitch(s, t, status) ==> clean && Sound()
    {
      hide Invariant, HeaderPhase, UpdateMap, CleanSwitch, Sound, OnMedia, Reached, Lead;
      var level := cur;
      VolumeOut(status, s, t);
      outcome := SwitchVolume(status, level);
      if outcome == Ok {
        MediaFacts();
      }
    }

    /** The media hold exactly what the caller filled, and if all writes were clean they can be read. */
    ghost predicate OnMedia()
      reads this
    {
      && Payloads(Flat(done) + volume) == filled
      && (clean ==> MediaOk(done + [volume], labelled, members, filled))
    }

    /** What soundness gives for the next write. */
    lemma SoundFacts()
      requires Valid()
      ensures Sound() ==> clean
      ensures Sound() && cur == blockingFactor ==> clean && Reached(tracked, members, cur, |filled|, cur)
      ensures Sound() && Roomy(writes) && WriteSize(writes) <= cur && WriteSize(writes) < blockingFactor ==>
                clean && CleanSwitch(Abstract([]), tracked, WriteSize(writes))
    {
      hide VolumesOk, GoodVolume, Payloads, Flat, Counted, CleanSwitch;
      if clean {
        UsedShape(Abstract([]));
        if Sound() && Roomy(writes) && WriteSize(writes) <= cur && WriteSize(writes) < blockingFactor {
          SwitchIsClean(Abstract([]), tracked, WriteSize(writes));
        }
      }
    }

    lemma MediaFacts()
      requires Buffers()
      ensures Steady([]) ==> clean && Sound()
      ensures Valid() && cur == 0 ==> OnMedia()
      ensures Payloads(Flat(done) + volume) == filled && (clean ==> MediaOk(done + [volume], labelled, members, filled)) ==> OnMedia()
    {
      hide Payloads, Flat, MediaOk, Invariant;
      if Valid() && cur == 0 {
        EmptyPrefix(record[..]);
        RecordParts(Abstract([]), tracked, []);
        assert volume + [] == volume;
      }
    }

    /** find_next_block: there is room for a block, on this volume or a new one. */
    method FindNextBlock() returns (outcome: Outcome)
      requires Valid()
      modifies this, record, spare
      ensures old(tracked).None? ==> tracked.None?
      ensures {record, spare} == {old(record), old(spare)}
      ensures filled == old(filled) && members == old(members)
      ensures outcome == Ok || outcome == WriteError
      ensures outcome == Ok ==> Valid() && cur < blockingFactor
      ensures Came(if old(cur) < blockingFactor then Pass(Ok, old(Now())) else Flushed(old(Now())), outcome)
      ensures Roomy(old(writes)) ==> outcome == Ok
      ensures old(Sound()) && Roomy(old(writes)) ==> Sound()
    {
      hide Invariant, UpdateMap, Reached, Lead, OnMedia, Flushed, Roomy, Sound;
      if Roomy(writes) {
        RoomyFlush(Now());
      }
      FlushedFacts(Now());
      outcome := Ok;
      if cur == blockingFactor {
        outcome := GnuFlushWrite();
      }
    }

    /** One block of the caller: find it, fill it, mark it as used. */
    method PutBlock(b: B) returns (outcome: Outcome)
      requires Valid()
      modifies this, record, spare
      ensures old(tracked).None? ==> tracked.None?
      ensures {record, spare} == {old(record), old(spare)}
      ensures outcome == Ok || outcome == WriteError
      ensures outcome == Ok ==> Valid() && filled == old(filled) + [b] && members == old(members) && Before(done) < |filled|
      ensures outcome == Ok ==> cur > 0
      ensures Came(Put(old(Now())), outcome) && (Roomy(old(writes)) ==> outcome == Ok)
      ensures old(Sound()) && Roomy(old(writes)) ==> Sound()
    {
      hide Invariant, Sound, Before, Flushed, Roomy;
      outcome := FindNextBlock();
      if outcome == Ok {
        FillRoom(b);
      }
    }

    /** Fill the current block. */
    method FillRoom(b: B)
      requires Valid() && cur < blockingFactor
      modifies this`cur, this`filled, record
      ensures Valid() && cur == old(cur) + 1 && filled == old(filled) + [b] && Before(done) < |filled|
      ensures old(Sound()) ==> Sound()
    {
      hide Invariant, Lead;
      FillBlock(Abstract([]), tracked, b);
      ghost var before := record[..cur];
      record[cur] := Payload(b);
      cur := cur + 1;
      filled := filled + [b];
      assert record[..cur] == before + [Payload(b)];
      InvariantConserved(Abstract([]), tracked, cur);
      FilledSince(Abstract([]), b);
    }

    /** mv_begin_write, after the member's header block was filled, when no other member is being tracked. */
    method BeginMember(total: nat)
      requires Valid() && tracked.None? && (done == [] || Before(done) < |filled|)
      modifies this`tracked, this`members, this`begun
      ensures Valid() && members == old(members) + [MemberInfo(|filled|, total)]
      ensures Now() == old(Start(total))
      ensures clean && cur <= WriteSize(writes) ==> Sound()
    {
      hide Invariant, Before;
      BeginTracking(Abstract([]), total);
      tracked := Some(BufMap(begun, cur, total, total));
      begun := begun + 1;
      members := members + [MemberInfo(|filled|, total)];
    }

    lemma PutForward(c: Control)
      ensures c.writes <= Put(c).next.writes
    {
      hide Flushed;
      FlushedFacts(c);
    }

    method PutBlocks(bs: seq<B>) returns (outcome: Outcome)
      requires Valid()
      modifies this, record, spare
      ensures old(tracked).None? ==> tracked.None?
      ensures {record, spare} == {old(record), old(spare)}
      ensures outcome == Ok || outcome == WriteError
      ensures outcome == Ok ==> Valid() && filled == old(filled) + bs && members == old(members)
      ensures Came(Puts(old(Now()), |bs|), outcome) && old(writes) <= writes
      ensures outcome == Ok && old(Sound()) && Medium(old(writes)) ==> Sound()
    {
      hide Invariant, Sound, Roomy, Put;
      outcome := Ok;
      for i := 0 to |bs|
        invariant {record, spare} == {old(record), old(spare)}
        invariant old(tracked).None? ==> tracked.None?
        invariant Valid() && filled == old(filled) + bs[..i] && members == old(members) && outcome == Ok
        invariant old(writes) <= writes && Pass(Ok, Now()) == Puts(old(Now()), i)
        invariant old(Sound()) && Medium(old(writes)) ==> Sound()
      {
        PutForward(Now());
        outcome := PutBlock(bs[i]);
        if outcome != Ok {
          PutsAdd(old(Now()), i + 1, |bs| - (i + 1));
          return;
        }
        assert bs[..i + 1] == bs[..i] + [bs[i]];
      }
      assert bs[..|bs|] == bs;
    }

    /** write_eot: two blocks of the caller's kind, and zero fill to the end of the record. */
    method WriteEot(zero: B) returns (outcome: Outcome)
      requires Valid()
      modifies this, record, spare
      ensures old(tracked).None? ==> tracked.None?
      ensures {record, spare} == {old(record), old(spare)}
      ensures outcome == Ok || outcome == WriteError
      ensures outcome == Ok ==> Valid() && ZeroBeyond() && cur > 0
      ensures outcome == Ok ==> filled == old(filled) + [zero, zero] && members == old(members)
      ensures Came(Puts(old(Now()), 2), outcome) && old(writes) <= writes
      ensures outcome == Ok && old(Sound()) && Medium(old(writes)) ==> Sound()
    {
      hide Invariant, Sound, Roomy, Before, Put;
      PutForward(Now());
      assert Puts(Now(), 1) == Put(Now());
      if Put(Now()).outcome == Ok {
        PutForward(Put(Now()).next);
      }
      outcome := PutBlock(zero);
      if outcome != Ok { return; }
      outcome := PutBlock(zero);
      if outcome != Ok { return; }
      ZeroFill();
    }

    /** The flush loop of close_archive, on every medium on which it ends.  Unless a short write passes the
        used part of the record or a write fails, the media then hold exactly the blocks that the caller
        filled. */
    method Close() returns (outcome: Outcome)
      requires Valid() && ZeroBeyond() && CloseEnds(Now())
      modifies this, record, spare
      ensures CloseGives(old(Now()), Pass(outcome, Now()))
      ensures outcome == Overrun <==> Overruns(old(Now()))
      ensures outcome == Overrun ==> old(writes) < writes && cur < WriteSize(writes - 1) < blockingFactor
      ensures filled == old(filled) && members == old(members)
      ensures outcome == Ok ==> cur == 0 && OnMedia() && (old(Sound()) && Medium(old(writes)) ==> clean)
    {
      hide Invariant, Sound, OnMedia, Flushed, Roomy, WriteSize;
      ghost var c := Now();
      ghost var end: nat :| After(c, end).None?;
      ghost var k := 0;
      while true
        invariant {record, spare} == {old(record), old(spare)}
        invariant After(c, k) == Some(Now()) && k <= end
        invariant Valid() && ZeroBeyond() && filled == old(filled) && members == old(members)
        invariant old(Sound()) && Medium(old(writes)) ==> Sound()
        decreases end - k
      {
        AfterForward(c, k);
        FlushedFacts(Now());
        outcome := GnuFlushWrite();
        if outcome != Ok || cur == 0 {
          assert LastPass(c, k, Pass(outcome, Now()));
          OverrunIff(c, Pass(outcome, Now()));
          return;
        }
        k := k + 1;
      }
    }

    /** On every other medium the loop goes on for ever: after any number of passes something is left. */
    method CloseForever(passes: nat) returns (outcome: Outcome)
      requires Valid() && ZeroBeyond() && !CloseEnds(Now())
      modifies this, record, spare
      ensures outcome == Ok && Valid() && ZeroBeyond() && (0 < passes ==> 0 < cur)
      ensures After(old(Now()), passes) == Some(Now())
    {
      hide Invariant, OnMedia, Sound, Flushed;
      ghost var c := Now();
      outcome := Ok;
      for i := 0 to passes
        invariant {record, spare} == {old(record), old(spare)}
        invariant outcome == Ok && Valid() && ZeroBeyond() && (0 < i ==> 0 < cur) && After(c, i) == Some(Now())
      {
        assert After(c, i + 1).Some?;
        FlushedFacts(Now());
        outcome := GnuFlushWrite();
      }
    }

    /** The medium takes exactly the headers of every volume, and the tracked member, if any, is counted
        from behind them. */
    ghost predicate Stuck(c: Control) {
      && HeaderMax() < blockingFactor && HeaderCount(c.tracked) <= c.cur < blockingFactor && 0 < c.cur
      && (c.tracked.Some? ==> c.tracked.value.start == HeaderCount(c.tracked) && 0 < c.tracked.value.sizeleft)
      && forall n :: c.writes <= n ==> WriteSize(n) == HeaderCount(c.tracked)
    }

    /** Headers that fit into a record. */
    lemma HeadersFit(c: Control)
      requires c.cur == 0 && HeaderMax() < blockingFactor
      ensures WithHeaders(c) == Pass(Ok, c.(cur := HeaderCount(c.tracked)))
    {
    }

    lemma StuckFlush(c: Control)
      requires Stuck(c)
      ensures Flushed(c) == Pass(Ok, c.(writes := c.writes + 1))
    {
      hide WithHeaders, UpdateMap;
      StuckUpdate(c.tracked, HeaderCount(c.tracked));
      HeadersFit(Control(0, c.writes + 1, UpdateMap(c.tracked, HeaderCount(c.tracked))));
    }

    /** Then there is always as much left to write as before. */
    lemma {:induction false} StuckForever(c: Control, k: nat)
      requires Stuck(c)
      ensures After(c, k) == Some(c.(writes := c.writes + k))
    {
      hide Flushed;
      if k > 0 {
        StuckForever(c, k - 1);
        StuckFlush(c.(writes := c.writes + k - 1));
      }
    }

    // ----- media on which a run ends

    /** Such a write does not fail, and if something is left it is less than before or the next one is whole. */
    lemma RoomyFlush(c: Control)
      requires 0 < blockingFactor && c.cur <= blockingFactor && Roomy(c.writes)
      ensures var p := Flushed(c);
              && p.outcome != WriteError && (c.cur == blockingFactor ==> p.outcome == Ok)
              && (p.outcome == Ok ==> p.next.cur < blockingFactor)
              && (GoesOn(p) ==> WriteSize(c.writes) < blockingFactor)
              && (GoesOn(p) && p.next.cur >= c.cur ==> WriteSize(p.next.writes) == blockingFactor)
    {
      hide WithHeaders, UpdateMap;
      var t := UpdateMap(c.tracked, WriteSize(c.writes));
      if WriteSize(c.writes) < blockingFactor {
        HeadersFit(Control(0, c.writes + 1, t));
      }
    }

    /** On a medium where every volume takes more than its headers, closing ends and no write fails. */
    lemma {:induction false} MediumCloses(c: Control)
      requires 0 < blockingFactor && c.cur <= blockingFactor && Medium(c.writes)
      ensures exists k: nat, p :: LastPass(c, k, p) && p.outcome != WriteError
      decreases if WriteSize(c.writes) == blockingFactor then 0 else 1, c.cur
    {
      hide Flushed, Roomy;
      var p := Flushed(c);
      assert Roomy(c.writes);
      RoomyFlush(c);
      if GoesOn(p) {
        FlushedFacts(c);
        MediumCloses(p.next);
        var k: nat, q :| LastPass(p.next, k, q) && q.outcome != WriteError;
        AfterShift(c, k);
        assert LastPass(c, k + 1, q);
      } else {
        assert LastPass(c, 0, p);
      }
    }

    lemma {:induction false} AfterShift(c: Control, k: nat)
      requires GoesOn(Flushed(c))
      ensures After(c, k + 1) == After(Flushed(c).next, k)
    {
      hide Flushed;
      if k > 0 {
        AfterShift(c, k - 1);
      } else {
        assert After(c, 0) == Some(c);
      }
    }

    lemma {:induction false} PutsRoomy(c: Control, n: nat)
      requires 0 < blockingFactor && c.cur <= blockingFactor && Medium(c.writes)
      ensures var p := Puts(c, n);
              p.outcome == Ok && p.next.cur <= blockingFactor && c.writes <= p.next.writes
    {
      hide Flushed, Roomy;
      if n > 0 {
        PutsRoomy(c, n - 1);
        var d := Puts(c, n - 1).next;
        assert Roomy(d.writes);
        RoomyFlush(d);
        FlushedFacts(d);
      }
    }

    /** Each write takes at most a record: this many writes were made when n blocks have been put. */
    lemma {:induction false} PutsWrites(c: Control, n: nat)
      requires 0 < blockingFactor && c.cur <= blockingFactor && Medium(c.writes)
      ensures var p := Puts(c, n);
              c.writes <= p.next.writes && c.cur + n <= p.next.cur + Product(p.next.writes - c.writes, blockingFactor)
    {
      hide Flushed, Roomy, Product;
      PutsRoomy(c, n);
      if n == 0 {
        NoProduct(blockingFactor);
      } else {
        PutsWrites(c, n - 1);
        PutsRoomy(c, n - 1);
        var d := Puts(c, n - 1).next;
        if d.cur == blockingFactor {
          FlushedFacts(d);
          assert Roomy(d.writes);
          RoomyFlush(d);
          MoreProduct(d.writes + 1 - c.writes, Put(d).next.writes - c.writes, blockingFactor);
        }
      }
    }

    /** The first write that closing makes, if n blocks are put before, is this one or a later one. */
    function FirstClosing(c: Control, n: nat): nat
      requires 0 < blockingFactor
    {
      c.writes + (if c.cur + n == 0 then 0 else (c.cur + n - 1) / blockingFactor)
    }

    ghost predicate WholeFrom(from: nat) {
      forall n :: from <= n ==> WriteSize(n) == blockingFactor
    }

    ghost predicate NothingOrWhole(from: nat) {
      forall n :: from <= n ==> WriteSize(n) == 0 || WriteSize(n) == blockingFactor
    }

    /** On such a medium a run ends and no write fails.  It does not overrun if the medium is good from the
        first write on that closing can make, whatever was cut before. */
    lemma MediumRuns(c: Control, n: nat)
      requires 0 < blockingFactor && c.cur <= blockingFactor && Medium(c.writes)
      ensures RunEnds(c, n) && Puts(c, n).outcome == Ok
      ensures forall p :: RunGives(c, n, p) ==> p.outcome != WriteError
      ensures WholeFrom(FirstClosing(c, n)) || NothingOrWhole(FirstClosing(c, n)) ==> !RunOverruns(c, n)
    {
      hide Flushed, Roomy, Puts, After, WriteSize, FirstClosing;
      PutsRoomy(c, n);
      var d := Puts(c, n).next;
      MediumCloses(d);
      CloseEndsIff(d);
      var k: nat, q :| LastPass(d, k, q) && q.outcome != WriteError;
      forall p | RunGives(c, n, p) ensures p.outcome != WriteError {
        GivesOnce(d, p, q);
      }
      if WholeFrom(FirstClosing(c, n)) || NothingOrWhole(FirstClosing(c, n)) {
        ClosingLate(c, n);
        forall i: nat ensures !OverrunsAt(d, i) {
          AfterForward(d, i);
        }
      }
    }

    lemma ClosingLate(c: Control, n: nat)
      requires 0 < blockingFactor && c.cur <= blockingFactor && Medium(c.writes)
      ensures FirstClosing(c, n) <= Puts(c, n).next.writes
    {
      hide Puts, Roomy;
      PutsRoomy(c, n);
      PutsWrites(c, n);
      if c.cur + n > 0 {
        QuotientBound(c.cur + n - 1, Puts(c, n).next.writes - c.writes, blockingFactor);
      }
    }

    lemma {:induction false} PutsAdd(c: Control, m: nat, n: nat)
      ensures Puts(c, m + n) == if Puts(c, m).outcome == Ok then Puts(Puts(c, m).next, n) else Puts(c, m)
    {
      hide Put;
      if n > 0 {
        PutsAdd(c, m, n - 1);
      }
    }

    lemma PutsInParts(c: Control, m: nat, n: nat)
      ensures var p, all := Puts(c, m), Puts(c, m + n + 2);
              if p.outcome != Ok then all == p
              else var q := Puts(p.next, n); if q.outcome != Ok then all == q else all == Puts(q.next, 2)
    {
      hide Puts;
      PutsAdd(c, m, n);
      PutsAdd(c, m + n, 2);
    }

    /** The state from which a member of the given size is dumped. */
    ghost function Start(total: nat): Control
      reads this`cur, this`writes, this`begun
    {
      Control(cur, writes, Some(BufMap(begun, cur, total, total)))
    }

    /** A run with one tracked member whose header block has just been filled, on every medium on which it
        ends.  It comes to what the medium, the used part of the record and the number of blocks decide.  If
        every volume takes more than its headers it ends and no write fails, and it overruns only in the
        closing of the archive: not if all writes are whole from the first one on that closing can make,
        whatever was cut before.  Then all blocks are on the volumes in order, and if moreover the next
        write reaches the first data block, every volume can be read. */
    method DumpMember(total: nat, data: seq<B>, after: seq<B>, zero: B) returns (outcome: Outcome)
      requires Valid() && tracked.None? && (done == [] || Before(done) < |filled|)
      requires RunEnds(Start(total), |data| + |after| + 2)
      modifies this, record, spare
      ensures RunGives(old(Start(total)), |data| + |after| + 2, Pass(outcome, Now()))
      ensures outcome == Overrun <==> RunOverruns(old(Start(total)), |data| + |after| + 2)
      ensures outcome == Overrun ==> old(writes) < writes && cur < WriteSize(writes - 1) < blockingFactor
      ensures Medium(old(writes)) ==> outcome != WriteError
      ensures Medium(old(writes)) && WholeFrom(FirstClosing(old(Start(total)), |data| + |after| + 2)) ==> outcome == Ok
      ensures Medium(old(writes)) && NothingOrWhole(FirstClosing(old(Start(total)), |data| + |after| + 2)) ==> outcome == Ok
      ensures outcome != WriteError ==> filled == old(filled) + data + after + [zero, zero]
      ensures outcome != WriteError ==> members == old(members) + [MemberInfo(|old(filled)|, total)]
      ensures outcome == Ok ==> Payloads(Flat(done) + volume) == filled
      ensures outcome == Ok && Medium(old(writes)) && old(clean && cur <= WriteSize(writes)) ==>
                MediaOk(done + [volume], labelled, members, filled)
    {
      hide Invariant, Sound, Payloads, MediaOk, Roomy, Puts, CloseGives, CloseEnds, Overruns, FirstClosing, WholeFrom, NothingOrWhole,
           Flat, Before, WriteSize;
      if Medium(writes) {
        MediumRuns(Start(total), |data| + |after| + 2);
      }
      outcome := PutMember(total, data, after, zero);
      if outcome == Ok {
        outcome := Close();
      }
    }

    /** The blocks of such a run. */
    method PutMember(total: nat, data: seq<B>, after: seq<B>, zero: B) returns (outcome: Outcome)
      requires Valid() && tracked.None? && (done == [] || Before(done) < |filled|)
      modifies this, record, spare
      ensures {record, spare} == {old(record), old(spare)}
      ensures Came(Puts(old(Start(total)), |data| + |after| + 2), outcome) && (outcome == Ok || outcome == WriteError)
      ensures outcome == Ok ==> Valid() && ZeroBeyond() && old(writes) <= writes
      ensures outcome == Ok ==> filled == old(filled) + data + after + [zero, zero]
      ensures outcome == Ok ==> members == old(members) + [MemberInfo(|old(filled)|, total)]
      ensures outcome == Ok && Medium(old(writes)) && old(clean && cur <= WriteSize(writes)) ==> Sound()
    {
      hide Invariant, Sound, Roomy, Puts, Before;
      PutsInParts(Start(total), |data|, |after|);
      BeginMember(total);
      outcome := PutBlocks(data);
      if outcome != Ok { return; }
      outcome := PutBlocks(after);
      if outcome != Ok { return; }
      outcome := WriteEot(zero);
    }
  }

  function Product(a: nat, b: nat): nat {
    a * b
  }

  lemma NoProduct(b: nat)
    ensures Product(0, b) == 0
  {
  }

  lemma MoreProduct(a: nat, k: nat, b: nat)
    requires 0 < a <= k
    ensures Product(a - 1, b) + b == Product(a, b) <= Product(k, b)
  {
    assert (k - a) * b >= 0;
    assert k * b == a * b + (k - a) * b;
  }

  lemma QuotientBound(x: nat, k: nat, b: nat)
    requires 0 < b && x < Product(k, b) + b
    ensures x / b <= k
  {
    if k < x / b {
      MoreProduct(k + 1, x / b, b);
    }
  }

  /** A member whose data has begun is reached by every whole record. */
  lemma SteadyWrite<B>(s: State<B>, t: Option<BufMap>, x: int)
    requires Invariant(s, t, x)
    ensures s.clean && Reached(t, s.members, x, |s.filled|, Lead(s)) ==> Reached(t, s.members, x, |s.filled|, |s.used|)
  {
    if s.clean {
      UsedShape(s);
    }
  }

  /** What a whole record that goes out leaves. */
  lemma Sent<B>(s: State<B>, t: Option<BufMap>, ok: bool)
    requires Invariant(s, t, |s.used| + |s.rest|)
    requires ok == (s.clean && Reached(t, s.members, |s.used| + |s.rest|, |s.filled|, |s.used|))
    ensures var s', t' := s.(volume := s.volume + s.used, used := [], clean := ok), UpdateMap(t, |s.used|);
            && Invariant(s', t', |s.rest|)
            && (s.clean && Reached(t, s.members, |s.used| + |s.rest|, |s.filled|, Lead(s)) ==>
                  ok && Reached(t', s.members, |s.rest|, |s.filled|, Lead(s')))
  {
    hide Invariant, Reached, Lead, UpdateMap;
    FullWrite(s, t, ok);
    SteadyWrite(s, t, |s.used| + |s.rest|);
    LeadEmpty(s.(volume := s.volume + s.used, used := [], clean := ok));
  }

  /** Headers in front of the record move the data behind them. */
  lemma SteadyReset(t: Option<BufMap>, members: seq<MemberInfo>, rest: nat, filled: int, n: nat)
    ensures Reached(t, members, rest, filled, 0) ==> Reached(MovedBy(t, n), members, n + rest, filled, n)
  {
  }

  /** A record that goes out whole holds the used slots and zero fill. */
  lemma RecordParts<B>(s: State<B>, t: Option<BufMap>, record: seq<Slot<B>>)
    requires Invariant(s, t, |s.used|) && s.rest == [] && s.used <= record
    requires forall k :: |s.used| <= k < |record| ==> record[k].Zero?
    ensures Payloads(Flat(s.done) + (s.volume + record)) == s.filled
    ensures s.clean ==> MediaOk(s.done + [s.volume + record], s.labelled, s.members, s.filled)
  {
    hide Invariant, Payloads, MediaOk, Flat;
    var zeros := record[|s.used|..];
    assert record == s.used + zeros;
    assert s.volume + record == s.volume + s.used + zeros;
    InvariantConserved(s, t, |s.used|);
    LastPayloads(s, zeros);
    FlatSnoc(s.done, s.volume + record);
    if s.clean {
      MediaDone(s, t, zeros);
    }
  }

  lemma InvariantConserved<B>(s: State<B>, t: Option<BufMap>, x: int)
    requires Invariant(s, t, x)
    ensures Conserved(s) && Ordered(s)
  {
  }

  /** Writing exactly the headers leaves the map as it was. */
  lemma StuckUpdate(t: Option<BufMap>, n: nat)
    requires t.Some? ==> t.value.start == n && 0 < t.value.sizeleft && 0 < n
    ensures UpdateMap(t, n).Some? == t.Some? && MovedBy(UpdateMap(t, n), n) == t
  {
  }

  lemma EmptyState<B>(s: State<B>)
    requires s == State([], [], [], [], [], [], s.labelled, true)
    ensures Invariant(s, None, 0)
  {
  }

  lemma WholeRecord<B>(r: seq<Slot<B>>, n: nat)
    requires n == |r|
    ensures r[..n] == r
  {
  }

  lemma EmptyPrefix<B>(r: seq<Slot<B>>)
    ensures r[..0] == []
  {
  }

  lemma SliceStep<B>(s: seq<Slot<B>>, from: nat, n: nat, to: nat)
    requires from + n <= to <= |s|
    ensures s[from..from + n] == s[from..to][..n]
    ensures s[from..to][n..] == s[from + n..to]
  {
  }

  /** On media that a run with clean writes has left, the reader that has taken all blocks of a member from
      the volumes before v accepts the continuation header on volume v, the last volume included. */
  lemma ContinuationAccepted<B>(volumes: seq<seq<Slot<B>>>, labelled: bool, members: seq<MemberInfo>, filled: seq<B>, v: nat, k: nat)
    requires MediaOk(volumes, labelled, members, filled) && v < |volumes| && k < |volumes[v]| && volumes[v][k].Continued?
    ensures var slot := volumes[v][k];
            && slot.id < |members|
            && var info := members[slot.id];
            && CheckContinuation(info.total, info.total - BytesBefore(Before(volumes[..v]), info), slot.size, slot.offset) == Accept
  {
    hide Payloads, Flat, Before;
    assert VolumeReadable(volumes, v, labelled, members);
    assert Exact(volumes[v][k], Before(volumes[..v]), members);
  }

  /** Not every short write is survived: after write_eot has used two blocks of a record of four, a
      medium that takes three blocks leaves minus one block to copy. */
  method OverrunExample() returns (outcome: Outcome)
    ensures outcome == Overrun
  {
    hide Invariant;
    var w := new VolumeWriter<int>(4, false, n => 3);
    ghost var c := Control(2, 0, None);
    assert w.Puts(w.Now(), 1) == Pass(Ok, Control(1, 0, None));
    outcome := w.WriteEot(0);
    assert w.After(c, 0) == Some(c) && w.After(c, 1).None? && w.OverrunsAt(c, 0);
    outcome := w.Close();
  }

  /** A volume that takes its label only, again and again: one block is never written. */
  method StuckExample(passes: nat) returns (w: VolumeWriter<int>, outcome: Outcome)
    ensures outcome == Ok && w.cur == 2 && w.writes == passes
  {
    hide Invariant;
    w := new VolumeWriter<int>(4, true, n => 1);
    ghost var c := Control(2, 0, None);
    assert w.Puts(w.Now(), 1) == Pass(Ok, Control(1, 0, None));
    outcome := w.WriteEot(0);
    forall k ensures w.After(c, k) == Some(c.(writes := k)) {
      w.StuckForever(c, k);
    }
    outcome := w.CloseForever(passes);
  }
}

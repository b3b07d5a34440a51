/** Directory listings and the rename commands in them: dumpdir_ok and the command reader of
    src/incremen.c. */
module Dumpdir {
  import opened Bytes

  type Name = seq<byte>

  const TEMP_CODE: byte := 88       // X: make a temporary directory
  const FROM_CODE: byte := 82       // R: rename from
  const TO_CODE: byte := 84         // T: rename to

  // ----- the entries of a listing

  /** Two NULs end a listing, or one that is all of it. */
  predicate Terminated(d: seq<byte>) {
    |d| > 0 && d[|d| - 1] == NUL && (|d| == 1 || d[|d| - 2] == NUL)
  }

  /** The code of an entry, and whether there is no name after it. */
  function Code(e: Name): byte {
    if e == [] then NUL else e[0]
  }

  predicate Bare(e: Name) {
    |e| <= 1
  }

  /** The name after the code. */
  function Operand(e: Name): Name {
    if e == [] then [] else e[1..]
  }

  /** The NUL-terminated strings from index p to the first empty one. */
  function Entries(d: seq<byte>, p: nat): (es: seq<Name>)
    requires p <= |d|
    decreases |d| - p
  {
    if p == |d| || d[p] == NUL then []
    else
      var e := NulEnd(d, p);
      [d[p..e]] + if e == |d| then [] else Entries(d, e + 1)
  }

  /** In a terminated listing, strlen at an entry stays inside, and so does the step to the next entry. */
  lemma EntryInside(d: seq<byte>, p: nat)
    requires Terminated(d) && p < |d| && d[p] != NUL
    ensures p < NulEnd(d, p) < |d| - 1
    ensures Entries(d, p) != [] && Entries(d, p)[0] == d[p..NulEnd(d, p)]
    ensures Entries(d, p)[1..] == Entries(d, NulEnd(d, p) + 1)
    ensures d[p] == Code(Entries(d, p)[0]) && (d[p + 1] == NUL <==> Bare(Entries(d, p)[0]))
    ensures Operand(Entries(d, p)[0]) == d[p + 1..NulEnd(d, p)]
  {
    assert d[|d| - 2] == NUL;
    assert d[p..NulEnd(d, p)][1..] == d[p + 1..NulEnd(d, p)];
  }

  lemma NoEntries(d: seq<byte>, p: nat)
    requires p < |d| && d[p] == NUL
    ensures Entries(d, p) == []
  {
  }

  // ----- what is accepted

  /** pending: a T must come next; temp: a temporary directory has been made and not been used up. */
  datatype Scan = Scan(pending: bool, temp: bool) | Rejected

  /** The scan after an entry with the given code and a name that is empty or not. */
  function After(s: Scan, code: byte, empty: bool): Scan {
    if s.Rejected? || (s.pending && code != TO_CODE) then Rejected
    else if code == TEMP_CODE then if s.temp then Rejected else Scan(false, true)
    else if code == FROM_CODE then if empty && !s.temp then Rejected else Scan(true, s.temp && !empty)
    else if code == TO_CODE then if !s.pending || (empty && !s.temp) then Rejected else Scan(false, s.temp)
    else s
  }

  /** Whether the entries may follow. */
  predicate Acceptable(es: seq<Name>, s: Scan)
  {
    if s.Rejected? then false
    else if es == [] then !s.pending
    else Acceptable(es[1..], After(s, Code(es[0]), Bare(es[0])))
  }

  lemma AcceptableStep(es: seq<Name>, s: Scan)
    ensures s.Rejected? ==> !Acceptable(es, s)
    ensures s.Scan? && es == [] ==> (Acceptable(es, s) <==> !s.pending)
    ensures s.Scan? && es != [] ==> (Acceptable(es, s) <==> Acceptable(es[1..], After(s, Code(es[0]), Bare(es[0]))))
  {
  }

  /** The switch of dumpdir_ok. */
  method CheckEntry(code: byte, empty: bool, s: Scan) returns (s': Scan)
    requires s.Scan?
    ensures s' == After(s, code, empty)
  {
    s' := s;
    if s.pending && code != TO_CODE {
      return Rejected;
    }
    if code == TEMP_CODE {
      if s.temp {
        return Rejected;
      }
      s' := s.(temp := true);
    } else if code == FROM_CODE {
      if empty {
        if !s.temp {
          return Rejected;
        }
        s' := s.(temp := false);
      }
      s' := s'.(pending := true);
    } else if code == TO_CODE {
      if !s.pending {
        return Rejected;
      }
      if empty && !s.temp {
        return Rejected;
      }
      s' := s.(pending := false);
    }
  }

  /** One round of dumpdir_ok. */
  method NextEntry(d: seq<byte>, p: nat, s: Scan) returns (p': nat, s': Scan)
    requires Terminated(d) && p < |d| && d[p] != NUL && s.Scan?
    ensures p < p' < |d| && Acceptable(Entries(d, p'), s') == Acceptable(Entries(d, p), s)
  {
    hide Acceptable, Entries, After, NulEnd;
    EntryInside(d, p);
    AcceptableStep(Entries(d, p), s);
    s' := CheckEntry(d[p], d[p + 1] == NUL, s);
    p' := NulEnd(d, p) + 1;
  }

  /** dumpdir_ok: a one-pass scan that never looks outside the listing. */
  method DumpdirOk(d: seq<byte>) returns (ok: bool)
    ensures ok <==> Terminated(d) && Acceptable(Entries(d, 0), Scan(false, false))
  {
    hide Acceptable, Entries;
    if !(|d| > 0 && d[|d| - 1] == NUL && (|d| == 1 || d[|d| - 2] == NUL)) {
      return false;
    }
    var s := Scan(false, false);
    var p := 0;
    while d[p] != NUL
      invariant p < |d| && s.Scan?
      invariant Acceptable(Entries(d, p), s) == Acceptable(Entries(d, 0), Scan(false, false))
      decreases |d| - p
    {
      p, s := NextEntry(d, p, s);
      if s.Rejected? {
        AcceptableStep(Entries(d, p), s);
        return false;
      }
    }
    NoEntries(d, p);
    AcceptableStep(Entries(d, p), s);
    ok := !s.pending;
  }

  // ----- the commands

  /** X, and a pair of R and T; an empty name stands for the temporary directory. */
  datatype Command = MakeTemp(stub: Name) | Rename(from: Name, to: Name)

  function Commands(es: seq<Name>): seq<Command>
  {
    if es == [] then []
    else if Code(es[0]) == TEMP_CODE then [MakeTemp(Operand(es[0]))] + Commands(es[1..])
    else if Code(es[0]) == FROM_CODE && |es| > 1 then [Rename(Operand(es[0]), Operand(es[1]))] + Commands(es[2..])
    else Commands(es[1..])
  }

  /** The temporary directory is used only after it was made, and never on both sides. */
  predicate Safe(cmds: seq<Command>, temp: bool) {
    if cmds == [] then true
    else
      match cmds[0]
      case MakeTemp(_) => Safe(cmds[1..], true)
      case Rename(from, to) =>
        !(from == [] && to == []) && (from == [] || to == [] ==> temp) && Safe(cmds[1..], temp)
  }

  /** Whatever dumpdir_ok accepts can be replayed: a T follows every R, and its commands are safe. */
  lemma {:induction false} AcceptedIsSafe(es: seq<Name>, s: Scan, temp: bool)
    requires Acceptable(es, s) && !s.pending && (s.temp ==> temp)
    ensures Safe(Commands(es), temp)
    ensures forall i :: 0 <= i < |es| && Code(es[i]) == FROM_CODE ==> i + 1 < |es| && Code(es[i + 1]) == TO_CODE
  {
    if es != [] {
      var s' := After(s, Code(es[0]), Bare(es[0]));
      if Code(es[0]) == FROM_CODE {
        assert es[1..] != [] && es[1..][1..] == es[2..];
        AcceptedIsSafe(es[2..], After(s', Code(es[1]), Bare(es[1])), temp);
      } else {
        AcceptedIsSafe(es[1..], s', temp || Code(es[0]) == TEMP_CODE);
      }
    }
  }

  // ----- what is accepted, entry by entry

  function CodeAt(es: seq<Name>, i: nat): byte
    requires i < |es|
  {
    if es[i] == [] then 0 else es[i][0]
  }

  /** Before entry i a temporary directory is there: of the X entries and the R entries without a name, the
      last one is an X. */
  predicate TempAt(es: seq<Name>, i: nat)
    requires i <= |es|
  {
    i > 0 && (CodeAt(es, i - 1) == 88 || (!(CodeAt(es, i - 1) == 82 && |es[i - 1]| <= 1) && TempAt(es, i - 1)))
  }

  /** No X while a temporary directory is there, an R right before every T, a T right after every R, and
      neither of them without a name unless a temporary directory is there. */
  predicate EntryOk(es: seq<Name>, i: nat)
    requires i < |es|
  {
    && (CodeAt(es, i) == 88 ==> !TempAt(es, i))
    && (CodeAt(es, i) == 82 ==> i + 1 < |es| && CodeAt(es, i + 1) == 84)
    && (CodeAt(es, i) == 84 ==> i > 0 && CodeAt(es, i - 1) == 82)
    && ((CodeAt(es, i) == 82 || CodeAt(es, i) == 84) && |es[i]| <= 1 ==> TempAt(es, i))
  }

  lemma {:induction false} AcceptableFrom(es: seq<Name>, i: nat)
    requires i <= |es|
    ensures var pending := i > 0 && CodeAt(es, i - 1) == 82;
            Acceptable(es[i..], Scan(pending, TempAt(es, i)))
            <==> (forall j :: i <= j < |es| ==> EntryOk(es, j)) && (pending ==> i < |es| && CodeAt(es, i) == 84)
    decreases |es| - i
  {
    hide TempAt;
    var s := Scan(i > 0 && CodeAt(es, i - 1) == 82, TempAt(es, i));
    AcceptableStep(es[i..], s);
    if i < |es| {
      assert es[i..][0] == es[i] && es[i..][1..] == es[i + 1..];
      AcceptableFrom(es, i + 1);
      AcceptableHere(es, i, s);
      AcceptableStep(es[i + 1..], After(s, Code(es[i]), Bare(es[i])));
    }
  }

  /** One entry: it is rejected, or the scan goes on with the state that the definition above gives. */
  lemma AcceptableHere(es: seq<Name>, i: nat, s: Scan)
    requires i < |es| && s == Scan(i > 0 && CodeAt(es, i - 1) == 82, TempAt(es, i))
    ensures var s' := After(s, Code(es[i]), Bare(es[i]));
            && (s'.Rejected? ==> !EntryOk(es, i) || (s.pending && CodeAt(es, i) != 84))
            && (s'.Scan? ==> s' == Scan(CodeAt(es, i) == 82, TempAt(es, i + 1)) && (s.pending ==> CodeAt(es, i) == 84)
                             && (EntryOk(es, i) <==> CodeAt(es, i) == 82 ==> i + 1 < |es| && CodeAt(es, i + 1) == 84))
  {
  }

  /** dumpdir_ok accepts a listing if and only if every entry is as it should be. */
  lemma AcceptedIff(es: seq<Name>)
    ensures Acceptable(es, Scan(false, false)) <==> forall i :: 0 <= i < |es| ==> EntryOk(es, i)
  {
    AcceptableFrom(es, 0);
    assert es[0..] == es;
  }
}

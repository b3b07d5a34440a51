/** Listings with rename commands, from append_incremental_renames to purge_directory (src/incremen.c). */
module RenameListing {
  import opened Bytes
  import opened Dumpdir
  import opened RenameReplay
  import opened RenameLaws
  import opened Renames

  // ----- text and entries

  /** Entries as text, each with its NUL. */
  function Flat(es: seq<Name>): seq<byte> {
    if es == [] then [] else es[0] + [NUL] + Flat(es[1..])
  }

  ghost predicate Proper(es: seq<Name>) {
    forall i :: 0 <= i < |es| ==> es[i] != [] && NulFree(es[i])
  }

  /** From index p on, d is the text of the entries and a final NUL. */
  ghost predicate TextAt(d: seq<byte>, p: nat, es: seq<Name>) {
    p <= |d| && d[p..] == Flat(es) + [NUL]
  }

  lemma {:induction false} EntriesOfText(d: seq<byte>, p: nat, es: seq<Name>)
    requires TextAt(d, p, es) && Proper(es)
    ensures Entries(d, p) == es
    decreases |es|
  {
    hide TextAt, NulEnd, NulFree, Entries;
    if es == [] {
      TextEnd(d, p);
      NoEntries(d, p);
    } else {
      TextHead(d, p, es);
      EntriesOfText(d, p + |es[0]| + 1, es[1..]);
      EntriesStep(d, p);
      assert [es[0]] + es[1..] == es;
    }
  }

  lemma TextEnd(d: seq<byte>, p: nat)
    requires TextAt(d, p, [])
    ensures p < |d| && d[p] == NUL
  {
    assert d[p] == d[p..][0];
  }

  lemma EntriesStep(d: seq<byte>, p: nat)
    requires p < |d| && d[p] != NUL && NulEnd(d, p) < |d|
    ensures Entries(d, p) == [d[p..NulEnd(d, p)]] + Entries(d, NulEnd(d, p) + 1)
  {
    hide NulEnd;
  }

  lemma TextHead(d: seq<byte>, p: nat, es: seq<Name>)
    requires TextAt(d, p, es) && es != [] && es[0] != [] && NulFree(es[0])
    ensures p + |es[0]| < |d| && d[p] != NUL && NulEnd(d, p) == p + |es[0]| && d[p..p + |es[0]|] == es[0]
    ensures TextAt(d, p + |es[0]| + 1, es[1..])
  {
    hide NulEnd, Flat;
    var e := p + |es[0]|;
    FlatHead(es);
    TextSplit(d, p, es[0], Flat(es[1..]) + [NUL]);
    forall k | p <= k < e ensures d[k] != NUL {
      assert d[k] == d[p..e][k - p];
    }
    EndAt(d, p, e);
  }

  lemma FlatHead(es: seq<Name>)
    requires es != []
    ensures Flat(es) + [NUL] == es[0] + [NUL] + (Flat(es[1..]) + [NUL])
  {
  }

  lemma TextSplit(d: seq<byte>, p: nat, head: Name, tail: seq<byte>)
    requires p <= |d| && d[p..] == head + [NUL] + tail
    ensures p + |head| < |d| && d[p..p + |head|] == head && d[p + |head|] == NUL && d[p + |head| + 1..] == tail
  {
    var e := p + |head|;
    assert d[p..e] == d[p..][..|head|] == head;
    assert d[e] == d[p..][|head|];
    assert d[e + 1..] == d[p..][|head| + 1..] == tail;
  }

  lemma EndAt(d: seq<byte>, p: nat, e: nat)
    requires p <= e < |d| && d[e] == NUL && forall k :: p <= k < e ==> d[k] != NUL
    ensures NulEnd(d, p) == e
  {
  }

  lemma TextTerminated(es: seq<Name>)
    ensures Terminated(Flat(es) + [NUL])
  {
    LastNul(es);
  }

  lemma {:induction false} LastNul(es: seq<Name>)
    ensures Flat(es) == [] || Flat(es)[|Flat(es)| - 1] == NUL
  {
    if es != [] {
      LastNul(es[1..]);
    }
  }

  lemma {:induction false} FlatAppend(a: seq<Name>, b: seq<Name>)
    ensures Flat(a + b) == Flat(a) + Flat(b)
  {
    if a == [] {
      assert a + b == b;
    } else {
      assert (a + b)[1..] == a[1..] + b;
      FlatAppend(a[1..], b);
    }
  }

  // ----- the entries of commands

  function EntriesOf(cmds: seq<Command>): seq<Name> {
    if cmds == [] then []
    else
      (match cmds[0]
       case MakeTemp(stub) => [[TEMP_CODE] + stub]
       case Rename(from, to) => [[FROM_CODE] + from, [TO_CODE] + to])
      + EntriesOf(cmds[1..])
  }

  lemma {:induction false} CodesAreFlat(cmds: seq<Command>)
    ensures Codes(cmds) == Flat(EntriesOf(cmds))
  {
    if cmds != [] {
      CodesAreFlat(cmds[1..]);
      CodeIsFlat(cmds[0], EntriesOf(cmds[1..]));
    }
  }

  lemma CodeIsFlat(c: Command, rest: seq<Name>)
    ensures CodeOf(c) + Flat(rest) == Flat((match c
                                          case MakeTemp(stub) => [[TEMP_CODE] + stub]
                                          case Rename(from, to) => [[FROM_CODE] + from, [TO_CODE] + to]) + rest)
  {
    match c
    case MakeTemp(stub) =>
      assert ([[TEMP_CODE] + stub] + rest)[1..] == rest;
    case Rename(from, to) =>
      var a, b := [FROM_CODE] + from, [TO_CODE] + to;
      assert ([a, b] + rest)[1..] == [b] + rest && ([b] + rest)[1..] == rest;
      assert Flat([b] + rest) == b + [NUL] + Flat(rest);
      assert Flat([a, b] + rest) == a + [NUL] + (b + [NUL] + Flat(rest));
  }

  /** Reading the commands back from their entries, after entries that are no commands. */
  lemma {:induction false} CommandsOfEntries(cmds: seq<Command>)
    ensures Commands(EntriesOf(cmds)) == cmds
  {
    if cmds != [] {
      CommandsOfEntries(cmds[1..]);
      var rest := EntriesOf(cmds[1..]);
      match cmds[0]
      case MakeTemp(stub) =>
        assert EntriesOf(cmds) == [[TEMP_CODE] + stub] + rest;
        assert EntriesOf(cmds)[1..] == rest;
      case Rename(from, to) =>
        assert EntriesOf(cmds) == [[FROM_CODE] + from, [TO_CODE] + to] + rest;
        assert EntriesOf(cmds)[2..] == rest;
    }
  }

  /** Entries of a directory scan: none of them is a command. */
  predicate Plain(e: Name) {
    e != [] && e[0] != TEMP_CODE && e[0] != FROM_CODE && e[0] != TO_CODE
  }

  ghost predicate AllPlain(es: seq<Name>) {
    forall i :: 0 <= i < |es| ==> Plain(es[i])
  }

  lemma {:induction false} PlainSkipped(es: seq<Name>, rest: seq<Name>, s: Scan)
    requires AllPlain(es) && s.Scan? && !s.pending
    ensures Commands(es + rest) == Commands(rest)
    ensures Acceptable(es + rest, s) == Acceptable(rest, s)
  {
    if es == [] {
      assert es + rest == rest;
    } else {
      assert (es + rest)[1..] == es[1..] + rest;
      PlainSkipped(es[1..], rest, s);
    }
  }

  // ----- the commands of a walk are accepted

  lemma PairAccepted(from: Name, to: Name, rest: seq<Name>, temp: bool)
    ensures var es := [[FROM_CODE] + from, [TO_CODE] + to] + rest;
            Acceptable(es, Scan(false, temp)) ==
            ((from == [] ==> temp) && (to == [] ==> temp && from != []) && Acceptable(rest, Scan(false, temp && from != [])))
  {
    var a, b := [FROM_CODE] + from, [TO_CODE] + to;
    var es := [a, b] + rest;
    assert es[1..] == [b] + rest && ([b] + rest)[1..] == rest;
    AcceptableStep(es, Scan(false, temp));
    AcceptableStep([b] + rest, After(Scan(false, temp), FROM_CODE, from == []));
    AcceptableStep([b] + rest, Scan(true, temp && from != []));
    AcceptableStep(rest, Rejected);
    hide Acceptable;
  }

  lemma {:induction false} ChainAccepted(names: seq<Name>, i: nat, rest: seq<Name>, temp: bool)
    requires 0 < i && forall k :: 0 <= k < |names| ==> names[k] != []
    ensures Acceptable(EntriesOf(ChainCommands(names, i)) + rest, Scan(false, temp)) == Acceptable(rest, Scan(false, temp))
    decreases |names| - i
  {
    hide Acceptable;
    if i < |names| {
      var c, more := Rename(names[i], names[i - 1]), ChainCommands(names, i + 1);
      assert ([c] + more)[1..] == more;
      ChainAccepted(names, i + 1, rest, temp);
      PairAccepted(names[i], names[i - 1], EntriesOf(more) + rest, temp);
      assert EntriesOf([c] + more) + rest == [[FROM_CODE] + names[i], [TO_CODE] + names[i - 1]] + (EntriesOf(more) + rest);
    } else {
      assert EntriesOf(ChainCommands(names, i)) + rest == rest;
    }
  }

  lemma CycleAccepted(names: seq<Name>, stub: Name, rest: seq<Name>)
    requires names != [] && forall k :: 0 <= k < |names| ==> names[k] != []
    ensures Acceptable(EntriesOf(CycleCommands(names, stub)) + rest, Scan(false, false)) == Acceptable(rest, Scan(false, false))
  {
    hide Acceptable;
    var chain, last := ChainCommands(names, 1), names[|names| - 1];
    var closing := [[FROM_CODE] + [], [TO_CODE] + last];
    var open := [[FROM_CODE] + names[0], [TO_CODE] + []];
    CycleEntries(names, stub);
    var x := [TEMP_CODE] + stub;
    var after2 := EntriesOf(chain) + (closing + rest);
    var after1 := open + after2;
    assert EntriesOf(CycleCommands(names, stub)) + rest == [x] + after1;
    assert ([x] + after1)[1..] == after1;
    AcceptableStep([x] + after1, Scan(false, false));
    PairAccepted(names[0], [], after2, true);
    ChainAccepted(names, 1, closing + rest, true);
    PairAccepted([], last, rest, true);
  }

  lemma CycleEntries(names: seq<Name>, stub: Name)
    requires names != []
    ensures EntriesOf(CycleCommands(names, stub))
         == [[TEMP_CODE] + stub] + [[FROM_CODE] + names[0], [TO_CODE] + []] + EntriesOf(ChainCommands(names, 1))
            + [[FROM_CODE] + [], [TO_CODE] + names[|names| - 1]]
  {
    hide EntriesOf, ChainCommands;
    var a, b, c := MakeTemp(stub), Rename(names[0], []), Rename([], names[|names| - 1]);
    var chain := ChainCommands(names, 1);
    EntriesOfAppend([a, b] + chain, [c]);
    EntriesOfAppend([a, b], chain);
    EntriesOfAppend([a], [b]);
    assert [a] + [b] == [a, b];
    EntriesOfOne(a);
    EntriesOfOne(b);
    EntriesOfOne(c);
  }

  lemma EntriesOfOne(c: Command)
    ensures EntriesOf([c]) == match c
                              case MakeTemp(stub) => [[TEMP_CODE] + stub]
                              case Rename(from, to) => [[FROM_CODE] + from, [TO_CODE] + to]
  {
    assert EntriesOf([c][1..]) == [];
  }

  lemma {:induction false} EntriesOfAppend(a: seq<Command>, b: seq<Command>)
    ensures EntriesOf(a + b) == EntriesOf(a) + EntriesOf(b)
  {
    if a == [] {
      assert a + b == b;
    } else {
      assert (a + b)[1..] == a[1..] + b;
      EntriesOfAppend(a[1..], b);
    }
  }

  lemma RenamesAccepted(names: seq<Name>, cycle: bool, rest: seq<Name>)
    requires names != [] && forall k :: 0 <= k < |names| ==> names[k] != []
    ensures Acceptable(EntriesOf(RenameCommands(names, cycle)) + rest, Scan(false, false)) == Acceptable(rest, Scan(false, false))
  {
    hide Acceptable;
    if cycle {
      CycleAccepted(names, DirName(names[0]), rest);
    } else {
      ChainAccepted(names, 1, rest, false);
    }
  }

  // ----- append_incremental_renames

  /** dumpdir_size: the bytes of a listing, its final NUL included. */
  method DumpdirSize(d: seq<byte>, ghost es: seq<Name>) returns (size: nat)
    requires TextAt(d, 0, es) && Proper(es)
    ensures size == |d|
  {
    hide TextAt, NulEnd, NulFree;
    var p: nat := 0;
    ghost var left := es;
    TextInside(d, p, left);
    while d[p] != NUL
      invariant p < |d| && TextAt(d, p, left) && Proper(left)
      decreases |left|
    {
      if left == [] {
        TextEnd(d, p);
      }
      TextHead(d, p, left);
      p := NulEnd(d, p) + 1;
      left := left[1..];
      TextInside(d, p, left);
    }
    if left != [] {
      TextHead(d, p, left);
    }
    LastText(d, p);
    size := p + 1;
  }

  lemma TextInside(d: seq<byte>, p: nat, es: seq<Name>)
    requires TextAt(d, p, es)
    ensures p < |d|
  {
  }

  lemma LastText(d: seq<byte>, p: nat)
    requires TextAt(d, p, [])
    ensures p + 1 == |d|
  {
  }

  /** The names along a walk, and whether it is a cycle. */
  datatype Group = Group(names: seq<Name>, cycle: bool)

  function GroupCommands(gs: seq<Group>): seq<Command>
    requires forall i :: 0 <= i < |gs| ==> gs[i].names != []
  {
    if gs == [] then []
    else GroupCommands(gs[..|gs| - 1]) + RenameCommands(gs[|gs| - 1].names, gs[|gs| - 1].cycle)
  }

  /** Groups with names that can be stored. */
  ghost predicate GoodGroups(gs: seq<Group>) {
    forall i :: 0 <= i < |gs| ==> GoodNames(gs[i].names)
  }

  ghost predicate GoodNames(names: seq<Name>) {
    names != [] && forall k :: 0 <= k < |names| ==> names[k] != [] && NulFree(names[k])
  }

  lemma {:induction false} GroupsAccepted(gs: seq<Group>, rest: seq<Name>)
    requires GoodGroups(gs)
    ensures Acceptable(EntriesOf(GroupCommands(gs)) + rest, Scan(false, false)) == Acceptable(rest, Scan(false, false))
    decreases |gs|
  {
    hide Acceptable, RenameCommands;
    if gs == [] {
      assert EntriesOf(GroupCommands(gs)) + rest == rest;
    } else {
      var init, g := gs[..|gs| - 1], gs[|gs| - 1];
      var es := EntriesOf(RenameCommands(g.names, g.cycle));
      EntriesOfAppend(GroupCommands(init), RenameCommands(g.names, g.cycle));
      assert EntriesOf(GroupCommands(gs)) + rest == EntriesOf(GroupCommands(init)) + (es + rest);
      GroupsAccepted(init, es + rest);
      assert GoodNames(g.names);
      RenamesAccepted(g.names, g.cycle, rest);
    }
  }

  // The names in commands are NUL-free, so their entries are proper.

  ghost predicate NulFreeCommands(cmds: seq<Command>) {
    forall i :: 0 <= i < |cmds| ==> NulFreeCommand(cmds[i])
  }

  predicate NulFreeCommand(c: Command) {
    match c
    case MakeTemp(stub) => NulFree(stub)
    case Rename(from, to) => NulFree(from) && NulFree(to)
  }

  lemma {:induction false} ProperEntries(cmds: seq<Command>)
    requires NulFreeCommands(cmds)
    ensures Proper(EntriesOf(cmds))
  {
    if cmds != [] {
      ProperEntries(cmds[1..]);
      assert NulFreeCommand(cmds[0]);
    }
  }

  lemma {:induction false} ChainNulFree(names: seq<Name>, i: nat)
    requires 0 < i && GoodNames(names)
    ensures NulFreeCommands(ChainCommands(names, i))
    decreases |names| - i
  {
    hide NulFree;
    if i < |names| {
      ChainNulFree(names, i + 1);
    }
  }

  lemma RenamesNulFree(names: seq<Name>, cycle: bool)
    requires GoodNames(names)
    ensures NulFreeCommands(RenameCommands(names, cycle))
  {
    ChainNulFree(names, 1);
    assert NulFree([]);
    hide NulFree, ChainCommands;
  }

  lemma {:induction false} GroupsNulFree(gs: seq<Group>)
    requires GoodGroups(gs)
    ensures NulFreeCommands(GroupCommands(gs))
    decreases |gs|
  {
    hide RenameCommands;
    if gs != [] {
      GroupsNulFree(gs[..|gs| - 1]);
      assert GoodNames(gs[|gs| - 1].names);
      RenamesNulFree(gs[|gs| - 1].names, gs[|gs| - 1].cycle);
    }
  }

  /** A listing of plain entries with the commands of any groups after them is accepted, and the commands
      read from it are those of the groups. */
  lemma ExtendedListing(es: seq<Name>, gs: seq<Group>)
    requires Proper(es) && AllPlain(es) && GoodGroups(gs)
    ensures var d := Flat(es) + Codes(GroupCommands(gs)) + [NUL];
            && Terminated(d) && Acceptable(Entries(d, 0), Scan(false, false))
            && Commands(Entries(d, 0)) == GroupCommands(gs)
  {
    hide Acceptable, Commands, GroupCommands, Flat, Codes, EntriesOf, Entries, Terminated;
    var more := EntriesOf(GroupCommands(gs));
    var all := es + more;
    var d := Flat(es) + Codes(GroupCommands(gs)) + [NUL];
    CodesAreFlat(GroupCommands(gs));
    FlatAppend(es, more);
    assert d == Flat(all) + [NUL] && d[0..] == d;
    TextTerminated(all);
    GroupsNulFree(gs);
    ProperEntries(GroupCommands(gs));
    EntriesOfText(d, 0, all);
    PlainSkipped(es, more, Scan(false, false));
    CommandsOfEntries(GroupCommands(gs));
    GroupsAccepted(gs, []);
    assert more + [] == more;
    AcceptableStep([], Scan(false, false));
  }

  /** All directories have names that can be stored. */
  ghost predicate GoodDirectories(all: set<Directory>) {
    forall d :: d in all ==> d.name != [] && NulFree(d.name)
  }

  /** The directories of the list that start a chain or cycle, in order. */
  ghost function Flagged(dirs: seq<Directory>): seq<Directory>
    reads dirs
  {
    if dirs == [] then []
    else Flagged(dirs[..|dirs| - 1]) + if dirs[|dirs| - 1].renamed then [dirs[|dirs| - 1]] else []
  }

  /** The group holds the names along the walk from a directory to its end, or around its cycle. */
  ghost predicate IsGroupOf(g: Group, ds: seq<Directory>, start: Directory, all: set<Directory>)
    reads all
  {
    && Walk(ds, all) && ds[0] == start && g.names == Names(ds)
    && ds[|ds| - 1].orig == if g.cycle then start else null
  }

  ghost predicate AreGroupsOf(gs: seq<Group>, walks: seq<seq<Directory>>, starts: seq<Directory>, all: set<Directory>)
    reads all
  {
    |gs| == |walks| == |starts| && forall k :: 0 <= k < |gs| ==> IsGroupOf(gs[k], walks[k], starts[k], all)
  }

  /** append_incremental_renames: the listing of a directory, which is plain, is extended by one group of
      commands for each flagged directory of the list, that of the walk which starts there; the result is
      accepted by dumpdir_ok, and reading it gives exactly these commands. */
  method AppendIncrementalRenames(dirs: seq<Directory>, d: seq<byte>, ghost es: seq<Name>, ghost all: set<Directory>)
    returns (d': seq<byte>, ghost gs: seq<Group>, ghost walks: seq<seq<Directory>>)
    requires d == Flat(es) + [NUL] && Proper(es) && AllPlain(es)
    requires Closed(all) && GoodDirectories(all) && forall i :: 0 <= i < |dirs| ==> dirs[i] in all && Ends(dirs[i], all)
    ensures AreGroupsOf(gs, walks, Flagged(dirs), all) && GoodGroups(gs)
    ensures d' == Flat(es) + Codes(GroupCommands(gs)) + [NUL]
    ensures Terminated(d') && Acceptable(Entries(d', 0), Scan(false, false))
    ensures Commands(Entries(d', 0)) == GroupCommands(gs)
  {
    hide *;
    EntryText(d, es);
    var size := DumpdirSize(d, es);
    var stk := d[..size - 1];
    gs, walks := [], [];
    NoGroups(stk, es, dirs, all);
    for i := 0 to |dirs|
      invariant Appended(stk, es, gs, walks, dirs[..i], all)
    {
      NextDirectory(stk, es, gs, walks, dirs, i, all);
      if dirs[i].renamed {
        ghost var ds, cycle;
        ghost var before := stk;
        stk, ds, cycle := StoreRename(dirs[i], stk, all);
        WalkStart(ds, all);
        GroupAppended(before, stk, es, gs, walks, dirs, i, all, ds, cycle);
        gs, walks := gs + [Group(Names(ds), cycle)], walks + [ds];
      }
    }
    AllAppended(stk, es, gs, walks, dirs, all);
    d' := stk + [NUL];
  }

  /** The listing and the groups of the directories so far. */
  ghost predicate Appended(stk: seq<byte>, es: seq<Name>, gs: seq<Group>, walks: seq<seq<Directory>>, dirs: seq<Directory>,
                           all: set<Directory>)
    reads all, dirs
  {
    GoodGroups(gs) && stk == Flat(es) + Codes(GroupCommands(gs)) && AreGroupsOf(gs, walks, Flagged(dirs), all)
  }

  lemma EntryText(d: seq<byte>, es: seq<Name>)
    requires d == Flat(es) + [NUL]
    ensures TextAt(d, 0, es) && |d| > 0 && d[..|d| - 1] == Flat(es)
  {
    assert d[0..] == d;
  }

  lemma NextDirectory(stk: seq<byte>, es: seq<Name>, gs: seq<Group>, walks: seq<seq<Directory>>, dirs: seq<Directory>, i: nat,
                      all: set<Directory>)
    requires i < |dirs| && Appended(stk, es, gs, walks, dirs[..i], all)
    ensures !dirs[i].renamed ==> Appended(stk, es, gs, walks, dirs[..i + 1], all)
  {
    hide GoodGroups, Codes, Flat, AreGroupsOf;
    assert dirs[..i + 1][..i] == dirs[..i];
    assert Flagged(dirs[..i]) + [] == Flagged(dirs[..i]);
  }

  /** One more group, for the walk from a flagged directory. */
  lemma GroupAppended(before: seq<byte>, stk: seq<byte>, es: seq<Name>, gs: seq<Group>, walks: seq<seq<Directory>>, dirs: seq<Directory>, i: nat,
                      all: set<Directory>, ds: seq<Directory>, cycle: bool)
    requires i < |dirs| && dirs[i].renamed && GoodDirectories(all) && Appended(before, es, gs, walks, dirs[..i], all)
    requires Walk(ds, all) && ds[0] == dirs[i] && ds[|ds| - 1].orig == if cycle then dirs[i] else null
    requires Names(ds) != [] && stk == before + Codes(RenameCommands(Names(ds), cycle))
    ensures Appended(stk, es, gs + [Group(Names(ds), cycle)], walks + [ds], dirs[..i + 1], all)
  {
    hide Codes, Flat, Walk, GoodDirectories, GoodGroups, RenameCommands, GroupCommands, IsGroupOf;
    assert dirs[..i + 1][..i] == dirs[..i];
    GroupAdded(Flat(es), gs, Names(ds), cycle, ds, all);
    GroupOfWalk(ds, cycle, dirs[i], all);
  }

  lemma AllAppended(stk: seq<byte>, es: seq<Name>, gs: seq<Group>, walks: seq<seq<Directory>>, dirs: seq<Directory>, all: set<Directory>)
    requires Appended(stk, es, gs, walks, dirs[..|dirs|], all) && Proper(es) && AllPlain(es)
    ensures AreGroupsOf(gs, walks, Flagged(dirs), all) && GoodGroups(gs)
    ensures var d := stk + [NUL];
            && d == Flat(es) + Codes(GroupCommands(gs)) + [NUL] && Terminated(d)
            && Acceptable(Entries(d, 0), Scan(false, false)) && Commands(Entries(d, 0)) == GroupCommands(gs)
  {
    hide Codes, Flat, AreGroupsOf, GoodGroups, Proper, AllPlain, Terminated, Acceptable, Entries, Commands, GroupCommands;
    assert dirs[..|dirs|] == dirs;
    ExtendedListing(es, gs);
  }

  lemma NoGroups(stk: seq<byte>, es: seq<Name>, dirs: seq<Directory>, all: set<Directory>)
    requires stk == Flat(es)
    ensures Appended(stk, es, [], [], dirs[..0], all)
  {
    assert Codes(GroupCommands([])) == [];
    assert dirs[..0] == [];
  }

  lemma GroupOfWalk(ds: seq<Directory>, cycle: bool, start: Directory, all: set<Directory>)
    requires Walk(ds, all) && ds[0] == start && ds[|ds| - 1].orig == if cycle then start else null
    ensures IsGroupOf(Group(Names(ds), cycle), ds, start, all)
  {
  }

  lemma GroupAdded(text: seq<byte>, gs: seq<Group>, names: seq<Name>, cycle: bool, ds: seq<Directory>, all: set<Directory>)
    requires GoodGroups(gs) && Walk(ds, all) && GoodDirectories(all) && names == Names(ds)
    ensures GoodGroups(gs + [Group(names, cycle)])
    ensures text + Codes(GroupCommands(gs)) + Codes(RenameCommands(names, cycle))
         == text + Codes(GroupCommands(gs + [Group(names, cycle)]))
  {
    hide RenameCommands, NulFree, Codes, Walk, GoodDirectories;
    var gs' := gs + [Group(names, cycle)];
    assert gs'[..|gs|] == gs;
    WalkNames(ds, all);
    CodesAppend(GroupCommands(gs), RenameCommands(names, cycle));
    assert GroupCommands(gs') == GroupCommands(gs) + RenameCommands(names, cycle);
    assert Codes(GroupCommands(gs')) == Codes(GroupCommands(gs)) + Codes(RenameCommands(names, cycle));
  }

  lemma WalkNames(ds: seq<Directory>, all: set<Directory>)
    requires Walk(ds, all) && GoodDirectories(all)
    ensures GoodNames(Names(ds))
  {
    hide NulFree;
  }

  // ----- from the dump to the restore

  ghost predicate DistinctNames(all: set<Directory>) {
    forall d, e :: d in all && e in all && d.name == e.name ==> d == e
  }

  /** Every directory that something was renamed from is still there under its old name. */
  ghost predicate OriginalsPresent(all: set<Directory>, tree: Tree)
    reads all
  {
    forall d :: d in all && d.orig != null ==> d.orig.name in tree
  }

  lemma WalkDistinct(ds: seq<Directory>, all: set<Directory>)
    requires Walk(ds, all) && DistinctNames(all) && GoodDirectories(all)
    ensures Distinct(Names(ds))
  {
    hide NulFree;
  }

  lemma WalkPresent(ds: seq<Directory>, all: set<Directory>, tree: Tree)
    requires Walk(ds, all) && OriginalsPresent(all, tree)
    ensures forall k :: 0 < k < |ds| ==> Names(ds)[k] in tree
    ensures ds[|ds| - 1].orig == ds[0] ==> Names(ds)[0] in tree
  {
    forall k | 0 < k < |ds| ensures Names(ds)[k] in tree {
      assert Follows(ds[k - 1], ds[k]);
    }
  }

  /** The renames of one start, stored at the dump and replayed at the restore.  The stored listing is
      accepted; and if the walk is a cycle, or its start is not in use, every rename succeeds and each
      directory of the walk ends up with what was at its original name, all else being as before. */
  method StoreAndReplay(dir: Directory, fs: FileSystem, mkdtemp: Chooser, ghost all: set<Directory>)
    returns (valid: bool, ok: bool, ghost ds: seq<Directory>, ghost cycle: bool)
    requires dir in all && Closed(all) && Ends(dir, all) && GoodDirectories(all) && DistinctNames(all)
    requires OriginalsPresent(all, fs.tree)
    requires Fresh(mkdtemp) && forall tree: Tree, stub :: mkdtemp(tree, stub) != []
    modifies fs
    ensures valid && ds != [] && ds[0] == dir
    ensures Walk(ds, all) && ds[|ds| - 1].orig == if cycle then dir else null
    ensures cycle || dir.name !in old(fs.tree) ==>
              ok && if cycle then Rotated(old(fs.tree), fs.tree, Names(ds))
                    else ShiftedFrom(old(fs.tree), fs.tree, Names(ds), 0)
  {
    hide *;
    var stk;
    stk, ds, cycle := StoreRename(dir, [], all);
    var d := stk + [NUL];
    WalkStart(ds, all);
    ListingOf(ds, all, cycle, stk);
    valid := DumpdirOk(d);
    WalkReplay(ds, all, cycle, fs.tree, mkdtemp);
    ok := ProcessRenames(fs, d, mkdtemp);
  }

  lemma WalkStart(ds: seq<Directory>, all: set<Directory>)
    requires Walk(ds, all)
    ensures ds != [] && Names(ds) != []
  {
  }

  lemma ListingOf(ds: seq<Directory>, all: set<Directory>, cycle: bool, stk: seq<byte>)
    requires Walk(ds, all) && GoodDirectories(all) && ds != [] && Names(ds) != []
    requires stk == [] + Codes(RenameCommands(Names(ds), cycle))
    ensures var d := stk + [NUL];
            && Terminated(d) && Acceptable(Entries(d, 0), Scan(false, false))
            && Commands(Entries(d, 0)) == RenameCommands(Names(ds), cycle)
  {
    hide Acceptable, Commands, RenameCommands, Codes, Entries, Terminated, Walk, GoodDirectories;
    WalkNames(ds, all);
    var gs := [Group(Names(ds), cycle)];
    assert GroupCommands(gs[..0]) == [];
    assert GroupCommands(gs) == RenameCommands(Names(ds), cycle);
    ExtendedListing([], gs);
    assert Flat([]) + Codes(GroupCommands(gs)) + [NUL] == stk + [NUL];
  }

  lemma WalkReplay(ds: seq<Directory>, all: set<Directory>, cycle: bool, tree: Tree, mkdtemp: Chooser)
    requires Walk(ds, all) && GoodDirectories(all) && DistinctNames(all) && OriginalsPresent(all, tree) && Names(ds) != []
    requires ds[|ds| - 1].orig == if cycle then ds[0] else null
    requires Fresh(mkdtemp) && (forall t: Tree, stub :: mkdtemp(t, stub) != [])
    ensures var r := Replay(State(tree, [], false), RenameCommands(Names(ds), cycle), mkdtemp);
            cycle || ds[0].name !in tree ==>
              !r.failed && if cycle then Rotated(tree, r.tree, Names(ds)) else ShiftedFrom(tree, r.tree, Names(ds), 0)
  {
    hide Replay, Rotated, ShiftedFrom, ChainCommands, CycleCommands, Distinct, NulFree;
    WalkDistinct(ds, all);
    WalkPresent(ds, all, tree);
    var names := Names(ds);
    if cycle {
      CycleRestored(tree, names, DirName(names[0]), mkdtemp);
    } else if ds[0].name !in tree {
      ChainRestored(tree, names, mkdtemp);
    }
  }
}

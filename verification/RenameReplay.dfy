/** Replaying rename commands on a file system: the rename loop of purge_directory in src/incremen.c. */
module RenameReplay {
  import opened Bytes
  import opened Dumpdir

  /** What is at a name: a directory with its contents, or the empty one that mkdtemp made. */
  datatype Node = Dir(contents: nat) | Stub

  type Tree = map<Name, Node>

  /** A choice of names by mkdtemp: never one that is in use. */
  type Chooser = (Tree, Name) -> Name

  ghost predicate Fresh(mkdtemp: Chooser) {
    forall tree: Tree, stub :: mkdtemp(tree, stub) !in tree
  }

  /** rename_directory: it needs a source, and a target that is free or still the stub. */
  predicate CanRename(tree: Tree, from: Name, to: Name) {
    from in tree && (to !in tree || tree[to] == Stub)
  }

  function Renamed(tree: Tree, from: Name, to: Name): Tree
    requires CanRename(tree, from, to)
  {
    tree[to := tree[from]] - (if from == to then {} else {from})
  }

  /** The tree, the temporary directory (meaningless before the first X), and whether a rename failed. */
  datatype State = State(tree: Tree, temp: Name, failed: bool)

  function Source(s: State, from: Name): Name {
    if from == [] then s.temp else from
  }

  function Target(s: State, from: Name, to: Name): Name {
    if from != [] && to == [] then s.temp else to
  }

  function Do(s: State, c: Command, mkdtemp: Chooser): State {
    if s.failed then s
    else
      match c
      case MakeTemp(stub) =>
        var t := mkdtemp(s.tree, stub);
        State(s.tree[t := Stub], t, false)
      case Rename(from, to) =>
        if CanRename(s.tree, Source(s, from), Target(s, from, to))
        then s.(tree := Renamed(s.tree, Source(s, from), Target(s, from, to)))
        else s.(failed := true)
  }

  function Replay(s: State, cmds: seq<Command>, mkdtemp: Chooser): State
    decreases |cmds|
  {
    if cmds == [] then s else Replay(Do(s, cmds[0], mkdtemp), cmds[1..], mkdtemp)
  }

  lemma {:induction false} ReplayFailed(s: State, cmds: seq<Command>, mkdtemp: Chooser)
    requires s.failed
    ensures Replay(s, cmds, mkdtemp) == s
    decreases |cmds|
  {
    if cmds != [] {
      ReplayFailed(s, cmds[1..], mkdtemp);
    }
  }

  /** Some name has a directory with these contents. */
  ghost predicate Present(tree: Tree, contents: nat) {
    exists n :: n in tree && tree[n] == Dir(contents)
  }

  /** A command neither loses a directory nor makes one up: a rename never goes onto another directory. */
  lemma DoConserves(s: State, c: Command, mkdtemp: Chooser, contents: nat)
    requires Fresh(mkdtemp)
    ensures Present(Do(s, c, mkdtemp).tree, contents) <==> Present(s.tree, contents)
  {
    var after := Do(s, c, mkdtemp).tree;
    if c.Rename? && !s.failed && CanRename(s.tree, Source(s, c.from), Target(s, c.from, c.to)) {
      RenameConserves(s.tree, Source(s, c.from), Target(s, c.from, c.to), contents);
    } else if c.MakeTemp? && !s.failed {
      var t := mkdtemp(s.tree, c.stub);
      if n :| n in s.tree && s.tree[n] == Dir(contents) {
        assert after[n] == s.tree[n];
      }
      if n :| n in after && after[n] == Dir(contents) {
        assert n != t && s.tree[n] == after[n];
      }
    }
  }

  lemma RenameConserves(tree: Tree, from: Name, to: Name, contents: nat)
    requires CanRename(tree, from, to)
    ensures Present(Renamed(tree, from, to), contents) <==> Present(tree, contents)
  {
    var after := Renamed(tree, from, to);
    if n :| n in tree && tree[n] == Dir(contents) {
      assert after[if n == from then to else n] == Dir(contents);
    }
    if n :| n in after && after[n] == Dir(contents) {
      assert tree[if n == to then from else n] == Dir(contents);
    }
  }

  /** No listing whatever makes a replay lose a directory. */
  lemma {:induction false} ReplayConserves(s: State, cmds: seq<Command>, mkdtemp: Chooser, contents: nat)
    requires Fresh(mkdtemp)
    ensures Present(Replay(s, cmds, mkdtemp).tree, contents) <==> Present(s.tree, contents)
    decreases |cmds|
  {
    hide Do, Present;
    if cmds != [] {
      DoConserves(s, cmds[0], mkdtemp, contents);
      ReplayConserves(Do(s, cmds[0], mkdtemp), cmds[1..], mkdtemp, contents);
    }
  }

  // ----- the loop of purge_directory

  class FileSystem {
    var tree: Tree

    constructor (tree: Tree)
      ensures this.tree == tree
    {
      this.tree := tree;
    }

    method RenameDirectory(src: Name, dst: Name) returns (ok: bool)
      modifies this
      ensures ok <==> CanRename(old(tree), src, dst)
      ensures tree == if ok then Renamed(old(tree), src, dst) else old(tree)
    {
      ok := CanRename(tree, src, dst);
      if ok {
        tree := Renamed(tree, src, dst);
      }
    }

    method Mkdtempat(stub: Name, mkdtemp: Chooser) returns (temp: Name)
      modifies this
      ensures temp == mkdtemp(old(tree), stub) && tree == old(tree)[temp := Stub]
    {
      temp := mkdtemp(tree, stub);
      tree := tree[temp := Stub];
    }
  }

  /** temp_stub, which is NULL before the first X. */
  datatype TempStub = NoStub | TempStub(name: Name)

  function NameOf(t: TempStub): Name {
    if t.NoStub? then [] else t.name
  }

  /** The rest of the listing at arc is acceptable, and replaying it gives the goal. */
  ghost predicate Restoring(d: seq<byte>, arc: nat, scan: Scan, tree: Tree, temp: TempStub, goal: State, mkdtemp: Chooser) {
    && Terminated(d) && arc < |d|
    && Acceptable(Entries(d, arc), scan) && scan.Scan? && !scan.pending && (scan.temp ==> temp.TempStub?)
    && Replay(State(tree, NameOf(temp), false), Commands(Entries(d, arc)), mkdtemp) == goal
  }

  lemma RestoreTemp(d: seq<byte>, arc: nat, scan: Scan, tree: Tree, temp: TempStub, goal: State, mkdtemp: Chooser)
    requires Restoring(d, arc, scan, tree, temp, goal, mkdtemp) && d[arc] == TEMP_CODE
    ensures arc < NulEnd(d, arc) < |d| - 1
    ensures var t := mkdtemp(tree, d[arc + 1..NulEnd(d, arc)]);
            Restoring(d, NulEnd(d, arc) + 1, Scan(false, true), tree[t := Stub], TempStub(t), goal, mkdtemp)
  {
    EntryInside(d, arc);
    AcceptableStep(Entries(d, arc), scan);
    hide NulEnd, Entries, Acceptable;
    assert Commands(Entries(d, arc))[1..] == Commands(Entries(d, NulEnd(d, arc) + 1));
  }

  lemma RestoreOther(d: seq<byte>, arc: nat, scan: Scan, tree: Tree, temp: TempStub, goal: State, mkdtemp: Chooser)
    requires Restoring(d, arc, scan, tree, temp, goal, mkdtemp)
    requires d[arc] != NUL && d[arc] != TEMP_CODE && d[arc] != FROM_CODE
    ensures arc < NulEnd(d, arc) < |d| - 1
    ensures Restoring(d, NulEnd(d, arc) + 1, scan, tree, temp, goal, mkdtemp)
  {
    EntryInside(d, arc);
    AcceptableStep(Entries(d, arc), scan);
    hide NulEnd, Entries, Acceptable;
  }

  /** At an acceptable R: a T follows it, and an empty name has a temporary directory to stand for. */
  lemma PairAt(d: seq<byte>, arc: nat, scan: Scan)
    requires Terminated(d) && arc < |d| && d[arc] == FROM_CODE
    requires scan.Scan? && !scan.pending && Acceptable(Entries(d, arc), scan)
    ensures arc < NulEnd(d, arc) < |d| - 1 && d[NulEnd(d, arc) + 1] == TO_CODE
    ensures var es, from, to := Entries(d, arc), d[arc + 1] == NUL, d[NulEnd(d, arc) + 2] == NUL;
            && (from ==> scan.temp) && (to ==> scan.temp && !from)
            && |es| > 1 && (from <==> Operand(es[0]) == []) && (to <==> Operand(es[1]) == [])
            && Code(es[0]) == FROM_CODE && Acceptable(es[2..], Scan(false, scan.temp && !from))
  {
    EntryInside(d, arc);
    AcceptableStep(Entries(d, arc), scan);
    var next := NulEnd(d, arc) + 1;
    var scan1 := After(scan, d[arc], d[arc + 1] == NUL);
    AcceptableStep(Entries(d, next), scan1);
    assert d[next] != NUL;
    EntryInside(d, next);
    var es := Entries(d, arc);
    assert es[2..] == es[1..][1..];
    AcceptableStep(es[2..], After(scan1, d[next], d[next + 1] == NUL));
  }

  /** The names of the pair. */
  lemma PairNames(d: seq<byte>, arc: nat)
    requires Terminated(d) && arc < |d| && d[arc] != NUL
    requires NulEnd(d, arc) + 1 < |d| && d[NulEnd(d, arc) + 1] != NUL
    ensures arc < NulEnd(d, arc) < NulEnd(d, arc) + 1 < NulEnd(d, NulEnd(d, arc) + 1) < |d| - 1
    ensures var es, e := Entries(d, arc), NulEnd(d, arc);
            && |es| > 1 && Operand(es[0]) == d[arc + 1..e] && Operand(es[1]) == d[e + 2..NulEnd(d, e + 1)]
            && es[2..] == Entries(d, NulEnd(d, e + 1) + 1)
  {
    hide Entries, NulEnd, Operand, Terminated;
    EntryInside(d, arc);
    var es, e := Entries(d, arc), NulEnd(d, arc);
    EntryInside(d, e + 1);
    assert es[1] == es[1..][0];
    assert es[2..] == es[1..][1..];
  }

  /** The state after the pair of names. */
  lemma RestoreRename(d: seq<byte>, arc: nat, scan: Scan, tree: Tree, temp: TempStub, goal: State, mkdtemp: Chooser)
    requires Restoring(d, arc, scan, tree, temp, goal, mkdtemp) && d[arc] == FROM_CODE
    ensures var e := NulEnd(d, arc);
            && arc < e < |d| - 1 && d[e + 1] == TO_CODE && e + 1 < NulEnd(d, e + 1) < |d| - 1
            && var from, to := d[arc + 1..e], d[e + 2..NulEnd(d, e + 1)];
            && (from == [] || to == [] ==> temp.TempStub?) && !(from == [] && to == [])
            && var s := Do(State(tree, NameOf(temp), false), Rename(from, to), mkdtemp);
            && s.temp == NameOf(temp)
            && if s.failed then s == goal
               else Restoring(d, NulEnd(d, e + 1) + 1, Scan(false, scan.temp && from != []), s.tree, temp, goal, mkdtemp)
  {
    PairAt(d, arc, scan);
    PairNames(d, arc);
    hide NulEnd, Entries, Acceptable, Operand, Do, Replay, Commands;
    ReplayPair(State(tree, NameOf(temp), false), Entries(d, arc), mkdtemp);
    EntriesBehind(d, arc);
  }

  lemma ReplayPair(s0: State, es: seq<Name>, mkdtemp: Chooser)
    requires |es| > 1 && Code(es[0]) == FROM_CODE
    ensures var s, goal := Do(s0, Rename(Operand(es[0]), Operand(es[1])), mkdtemp), Replay(s0, Commands(es), mkdtemp);
            s.temp == s0.temp && Replay(s, Commands(es[2..]), mkdtemp) == goal && (s.failed ==> s == goal)
  {
    hide Operand, CanRename, Renamed;
    var s := Do(s0, Rename(Operand(es[0]), Operand(es[1])), mkdtemp);
    assert Commands(es) == [Rename(Operand(es[0]), Operand(es[1]))] + Commands(es[2..]);
    if s.failed {
      ReplayFailed(s, Commands(es[2..]), mkdtemp);
    }
  }

  lemma EntriesBehind(d: seq<byte>, arc: nat)
    requires Terminated(d) && arc < |d| && d[arc] != NUL && NulEnd(d, arc) + 1 < |d| && d[NulEnd(d, arc) + 1] != NUL
    ensures NulEnd(d, NulEnd(d, arc) + 1) < |d| - 1 && |Entries(d, arc)| > 1
    ensures Entries(d, NulEnd(d, NulEnd(d, arc) + 1) + 1) == Entries(d, arc)[2..]
  {
    hide NulEnd, Entries, Operand, Code, Bare, Terminated;
    EntryInside(d, arc);
    EntryInside(d, NulEnd(d, arc) + 1);
    assert Entries(d, arc)[2..] == Entries(d, arc)[1..][1..];
  }

  /** The renames of purge_directory, for a listing that dumpdir_ok accepts: every command is carried out
      as the listing says, until one fails. */
  method ProcessRenames(fs: FileSystem, d: seq<byte>, mkdtemp: Chooser) returns (ok: bool)
    requires Terminated(d) && Acceptable(Entries(d, 0), Scan(false, false))
    modifies fs
    ensures var r := Replay(State(old(fs.tree), [], false), Commands(Entries(d, 0)), mkdtemp);
            fs.tree == r.tree && ok == !r.failed
  {
    hide Acceptable, Entries, NulEnd, Commands, Replay, Restoring;
    var arc := 0;
    var tempStub := NoStub;
    ghost var goal := Replay(State(fs.tree, [], false), Commands(Entries(d, 0)), mkdtemp);
    ghost var scan := Scan(false, false);
    RestoreStart(d, fs.tree, goal, mkdtemp);
    while d[arc] != NUL
      invariant arc < |d| && scan.Scan? && Restoring(d, arc, scan, fs.tree, tempStub, goal, mkdtemp)
      decreases |d| - arc
    {
      if d[arc] == TEMP_CODE {
        RestoreTemp(d, arc, scan, fs.tree, tempStub, goal, mkdtemp);
        var temp := fs.Mkdtempat(d[arc + 1..NulEnd(d, arc)], mkdtemp);
        tempStub := TempStub(temp);
        scan := Scan(false, true);
      } else if d[arc] == FROM_CODE {
        RestoreRename(d, arc, scan, fs.tree, tempStub, goal, mkdtemp);
        var src := d[arc + 1..NulEnd(d, arc)];
        scan := Scan(false, scan.temp && src != []);
        arc := NulEnd(d, arc) + 1;
        assert d[arc] == TO_CODE;
        var dst := d[arc + 1..NulEnd(d, arc)];
        if src == [] {
          src := tempStub.name;
        } else if dst == [] {
          dst := tempStub.name;
        }
        ok := fs.RenameDirectory(src, dst);
        if !ok {
          return;
        }
      } else {
        RestoreOther(d, arc, scan, fs.tree, tempStub, goal, mkdtemp);
      }
      arc := NulEnd(d, arc) + 1;
    }
    RestoreEnd(d, arc, scan, fs.tree, tempStub, goal, mkdtemp);
    ok := true;
  }

  lemma RestoreStart(d: seq<byte>, tree: Tree, goal: State, mkdtemp: Chooser)
    requires Terminated(d) && Acceptable(Entries(d, 0), Scan(false, false))
    requires goal == Replay(State(tree, [], false), Commands(Entries(d, 0)), mkdtemp)
    ensures Restoring(d, 0, Scan(false, false), tree, NoStub, goal, mkdtemp)
  {
  }

  lemma RestoreEnd(d: seq<byte>, arc: nat, scan: Scan, tree: Tree, temp: TempStub, goal: State, mkdtemp: Chooser)
    requires Restoring(d, arc, scan, tree, temp, goal, mkdtemp) && d[arc] == NUL
    ensures goal == State(tree, NameOf(temp), false)
  {
    NoEntries(d, arc);
  }
}

/** What the commands of one chain or cycle of renames do when they are replayed (src/incremen.c). */
module RenameLaws {
  import opened Dumpdir
  import opened RenameReplay

  /** names[k + 1] is where the directory that is now names[k] was before. */
  ghost predicate Distinct(names: seq<Name>) {
    && (forall i :: 0 <= i < |names| ==> names[i] != [])
    && (forall i, j :: 0 <= i < j < |names| ==> names[i] != names[j])
  }

  /** The commands from index i on: each name is taken over by the directory after it in the chain. */
  function ChainCommands(names: seq<Name>, i: nat): seq<Command>
    requires 0 < i
    decreases |names| - i
  {
    if |names| <= i then [] else [Rename(names[i], names[i - 1])] + ChainCommands(names, i + 1)
  }

  /** A cycle is opened by moving its first directory to a temporary name, and closed by moving that to
      the name that the chain has freed. */
  function CycleCommands(names: seq<Name>, stub: Name): seq<Command>
    requires names != []
  {
    [MakeTemp(stub), Rename(names[0], [])] + ChainCommands(names, 1) + [Rename([], names[|names| - 1])]
  }

  /** In after, each of names[from ..] but the last holds what the next one held in before; the last is
      free; nothing else has changed. */
  ghost predicate ShiftedFrom(before: Tree, after: Tree, names: seq<Name>, from: nat)
    requires from < |names|
  {
    && (forall j :: from <= j < |names| - 1 ==> Moved(before, after, names[j + 1], names[j]))
    && names[|names| - 1] !in after
    && (forall x :: x !in names[from..] ==> SameAt(before, after, x))
  }

  /** What was at one name is now at another. */
  ghost predicate Moved(before: Tree, after: Tree, from: Name, to: Name) {
    from in before && to in after && after[to] == before[from]
  }

  ghost predicate SameAt(before: Tree, after: Tree, x: Name) {
    (x in before <==> x in after) && (x in before ==> after[x] == before[x])
  }

  lemma {:induction false} ChainReplay(s: State, names: seq<Name>, i: nat, mkdtemp: Chooser)
    requires Distinct(names) && 0 < i <= |names| && !s.failed
    requires names[i - 1] !in s.tree && forall j :: i <= j < |names| ==> names[j] in s.tree
    ensures var r := Replay(s, ChainCommands(names, i), mkdtemp);
            !r.failed && r.temp == s.temp && ShiftedFrom(s.tree, r.tree, names, i - 1)
    decreases |names| - i
  {
    if i < |names| {
      var c := Rename(names[i], names[i - 1]);
      var s' := Do(s, c, mkdtemp);
      assert s'.tree == s.tree[names[i - 1] := s.tree[names[i]]] - {names[i]};
      ChainReplay(s', names, i + 1, mkdtemp);
      var r := Replay(s', ChainCommands(names, i + 1), mkdtemp);
      ChainStep(s.tree, s'.tree, r.tree, names, i);
    }
  }

  lemma ChainStep(t: Tree, t': Tree, r: Tree, names: seq<Name>, i: nat)
    requires Distinct(names) && 0 < i < |names| && names[i] in t
    requires t' == t[names[i - 1] := t[names[i]]] - {names[i]} && ShiftedFrom(t', r, names, i)
    ensures ShiftedFrom(t, r, names, i - 1)
  {
    forall j | i - 1 <= j < |names| - 1 ensures Moved(t, r, names[j + 1], names[j]) {
      if j == i - 1 {
        assert names[j] !in names[i..];
        assert SameAt(t', r, names[j]);
      } else {
        assert Moved(t', r, names[j + 1], names[j]);
      }
    }
    forall x | x !in names[i - 1..] ensures SameAt(t, r, x) {
      assert names[i - 1..] == [names[i - 1]] + names[i..];
      assert names[i] in names[i..];
      assert SameAt(t', r, x);
    }
  }

  /** A chain: with the last target free and every other name in use, all renames succeed, each name ends
      up with what was at its original, and the first name of all is free. */
  lemma ChainRestored(tree: Tree, names: seq<Name>, mkdtemp: Chooser)
    requires Distinct(names) && names != [] && names[0] !in tree
    requires forall j :: 0 < j < |names| ==> names[j] in tree
    ensures var r := Replay(State(tree, [], false), ChainCommands(names, 1), mkdtemp);
            !r.failed && ShiftedFrom(tree, r.tree, names, 0)
  {
    ChainReplay(State(tree, [], false), names, 1, mkdtemp);
  }

  lemma {:induction false} ReplayAppend(s: State, a: seq<Command>, b: seq<Command>, mkdtemp: Chooser)
    ensures Replay(s, a + b, mkdtemp) == Replay(Replay(s, a, mkdtemp), b, mkdtemp)
    decreases |a|
  {
    if a == [] {
      assert a + b == b;
    } else {
      assert (a + b)[1..] == a[1..] + b;
      ReplayAppend(Do(s, a[0], mkdtemp), a[1..], b, mkdtemp);
    }
  }

  /** Every name of the cycle holds what the next one held, and nothing else has changed. */
  ghost predicate Rotated(before: Tree, after: Tree, names: seq<Name>)
    requires names != []
  {
    && (forall j :: 0 <= j < |names| - 1 ==> Moved(before, after, names[j + 1], names[j]))
    && Moved(before, after, names[0], names[|names| - 1])
    && (forall x :: x !in names ==> SameAt(before, after, x))
  }

  /** A cycle: with every name in use, all renames succeed, the names are rotated, and the temporary
      directory is gone. */
  lemma CycleRestored(tree: Tree, names: seq<Name>, stub: Name, mkdtemp: Chooser)
    requires Distinct(names) && names != [] && Fresh(mkdtemp) && mkdtemp(tree, stub) != []
    requires forall j :: 0 <= j < |names| ==> names[j] in tree
    ensures var r := Replay(State(tree, [], false), CycleCommands(names, stub), mkdtemp);
            !r.failed && Rotated(tree, r.tree, names)
  {
    var t := mkdtemp(tree, stub);
    var last := |names| - 1;
    assert t !in tree;
    var s0 := State(tree, [], false);
    var opening := [MakeTemp(stub), Rename(names[0], [])];
    var closing := [Rename([], names[last])];
    var t1 := tree[t := tree[names[0]]] - {names[0]};
    assert Replay(s0, opening, mkdtemp) == State(t1, t, false) by { OpenCycle(tree, names[0], stub, mkdtemp); }
    ChainReplay(State(t1, t, false), names, 1, mkdtemp);
    var s2 := Replay(State(t1, t, false), ChainCommands(names, 1), mkdtemp);
    ReplayAppend(s0, opening, ChainCommands(names, 1), mkdtemp);
    ReplayAppend(s0, opening + ChainCommands(names, 1), closing, mkdtemp);
    hide Replay;
    assert t !in names[0..];
    assert SameAt(t1, s2.tree, t);
    CloseCycle(s2, names[last], mkdtemp);
    CycleResult(tree, t1, s2.tree, t, names);
  }

  lemma OpenCycle(tree: Tree, name: Name, stub: Name, mkdtemp: Chooser)
    requires name in tree && name != [] && mkdtemp(tree, stub) !in tree && mkdtemp(tree, stub) != []
    ensures var t := mkdtemp(tree, stub);
            Replay(State(tree, [], false), [MakeTemp(stub), Rename(name, [])], mkdtemp)
            == State(tree[t := tree[name]] - {name}, t, false)
  {
    var t := mkdtemp(tree, stub);
    var s1 := State(tree[t := Stub], t, false);
    var cmds := [MakeTemp(stub), Rename(name, [])];
    assert cmds[1..] == [Rename(name, [])];
    assert Renamed(s1.tree, name, t) == tree[t := tree[name]] - {name};
    var s2 := State(tree[t := tree[name]] - {name}, t, false);
    assert Do(s1, Rename(name, []), mkdtemp) == s2;
    assert Replay(s1, [Rename(name, [])], mkdtemp) == s2;
  }

  lemma CloseCycle(s: State, name: Name, mkdtemp: Chooser)
    requires !s.failed && s.temp in s.tree && name !in s.tree && name != []
    ensures Replay(s, [Rename([], name)], mkdtemp) == s.(tree := s.tree[name := s.tree[s.temp]] - {s.temp})
  {
  }

  lemma CycleResult(tree: Tree, t1: Tree, t2: Tree, t: Name, names: seq<Name>)
    requires Distinct(names) && names != [] && t !in tree && (forall j :: 0 <= j < |names| ==> names[j] in tree)
    requires t1 == tree[t := tree[names[0]]] - {names[0]} && ShiftedFrom(t1, t2, names, 0) && SameAt(t1, t2, t)
    ensures t in t2 && Rotated(tree, t2[names[|names| - 1] := t2[t]] - {t}, names)
  {
    var last := |names| - 1;
    var r := t2[names[last] := t2[t]] - {t};
    assert names[0..] == names;
    forall j | 0 <= j < last ensures Moved(tree, r, names[j + 1], names[j]) {
      assert Moved(t1, t2, names[j + 1], names[j]);
    }
    forall x | x !in names ensures SameAt(tree, r, x) {
      assert SameAt(t1, t2, x);
      assert names[last] in names && names[0] in names;
    }
  }
}

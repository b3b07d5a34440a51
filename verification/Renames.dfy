/** Compiling a chain or cycle of directory renames into commands: store_rename of src/incremen.c. */
module Renames {
  import opened Bytes
  import opened Dumpdir
  import opened RenameLaws

  /** A directory of the snapshot; orig is what it was renamed from. */
  class Directory {
    const name: Name
    var orig: Directory?
    var renamed: bool       // DIRF_RENAMED: the start of a chain

    constructor (name: Name)
      ensures this.name == name && orig == null && !renamed
    {
      this.name := name;
      orig, renamed := null, false;
    }
  }

  // ----- how commands are written

  function CodeOf(c: Command): seq<byte> {
    match c
    case MakeTemp(stub) => [TEMP_CODE] + stub + [NUL]
    case Rename(from, to) => [FROM_CODE] + from + [NUL] + [TO_CODE] + to + [NUL]
  }

  function Codes(cmds: seq<Command>): seq<byte> {
    if cmds == [] then [] else CodeOf(cmds[0]) + Codes(cmds[1..])
  }

  lemma {:induction false} CodesAppend(a: seq<Command>, b: seq<Command>)
    ensures Codes(a + b) == Codes(a) + Codes(b)
  {
    hide CodeOf;
    if a == [] {
      assert a + b == b;
    } else {
      assert (a + b)[1..] == a[1..] + b;
      CodesAppend(a[1..], b);
    }
  }

  /** dir_name: what precedes the last component. */
  function DirName(name: Name): (d: Name)
    ensures NulFree(name) ==> NulFree(d)
  {
    var n := DirLength(name, |name|);
    if n == 0 then [DOT] else if n == 1 then name[..1] else name[..n - 1]
  }

  /** The index after the last slash before index i. */
  function DirLength(name: Name, i: nat): (n: nat)
    requires i <= |name|
    ensures n <= i
  {
    if i == 0 || name[i - 1] == SLASH then i else DirLength(name, i - 1)
  }

  // ----- walking the orig pointers

  ghost predicate Closed(all: set<Directory>)
    reads all
  {
    forall d :: d in all && d.orig != null ==> d.orig in all
  }

  /** No two directories come from the same one. */
  ghost predicate Injective(all: set<Directory>)
    reads all
  {
    forall d, e :: d in all && e in all && d.orig != null && d.orig == e.orig ==> d == e
  }

  /** Directories in the order of the orig pointers, none twice. */
  ghost predicate Walk(older ds: seq<Directory>, all: set<Directory>)
    reads all
  {
    && ds != []
    && (forall k :: 0 <= k < |ds| ==> ds[k] in all)
    && (forall k :: 0 <= k < |ds| - 1 ==> Follows(ds[k], ds[k + 1]))
    && (forall i, j :: 0 <= i < j < |ds| ==> ds[i] != ds[j])
  }

  ghost predicate Follows(d: Directory, e: Directory?)
    reads d
  {
    d.orig == e
  }

  /** No walk from the directory runs back into itself, except to its start. */
  ghost predicate Ends(dir: Directory, all: set<Directory>)
    reads all
  {
    forall ds: seq<Directory>, j :: Walk(ds, all) && ds[0] == dir && 0 < j < |ds| ==> ds[|ds| - 1].orig != ds[j]
  }

  lemma WalkOn(ds: seq<Directory>, all: set<Directory>)
    requires Closed(all) && Walk(ds, all) && Ends(ds[0], all)
    requires ds[|ds| - 1].orig != null && ds[|ds| - 1].orig != ds[0]
    ensures Walk(ds + [ds[|ds| - 1].orig], all)
  {
    var next := ds[|ds| - 1].orig;
    assert forall j :: 0 < j < |ds| ==> ds[j] != next;
  }

  /** If no two directories come from the same one, every walk ends or returns to its start. */
  lemma InjectiveEnds(dir: Directory, all: set<Directory>)
    requires Injective(all)
    ensures Ends(dir, all)
  {
    forall ds: seq<Directory>, j | Walk(ds, all) && ds[0] == dir && 0 < j < |ds| ensures ds[|ds| - 1].orig != ds[j] {
      assert Follows(ds[j - 1], ds[j]);
    }
  }

  lemma {:induction false} WalkLength(ds: seq<Directory>, all: set<Directory>)
    requires (forall k :: 0 <= k < |ds| ==> ds[k] in all) && (forall i, j :: 0 <= i < j < |ds| ==> ds[i] != ds[j])
    ensures |ds| <= |all|
  {
    if ds != [] {
      var last := |ds| - 1;
      WalkLength(ds[..last], all - {ds[last]});
    }
  }

  /** The cycle test of store_rename.  It ends unless the pointers run into a cycle without the start. */
  method FindCycle(dir: Directory, ghost all: set<Directory>) returns (prev: Directory?, ghost ds: seq<Directory>)
    requires dir in all && Closed(all) && Ends(dir, all)
    ensures Walk(ds, all) && ds[0] == dir
    ensures if prev == null then ds[|ds| - 1].orig == null else prev == ds[|ds| - 1] && prev.orig == dir
  {
    prev, ds := dir, [dir];
    hide Ends;
    while prev != null && prev.orig != dir
      invariant Walk(ds, all) && ds[0] == dir
      invariant if prev == null then ds[|ds| - 1].orig == null else prev == ds[|ds| - 1]
      decreases |all| - |ds|, if prev == null then 0 else 1
    {
      if prev.orig != null {
        WalkOn(ds, all);
        ds := ds + [prev.orig];
        WalkLength(ds, all);
      }
      prev := prev.orig;
    }
  }

  /** Which element of the walk the test looks at after n rounds, if the walk runs back into index j. */
  function Lap(length: nat, j: nat, n: nat): (k: nat)
    requires j < length
    ensures k < length
  {
    if n == 0 then 0
    else if Lap(length, j, n - 1) + 1 < length then Lap(length, j, n - 1) + 1
    else j
  }

  /** If the pointers run back into the walk, but not to its start, the test goes on for ever: after any
      number of rounds it stands at a directory whose orig is neither null nor the start. */
  lemma CycleTestLoops(ds: seq<Directory>, all: set<Directory>, j: nat, n: nat)
    requires Walk(ds, all) && 0 < j < |ds| && ds[|ds| - 1].orig == ds[j]
    ensures ds[Lap(|ds|, j, 0)] == ds[0]
    ensures ds[Lap(|ds|, j, n)].orig == ds[Lap(|ds|, j, n + 1)] != ds[0]
  {
    var k := Lap(|ds|, j, n);
    if k + 1 < |ds| {
      assert Follows(ds[k], ds[k + 1]);
    }
  }

  /** prev after n rounds of the cycle test; once the loop condition fails it stays as it is. */
  ghost function Prev(dir: Directory, n: nat, all: set<Directory>): (p: Directory?)
    requires dir in all && Closed(all)
    reads all
    ensures p == null || p in all
  {
    if n == 0 then dir
    else
      var p := Prev(dir, n - 1, all);
      if p == null || p.orig == dir then p else p.orig
  }

  /** The loop condition of the cycle test fails after n rounds. */
  ghost predicate Stopped(dir: Directory, n: nat, all: set<Directory>)
    requires dir in all && Closed(all)
    reads all
  {
    var p := Prev(dir, n, all);
    p == null || p.orig == dir
  }

  /** As long as the test goes on it has walked over n + 1 different directories. */
  lemma {:induction false} Walked(dir: Directory, n: nat, all: set<Directory>) returns (ds: seq<Directory>)
    requires dir in all && Closed(all) && Ends(dir, all) && !Stopped(dir, n, all)
    ensures Walk(ds, all) && ds[0] == dir && |ds| == n + 1 && ds[n] == Prev(dir, n, all)
  {
    hide Ends;
    if n == 0 {
      ds := [dir];
    } else {
      ds := Walked(dir, n - 1, all);
      WalkOn(ds, all);
      ds := ds + [ds[n - 1].orig];
    }
  }

  lemma {:induction false} Rounds(ds: seq<Directory>, all: set<Directory>, j: nat, n: nat)
    requires Walk(ds, all) && Closed(all) && 0 < j < |ds| && ds[|ds| - 1].orig == ds[j]
    ensures Prev(ds[0], n, all) == ds[Lap(|ds|, j, n)] && !Stopped(ds[0], n, all)
  {
    CycleTestLoops(ds, all, j, n);
    if n > 0 {
      Rounds(ds, all, j, n - 1);
      CycleTestLoops(ds, all, j, n - 1);
    }
  }

  /** The cycle test ends exactly if the orig pointers do not run into a cycle without the start. */
  lemma CycleTestEndsIff(dir: Directory, all: set<Directory>)
    requires dir in all && Closed(all)
    ensures Ends(dir, all) <==> exists n :: Stopped(dir, n, all)
  {
    if Ends(dir, all) {
      if !Stopped(dir, |all|, all) {
        var ds := Walked(dir, |all|, all);
        WalkLength(ds, all);
      }
    } else {
      var ds: seq<Directory>, j :| Walk(ds, all) && ds[0] == dir && 0 < j < |ds| && ds[|ds| - 1].orig == ds[j];
      forall n ensures !Stopped(dir, n, all) {
        Rounds(ds, all, j, n);
      }
    }
  }

  /** Three directories, of which the second and the third come from each other and the first from the
      second: the cycle test from the first never ends. */
  method SharedOriginalExample() returns (a: Directory, ghost all: set<Directory>)
    ensures a in all && Closed(all) && fresh(all)
    ensures forall n :: !Stopped(a, n, all)
  {
    a := new Directory([97]);
    var b := new Directory([98]);
    var c := new Directory([99]);
    a.orig, b.orig, c.orig := b, c, b;
    all := {a, b, c};
    assert Walk([a, b, c], all);
    assert [a, b, c][2].orig == [a, b, c][1];
    CycleTestEndsIff(a, all);
  }

  // ----- the commands

  function Names(ds: seq<Directory>): (names: seq<Name>)
    ensures |names| == |ds|
    ensures forall k :: 0 <= k < |ds| ==> names[k] == ds[k].name
  {
    seq(|ds|, k requires 0 <= k < |ds| => ds[k].name)
  }

  /** obstack_code_rename. */
  method CodeRename(stk: seq<byte>, from: Name, to: Name) returns (stk': seq<byte>)
    ensures stk' == stk + CodeOf(Rename(from, to))
  {
    stk' := stk + [FROM_CODE];
    stk' := stk' + from + [NUL];
    stk' := stk' + [TO_CODE];
    stk' := stk' + to + [NUL];
    Together(stk, [FROM_CODE], from, [NUL], [TO_CODE], to);
  }

  lemma Together(s: seq<byte>, a: seq<byte>, b: seq<byte>, n: seq<byte>, c: seq<byte>, d: seq<byte>)
    ensures s + a + b + n + c + d + n == s + (a + b + n + c + d + n)
  {
  }

  /** The text so far and the renames from index k of the walk on make up the goal. */
  ghost predicate Coding(ds: seq<Directory>, k: nat, stk: seq<byte>, goal: seq<byte>) {
    k < |ds| && stk + Codes(ChainCommands(Names(ds), k + 1)) == goal
  }

  lemma CodeOne(ds: seq<Directory>, k: nat, stk: seq<byte>, goal: seq<byte>)
    requires Coding(ds, k, stk, goal) && k + 1 < |ds|
    ensures Coding(ds, k + 1, stk + CodeOf(Rename(ds[k + 1].name, ds[k].name)), goal)
  {
    hide CodeOf, Codes, ChainCommands;
    ChainCoded(stk, Names(ds), k + 1);
  }

  lemma CodedAll(ds: seq<Directory>, k: nat, stk: seq<byte>, goal: seq<byte>)
    requires Coding(ds, k, stk, goal) && k + 1 == |ds|
    ensures stk == goal
  {
    assert ChainCommands(Names(ds), k + 1) == [] && Codes([]) == [];
  }

  /** Code the renames along the walk up to the last directory. */
  method CodeChain(ds0: Directory, stop: Directory, stk: seq<byte>, ghost ds: seq<Directory>, ghost all: set<Directory>)
    returns (stk': seq<byte>)
    requires Walk(ds, all) && ds[0] == ds0 && ds[|ds| - 1] == stop
    ensures stk' == stk + Codes(ChainCommands(Names(ds), 1))
  {
    hide Codes, CodeOf, ChainCommands;
    var p := ds0;
    stk' := stk;
    ghost var k, goal := 0, stk + Codes(ChainCommands(Names(ds), 1));
    while p != stop
      invariant k < |ds| && p == ds[k] && Coding(ds, k, stk', goal)
      decreases |ds| - k
    {
      assert Follows(ds[k], ds[k + 1]);
      CodeOne(ds, k, stk', goal);
      stk' := CodeRename(stk', p.orig.name, p.name);
      p, k := p.orig, k + 1;
    }
    CodedAll(ds, k, stk', goal);
  }

  lemma ChainCoded(stk: seq<byte>, names: seq<Name>, i: nat)
    requires 0 < i < |names|
    ensures stk + Codes(ChainCommands(names, i))
         == stk + CodeOf(Rename(names[i], names[i - 1])) + Codes(ChainCommands(names, i + 1))
  {
    hide CodeOf;
    var c, rest := Rename(names[i], names[i - 1]), ChainCommands(names, i + 1);
    assert ([c] + rest)[1..] == rest;
  }

  /** What store_rename is to append for a walk. */
  function RenameCommands(names: seq<Name>, cycle: bool): seq<Command>
    requires names != []
  {
    if cycle then CycleCommands(names, DirName(names[0])) else ChainCommands(names, 1)
  }

  /** The index after the last slash. */
  lemma {:induction false} LastSlash(name: Name, i: nat, n: nat)
    requires n <= i <= |name| && (n == 0 || name[n - 1] == 47) && forall k :: n <= k < i ==> name[k] != 47
    ensures DirLength(name, i) == n
    decreases i
  {
    if n < i {
      LastSlash(name, i - 1, n);
    }
  }

  /** The temporary directory of a cycle is made beside its first directory: in p if that one is p/c, in the
      current directory if its name has no slash, and in the root if its only slash comes first. */
  lemma CycleStub(names: seq<Name>, p: Name, c: Name)
    requires names != [] && c != [] && forall k :: 0 <= k < |c| ==> c[k] != 47
    ensures names[0] == p + [47] + c && p != [] && p[|p| - 1] != 47 ==> RenameCommands(names, true)[0] == MakeTemp(p)
    ensures names[0] == c ==> RenameCommands(names, true)[0] == MakeTemp([46])
    ensures names[0] == [47] + c ==> RenameCommands(names, true)[0] == MakeTemp([47])
  {
    hide ChainCommands, DirLength;
    var name := names[0];
    if name == c {
      LastSlash(name, |name|, 0);
    } else if name == [47] + c {
      LastSlash(name, |name|, 1);
      assert name[..1] == [47];
    } else if name == p + [47] + c {
      LastSlash(name, |name|, |p| + 1);
      assert name[..|p|] == p;
    }
  }

  /** A cycle is stored as X and its directory, then R and T with a name each for every rename; an empty name
      stands for the temporary directory. */
  lemma CodeBytes(dir: Name, from: Name, to: Name)
    ensures CodeOf(MakeTemp(dir)) == [88] + dir + [0]
    ensures CodeOf(Rename(from, to)) == [82] + from + [0] + [84] + to + [0]
  {
  }

  /** store_rename. */
  method StoreRename(dir: Directory, stk: seq<byte>, ghost all: set<Directory>)
    returns (stk': seq<byte>, ghost ds: seq<Directory>, ghost cycle: bool)
    requires dir in all && Closed(all) && Ends(dir, all)
    ensures Walk(ds, all) && ds[0] == dir && ds[|ds| - 1].orig == if cycle then dir else null
    ensures stk' == stk + Codes(RenameCommands(Names(ds), cycle))
  {
    hide CodeOf, Codes, Ends;
    var prev;
    prev, ds := FindCycle(dir, all);
    cycle := prev != null;
    if prev == null {
      stk' := CodeToEnd(dir, stk, ds, all);
    } else {
      var tempName := DirName(dir.name);
      stk' := stk + [TEMP_CODE] + tempName + [NUL];
      stk' := CodeRename(stk', dir.name, []);
      stk' := CodeChain(dir, prev, stk', ds, all);
      stk' := CodeRename(stk', [], prev.name);
      CycleCoded(stk, Names(ds), tempName);
    }
  }

  lemma CycleCoded(stk: seq<byte>, names: seq<Name>, stub: Name)
    requires names != []
    ensures stk + [TEMP_CODE] + stub + [NUL] + CodeOf(Rename(names[0], [])) + Codes(ChainCommands(names, 1))
            + CodeOf(Rename([], names[|names| - 1]))
         == stk + Codes(CycleCommands(names, stub))
  {
    hide CodeOf, Codes;
    var a, b, c := MakeTemp(stub), Rename(names[0], []), Rename([], names[|names| - 1]);
    var chain := ChainCommands(names, 1);
    CodesAppend([a, b] + chain, [c]);
    CodesAppend([a, b], chain);
    CodesOf(a, b);
    CodesOf1(c);
    TempCoded(stk, stub);
    Regroup(stk, CodeOf(a), CodeOf(b), Codes(chain), CodeOf(c));
  }

  lemma TempCoded(stk: seq<byte>, stub: Name)
    ensures stk + [TEMP_CODE] + stub + [NUL] == stk + CodeOf(MakeTemp(stub))
  {
  }

  lemma CodesOf(a: Command, b: Command)
    ensures Codes([a, b]) == CodeOf(a) + CodeOf(b)
  {
    hide CodeOf;
    assert [a, b][1..] == [b];
    CodesOf1(b);
  }

  lemma CodesOf1(c: Command)
    ensures Codes([c]) == CodeOf(c)
  {
    hide CodeOf;
    assert Codes([c]) == CodeOf(c) + Codes([]);
  }

  lemma Regroup(s: seq<byte>, a: seq<byte>, b: seq<byte>, c: seq<byte>, d: seq<byte>)
    ensures s + a + b + c + d == s + (a + b + c + d)
  {
  }

  /** The loop for a chain: it stops where there is no orig. */
  method CodeToEnd(dir: Directory, stk: seq<byte>, ghost ds: seq<Directory>, ghost all: set<Directory>) returns (stk': seq<byte>)
    requires Walk(ds, all) && ds[0] == dir && ds[|ds| - 1].orig == null
    ensures stk' == stk + Codes(ChainCommands(Names(ds), 1))
  {
    hide Codes, CodeOf, ChainCommands;
    var p := dir;
    stk' := stk;
    ghost var k, goal := 0, stk + Codes(ChainCommands(Names(ds), 1));
    while p != null && p.orig != null
      invariant k < |ds| && p == ds[k] && Coding(ds, k, stk', goal)
      decreases |ds| - k
    {
      assert k + 1 < |ds| && Follows(ds[k], ds[k + 1]);
      CodeOne(ds, k, stk', goal);
      stk' := CodeRename(stk', p.orig.name, p.name);
      p, k := p.orig, k + 1;
    }
    LastOfWalk(ds, k, all);
    CodedAll(ds, k, stk', goal);
  }

  lemma LastOfWalk(ds: seq<Directory>, k: nat, all: set<Directory>)
    requires Walk(ds, all) && k < |ds| && ds[k].orig == null
    ensures k + 1 == |ds|
  {
    assert k < |ds| - 1 ==> Follows(ds[k], ds[k + 1]);
  }
}

/**
 * What createFoldersIfNecessary and createFileIfNecessary (src/utility/filesystem.cpp) add to the
 * tree: exactly, for a path without symlinks behind some folder, and when an existing node is
 * touched, for every path.
 */
module Creation {
  import opened Wrappers
  import opened FileTree
  import opened HostFiles
  import opened Text

  /** The number of elements of the shortest prefix of `p` that does not exist, or |p| + 1. */
  function FirstMissing(t: Tree, p: Path, from: nat): (n: nat)
    requires from <= |p| + 1
    ensures from <= n <= |p| + 1
    ensures forall i :: from <= i < n ==> p[..i] in t
    ensures n <= |p| ==> p[..n] !in t
    decreases |p| + 1 - from
  {
    if from == |p| + 1 || p[..from] !in t then from else FirstMissing(t, p, from + 1)
  }

  /** The deepest existing prefix of `p`. */
  function Deepest(t: Tree, p: Path): (d: Path)
    requires [] in t
    ensures d <= p && d in t
  {
    var n := FirstMissing(t, p, 0);
    assert p[..0] == [];
    p[..n - 1]
  }

  /**
   * Exactly the missing prefixes of `p` have been added, on the device of the deepest existing
   * one: as folders, or with `p` itself as a file.
   */
  ghost predicate NodesAdded(t: Tree, t': Tree, p: Path, owner: Owners, leafIsDir: bool)
    requires [] in t
  {
    && AddedUpTo(t, t', p, |p|, owner, leafIsDir)
    && p in t'
  }

  /** The same for the prefixes of up to m elements. */
  ghost predicate AddedUpTo(t: Tree, t': Tree, p: Path, m: nat, owner: Owners, leafIsDir: bool)
    requires [] in t && m <= |p|
  {
    && Extends(t, t')
    && (forall i :: 0 <= i <= m ==> p[..i] in t')
    && (forall q :: q in t' && q !in t ==> q <= p[..m] && NewNode(t, t', p, q, owner, leafIsDir))
  }

  /** What creation puts at prefix `q` of `p`: a folder, unless it is the file `p` itself. */
  function NodeAt(p: Path, q: Path, owner: Owners, dev: int, leafIsDir: bool): Node {
    if q == p && !leafIsDir then File(owner(q).uid, owner(q).gid, dev) else Dir(owner(q).uid, owner(q).gid, dev)
  }

  ghost predicate NewNode(t: Tree, t': Tree, p: Path, q: Path, owner: Owners, leafIsDir: bool)
    requires [] in t && q in t'
  {
    && IsDir(t, Deepest(t, p))
    && var dev := t[Deepest(t, p)].dev;
       t'[q] == NodeAt(p, q, owner, dev, leafIsDir)
  }

  lemma DeepestIs(t: Tree, p: Path, m: nat)
    requires WellFormed(t) && m <= |p| && p[..m] in t && (m < |p| ==> p[..m + 1] !in t)
    ensures Deepest(t, p) == p[..m]
  {
    forall i | 0 <= i <= m ensures p[..i] in t {
      if i < m {
        PrefixIsDir(t, p[..m], i);
        assert p[..m][..i] == p[..i];
      }
    }
    var n := FirstMissing(t, p, 0);
    assert n > m;
    assert m < |p| ==> n == m + 1;
  }

  /** The prefix of m + 1 elements is in t1 already, or has been added to it in t2. */
  ghost predicate PrefixAdded(t1: Tree, t2: Tree, p: Path, m: nat, owner: Owners, leafIsDir: bool)
    requires m < |p|
  {
    var q := p[..m + 1];
    if q in t1 then t2 == t1
    else
      && IsDir(t1, p[..m])
      && var dev := t1[p[..m]].dev;
         t2 == t1[q := NodeAt(p, q, owner, dev, leafIsDir)]
  }

  /** Adding the prefix of m + 1 elements, if it is missing. */
  lemma NextPrefix(t: Tree, t1: Tree, t2: Tree, p: Path, m: nat, owner: Owners, leafIsDir: bool)
    requires WellFormed(t) && m < |p| && AddedUpTo(t, t1, p, m, owner, leafIsDir)
    requires PrefixAdded(t1, t2, p, m, owner, leafIsDir)
    ensures AddedUpTo(t, t2, p, m + 1, owner, leafIsDir)
  {
    var q := p[..m + 1];
    assert p[..m] <= q;
    if q !in t1 {
      if p[..m] in t {
        DeepestIs(t, p, m);
      } else {
        assert NewNode(t, t1, p, p[..m], owner, leafIsDir);
      }
      assert NewNode(t, t2, p, q, owner, leafIsDir);
    }
    forall x | x in t2 && x !in t ensures x <= q && NewNode(t, t2, p, x, owner, leafIsDir) {
      if x != q || q in t1 {
        assert x in t1;
        assert NewNode(t, t1, p, x, owner, leafIsDir);
        PrefixTransitive(x, p[..m], q);
      }
    }
  }

  /** A prefix that is not a folder stops the creation before anything has been created. */
  lemma BlockedPrefix(t: Tree, t1: Tree, p: Path, m: nat, owner: Owners, leafIsDir: bool)
    requires WellFormed(t) && m < |p| && AddedUpTo(t, t1, p, m, owner, leafIsDir)
    requires p[..m + 1] !in t1 && !IsDir(t1, p[..m])
    ensures t1 == t && Deepest(t, p) == p[..m] && !IsDir(t, p[..m])
  {
    assert p[..m] in t1;
    assert p[..m] in t;
    DeepestIs(t, p, m);
    assert forall q :: q in t1 ==> q in t;
    assert t1.Keys == t.Keys;
  }

  lemma StaysCanonical(t: Tree, t1: Tree, p: Path, m: nat, owner: Owners, leafIsDir: bool)
    requires [] in t && m <= |p| && AddedUpTo(t, t1, p, m, owner, leafIsDir) && Canonical(t, p)
    ensures Canonical(t1, p)
  {
    forall i | 0 <= i <= |p| ensures !IsLink(t1, p[..i]) {
      if p[..i] in t1 && p[..i] !in t {
        assert NewNode(t, t1, p, p[..i], owner, leafIsDir);
      }
    }
  }

  /** No fault hits a missing prefix of up to m elements. */
  ghost predicate Unhindered(t: Tree, p: Path, m: nat, faultAt: Path -> Fault)
    requires m <= |p|
  {
    forall i :: 0 <= i <= m && p[..i] !in t ==> faultAt(p[..i]) == NoFault
  }

  /** `p` is there, or everything missing on the way to it can be made. */
  ghost predicate Creatable(t: Tree, p: Path, faultAt: Path -> Fault)
    requires [] in t
  {
    p in t || (IsDir(t, Deepest(t, p)) && Unhindered(t, p, |p|, faultAt))
  }

  /** All prefixes of up to m elements are there, and no fault stands in the way of a missing one. */
  ghost predicate Progress(t: Tree, t': Tree, p: Path, m: nat, owner: Owners, leafIsDir: bool, faultAt: Path -> Fault)
    requires [] in t
  {
    m <= |p| && AddedUpTo(t, t', p, m, owner, leafIsDir) && Unhindered(t, p, m, faultAt)
  }

  /**
   * Creation has stopped with `fault` at the prefix of m + 1 elements: the shorter ones are there, this
   * one is missing and was refused, because what it would lie in is no folder or by the system.
   */
  ghost predicate StoppedAt(t: Tree, t': Tree, p: Path, m: nat, owner: Owners, leafIsDir: bool,
                            faultAt: Path -> Fault, fault: Fault)
    requires [] in t
  {
    && m < |p| && AddedUpTo(t, t', p, m, owner, leafIsDir) && p[..m + 1] !in t'
    && (IsDir(t', p[..m]) ==> faultAt(p[..m + 1]) != NoFault)
    && fault == if IsDir(t', p[..m]) && (leafIsDir || m + 1 < |p|) then faultAt(p[..m + 1]) else ThrowsError
  }

  /** How creating `p` ends: normally exactly if it can be made, and otherwise at some prefix. */
  ghost predicate CreationEnds(t: Tree, t': Tree, p: Path, owner: Owners, leafIsDir: bool,
                               faultAt: Path -> Fault, fault: Fault)
    requires [] in t
  {
    && (fault == NoFault <==> Creatable(t, p, faultAt))
    && (fault == NoFault ==> NodesAdded(t, t', p, owner, leafIsDir))
    && (fault != NoFault ==> exists m: nat :: StoppedAt(t, t', p, m, owner, leafIsDir, faultAt, fault))
  }

  lemma StoppedIsNotCreatable(t: Tree, t': Tree, p: Path, m: nat, owner: Owners, leafIsDir: bool,
                              faultAt: Path -> Fault, fault: Fault)
    requires WellFormed(t) && StoppedAt(t, t', p, m, owner, leafIsDir, faultAt, fault)
    ensures !Creatable(t, p, faultAt)
  {
    if p in t {
      PrefixInTree(t, p, m + 1);
    }
    if !IsDir(t', p[..m]) {
      BlockedPrefix(t, t', p, m, owner, leafIsDir);
    }
  }

  lemma AddedIsCreatable(t: Tree, t': Tree, p: Path, owner: Owners, leafIsDir: bool, faultAt: Path -> Fault)
    requires WellFormed(t) && AddedUpTo(t, t', p, |p|, owner, leafIsDir) && Unhindered(t, p, |p|, faultAt)
    ensures NodesAdded(t, t', p, owner, leafIsDir) && Creatable(t, p, faultAt)
  {
    assert p[..|p|] == p;
    if p !in t {
      assert NewNode(t, t', p, p, owner, leafIsDir);
    }
  }

  lemma PrefixInTree(t: Tree, p: Path, n: nat)
    requires WellFormed(t) && p in t && n <= |p|
    ensures p[..n] in t
  {
    if n < |p| {
      PrefixIsDir(t, p, n);
    } else {
      assert p[..n] == p;
    }
  }

  // ----- Folders -----

  /** Where mkdir makes a folder behind `dir`. */
  lemma MkdirNamed(t: Tree, cwd: Path, dir: seq<Element>, rest: Path)
    requires WellFormed(t) && Names(t, cwd, dir, rest) && rest != []
    ensures var p := Named(t, cwd, dir, rest);
            p !in t ==> MkdirPlace(t, cwd, dir + rest) == if IsDir(t, Parent(p)) then Some(p) else None
  {
    var p := Named(t, cwd, dir, rest);
    var n := |rest| - 1;
    NamesPrefix(t, cwd, dir, rest, n);
    StatNamed(t, cwd, dir, rest[..n]);
    assert ParentEls(dir + rest) == dir + rest[..n];
    assert Parent(p) == Named(t, cwd, dir, rest[..n]);
    assert (dir + rest)[|dir + rest| - 1] == rest[n] == p[|p| - 1];
    assert Parent(p) + [p[|p| - 1]] == p;
  }

  /** All prefixes of up to m elements are there, or the creation has stopped at some prefix. */
  ghost predicate MadeUpTo(t: Tree, made: Made, p: Path, m: nat, owner: Owners, faultAt: Path -> Fault)
    requires [] in t
  {
    if made.fault == NoFault then Progress(t, made.tree, p, m, owner, true, faultAt)
    else exists k: nat :: StoppedAt(t, made.tree, p, k, owner, true, faultAt, made.fault)
  }

  /** One turn behind `dir`: the prefix is there or gets added, or the creation stops at it. */
  lemma FolderTurn(t: Tree, t1: Tree, env: Environment, dir: seq<Element>, rest: Path, j: nat, owner: Owners)
    requires WellFormed(t) && WellFormed(t1) && Names(t, env.cwd, dir, rest) && j < |rest|
    requires var p, m := Named(t, env.cwd, dir, rest), |Stat(t, env.cwd, dir).path| + j;
             Progress(t, t1, p, m, owner, true, env.faultAt)
    ensures var made := FolderMade(t1, env, dir + rest[..j + 1], owner);
            var p, m := Named(t, env.cwd, dir, rest), |Stat(t, env.cwd, dir).path| + j;
            MadeUpTo(t, made, p, m + 1, owner, env.faultAt)
  {
    var p, m := Named(t, env.cwd, dir, rest), |Stat(t, env.cwd, dir).path| + j;
    StaysCanonical(t, t1, p, m, owner, true);
    NamesStay(t, t1, env.cwd, dir, rest);
    NamesPrefix(t1, env.cwd, dir, rest, j + 1);
    StatNamed(t1, env.cwd, dir, rest[..j + 1]);
    MkdirNamed(t1, env.cwd, dir, rest[..j + 1]);
    assert Parent(p[..m + 1]) == p[..m];
    var made := FolderMade(t1, env, dir + rest[..j + 1], owner);
    if made.fault == NoFault {
      assert PrefixAdded(t1, made.tree, p, m, owner, true);
      NextPrefix(t, t1, made.tree, p, m, owner, true);
    } else {
      assert StoppedAt(t, made.tree, p, m, owner, true, env.faultAt, made.fault);
    }
  }

  /** The prefixes of `dir` are all there. */
  lemma {:induction false} NothingToMake(t: Tree, env: Environment, dir: seq<Element>, rest: Path, n: nat,
                                         owner: Owners)
    requires Exists(t, env.cwd, dir) && n <= |dir|
    ensures PrefixesMade(t, env, dir + rest, n, owner) == Made(t, NoFault)
  {
    if n > 0 {
      NothingToMake(t, env, dir, rest, n - 1, owner);
      NextTurn(t, env, dir + rest, n - 1, owner);
      assert (dir + rest)[..n] == dir[..n];
      PrefixExists(t, env.cwd, dir, n);
    }
  }

  lemma AllMade(t: Tree, made: Made, p: Path, owner: Owners, faultAt: Path -> Fault)
    requires WellFormed(t) && MadeUpTo(t, made, p, |p|, owner, faultAt)
    ensures CreationEnds(t, made.tree, p, owner, true, faultAt, made.fault)
  {
    if made.fault == NoFault {
      AddedIsCreatable(t, made.tree, p, owner, true, faultAt);
    } else {
      var m: nat :| StoppedAt(t, made.tree, p, m, owner, true, faultAt, made.fault);
      StoppedIsNotCreatable(t, made.tree, p, m, owner, true, faultAt, made.fault);
    }
  }

  lemma ProgressStarts(t: Tree, p: Path, m: nat, owner: Owners, faultAt: Path -> Fault)
    requires WellFormed(t) && m <= |p| && p[..m] in t
    ensures Progress(t, t, p, m, owner, true, faultAt)
  {
    forall i | 0 <= i <= m ensures p[..i] in t {
      PrefixInTree(t, p[..m], i);
      assert p[..i] == p[..m][..i];
    }
  }

  /** What the turns up to element j behind `dir` have made. */
  ghost predicate NamedUpTo(t: Tree, env: Environment, dir: seq<Element>, rest: Path, j: nat, owner: Owners)
    requires [] in t && Exists(t, env.cwd, dir) && j <= |rest|
  {
    var d := Stat(t, env.cwd, dir).path;
    MadeUpTo(t, PrefixesMade(t, env, dir + rest, |dir| + j, owner), d + rest, |d| + j, owner, env.faultAt)
  }

  lemma NothingNamed(t: Tree, env: Environment, dir: seq<Element>, rest: Path, owner: Owners)
    requires WellFormed(t) && Names(t, env.cwd, dir, rest)
    ensures NamedUpTo(t, env, dir, rest, 0, owner)
  {
    NothingToMake(t, env, dir, rest, |dir|, owner);
    var d := Stat(t, env.cwd, dir).path;
    assert (d + rest)[..|d|] == d;
    ProgressStarts(t, d + rest, |d|, owner, env.faultAt);
  }

  lemma NextIsMade(t: Tree, env: Environment, dir: seq<Element>, rest: Path, j: nat, owner: Owners,
                   before: Made, made: Made)
    requires WellFormed(t) && Names(t, env.cwd, dir, rest) && j < |rest| && WellFormed(before.tree)
    requires MadeUpTo(t, before, Named(t, env.cwd, dir, rest), |Stat(t, env.cwd, dir).path| + j, owner, env.faultAt)
    requires made == if before.fault != NoFault then before
                     else FolderMade(before.tree, env, dir + rest[..j + 1], owner)
    ensures MadeUpTo(t, made, Named(t, env.cwd, dir, rest), |Stat(t, env.cwd, dir).path| + j + 1, owner, env.faultAt)
  {
    if before.fault == NoFault {
      FolderTurn(t, before.tree, env, dir, rest, j, owner);
    }
  }

  lemma NextNamed(t: Tree, env: Environment, dir: seq<Element>, rest: Path, j: nat, owner: Owners)
    requires WellFormed(t) && Names(t, env.cwd, dir, rest) && j < |rest| && NamedUpTo(t, env, dir, rest, j, owner)
    ensures NamedUpTo(t, env, dir, rest, j + 1, owner)
  {
    var n := |dir| + j;
    var before := PrefixesMade(t, env, dir + rest, n, owner);
    PrefixesMadeKeep(t, env, dir + rest, n, owner);
    NextTurn(t, env, dir + rest, n, owner);
    assert (dir + rest)[..n + 1] == dir + rest[..j + 1] && n + 1 == |dir| + (j + 1);
    NextIsMade(t, env, dir, rest, j, owner, before, PrefixesMade(t, env, dir + rest, n + 1, owner));
  }

  lemma {:induction false} PrefixesNamed(t: Tree, env: Environment, dir: seq<Element>, rest: Path, j: nat,
                                         owner: Owners)
    requires WellFormed(t) && Names(t, env.cwd, dir, rest) && j <= |rest|
    ensures NamedUpTo(t, env, dir, rest, j, owner)
    decreases j
  {
    if j == 0 {
      NothingNamed(t, env, dir, rest, owner);
    } else {
      PrefixesNamed(t, env, dir, rest, j - 1, owner);
      NextNamed(t, env, dir, rest, j - 1, owner);
    }
  }

  lemma AllNamed(t: Tree, env: Environment, dir: seq<Element>, rest: Path, owner: Owners)
    requires WellFormed(t) && Exists(t, env.cwd, dir) && NamedUpTo(t, env, dir, rest, |rest|, owner)
    ensures var made := PrefixesMade(t, env, dir + rest, |dir| + |rest|, owner);
            CreationEnds(t, made.tree, Named(t, env.cwd, dir, rest), owner, true, env.faultAt, made.fault)
  {
    var p := Named(t, env.cwd, dir, rest);
    assert |p| == |Stat(t, env.cwd, dir).path| + |rest|;
    AllMade(t, PrefixesMade(t, env, dir + rest, |dir| + |rest|, owner), p, owner, env.faultAt);
  }

  lemma NamedNeverLoops(t: Tree, cwd: Path, dir: seq<Element>, rest: Path)
    requires WellFormed(t) && Names(t, cwd, dir, rest)
    ensures !Loops(t, cwd, dir + rest)
  {
    StatNamed(t, cwd, dir, rest);
  }

  lemma AllTurns(t: Tree, env: Environment, path: seq<Element>, n: nat, owner: Owners)
    requires !Loops(t, env.cwd, path) && n == |path|
    ensures FoldersMade(t, env, path, owner) == PrefixesMade(t, env, path, n, owner)
  {
  }

  /**
   * For a path without symlinks behind an existing folder, createFoldersIfNecessary makes exactly the
   * missing prefixes, or the first of them up to one that is refused.
   */
  lemma FoldersNamed(t: Tree, env: Environment, dir: seq<Element>, rest: Path, owner: Owners)
    requires WellFormed(t) && Names(t, env.cwd, dir, rest)
    ensures var made := FoldersMade(t, env, dir + rest, owner);
            CreationEnds(t, made.tree, Named(t, env.cwd, dir, rest), owner, true, env.faultAt, made.fault)
  {
    NamedNeverLoops(t, env.cwd, dir, rest);
    AllTurns(t, env, dir + rest, |dir| + |rest|, owner);
    PrefixesNamed(t, env, dir, rest, |rest|, owner);
    AllNamed(t, env, dir, rest, owner);
  }

  // ----- A file -----

  lemma DeepestOfParent(t: Tree, p: Path)
    requires WellFormed(t) && p != [] && p !in t
    ensures Deepest(t, p) == Deepest(t, Parent(p))
  {
    var d := Deepest(t, Parent(p));
    var m := |d|;
    assert Parent(p)[..m] == d == p[..m];
    var n := FirstMissing(t, Parent(p), 0);
    if n <= |Parent(p)| {
      assert Parent(p)[..n] == p[..n];
    } else {
      assert p[..m + 1] == p;
    }
    DeepestIs(t, p, m);
  }

  /** Creating the folders above a new file is creating the file up to its parent. */
  lemma AboveTheLeaf(t: Tree, t1: Tree, p: Path, m: nat, owner: Owners)
    requires WellFormed(t) && p != [] && p !in t && m < |p|
    requires AddedUpTo(t, t1, Parent(p), m, owner, true)
    ensures AddedUpTo(t, t1, p, m, owner, false)
  {
    var f := Parent(p);
    DeepestOfParent(t, p);
    forall i | 0 <= i <= m ensures p[..i] in t1 {
      assert p[..i] == f[..i];
    }
    forall q | q in t1 && q !in t ensures q <= p[..m] && NewNode(t, t1, p, q, owner, false) {
      assert NewNode(t, t1, f, q, owner, true);
      assert p[..m] == f[..m];
    }
  }

  lemma ParentCreated(t: Tree, t1: Tree, p: Path, owner: Owners, faultAt: Path -> Fault)
    requires WellFormed(t) && p != [] && p !in t
    requires Creatable(t, Parent(p), faultAt) && NodesAdded(t, t1, Parent(p), owner, true)
    ensures Progress(t, t1, p, |p| - 1, owner, false, faultAt)
  {
    var f := Parent(p);
    AboveTheLeaf(t, t1, p, |f|, owner);
    forall i | 0 <= i <= |f| && p[..i] !in t ensures faultAt(p[..i]) == NoFault {
      assert p[..i] == f[..i];
      if f in t {
        PrefixInTree(t, f, i);
      }
    }
  }

  lemma ParentStopped(t: Tree, t1: Tree, p: Path, m: nat, owner: Owners, faultAt: Path -> Fault, fault: Fault)
    requires WellFormed(t) && p != [] && p !in t && fault != NoFault
    requires StoppedAt(t, t1, Parent(p), m, owner, true, faultAt, fault)
    ensures CreationEnds(t, t1, p, owner, false, faultAt, fault)
  {
    var f := Parent(p);
    AboveTheLeaf(t, t1, p, m, owner);
    assert p[..m] == f[..m] && p[..m + 1] == f[..m + 1];
    assert StoppedAt(t, t1, p, m, owner, false, faultAt, fault);
    StoppedIsNotCreatable(t, t1, p, m, owner, false, faultAt, fault);
  }

  lemma ParentCreation(t: Tree, t1: Tree, p: Path, owner: Owners, faultAt: Path -> Fault, fault: Fault)
    requires WellFormed(t) && p != [] && p !in t
    requires CreationEnds(t, t1, Parent(p), owner, true, faultAt, fault)
    ensures fault == NoFault ==> Progress(t, t1, p, |p| - 1, owner, false, faultAt)
    ensures fault != NoFault ==> CreationEnds(t, t1, p, owner, false, faultAt, fault)
  {
    if fault == NoFault {
      ParentCreated(t, t1, p, owner, faultAt);
    } else {
      var m: nat :| StoppedAt(t, t1, Parent(p), m, owner, true, faultAt, fault);
      ParentStopped(t, t1, p, m, owner, faultAt, fault);
    }
  }

  /** There is nothing to create for what exists. */
  lemma ExistingIsMade(t: Tree, p: Path, owner: Owners, faultAt: Path -> Fault)
    requires WellFormed(t) && p in t
    ensures CreationEnds(t, t, p, owner, false, faultAt, NoFault)
  {
    forall i | 0 <= i <= |p| ensures p[..i] in t {
      PrefixInTree(t, p, i);
    }
  }

  /** The folders above a missing file behind `dir`. */
  lemma ParentNamed(t: Tree, env: Environment, dir: seq<Element>, rest: Path, owner: Owners)
    requires WellFormed(t) && Names(t, env.cwd, dir, rest) && rest != [] && Named(t, env.cwd, dir, rest) !in t
    ensures var made := ParentMade(t, env, dir + rest, owner);
            var p := Named(t, env.cwd, dir, rest);
            if made.fault == NoFault then Progress(t, made.tree, p, |p| - 1, owner, false, env.faultAt)
            else CreationEnds(t, made.tree, p, owner, false, env.faultAt, made.fault)
  {
    var p := Named(t, env.cwd, dir, rest);
    var n := |rest| - 1;
    NamesPrefix(t, env.cwd, dir, rest, n);
    StatNamed(t, env.cwd, dir, rest[..n]);
    assert ParentEls(dir + rest) == dir + rest[..n];
    assert Parent(p) == Named(t, env.cwd, dir, rest[..n]);
    if Exists(t, env.cwd, dir + rest[..n]) {
      forall i | 0 <= i <= |p| - 1 ensures p[..i] in t {
        PrefixInTree(t, Parent(p), i);
        assert p[..i] == Parent(p)[..i];
      }
    } else {
      FoldersNamed(t, env, dir, rest[..n], owner);
      var made := FoldersMade(t, env, dir + rest[..n], owner);
      ParentCreation(t, made.tree, p, owner, env.faultAt, made.fault);
    }
  }

  /** The file itself, once its folders are there. */
  lemma LeafNamed(t: Tree, t1: Tree, env: Environment, dir: seq<Element>, rest: Path, uid: nat, gid: nat)
    requires WellFormed(t) && WellFormed(t1) && Names(t, env.cwd, dir, rest)
    requires rest != [] && Named(t, env.cwd, dir, rest) !in t
    requires var p := Named(t, env.cwd, dir, rest);
             Progress(t, t1, p, |p| - 1, OwnersFor(env, uid, gid), false, env.faultAt)
    ensures var made := FileOpened(t1, env, dir + rest, uid, gid);
            CreationEnds(t, made.tree, Named(t, env.cwd, dir, rest), OwnersFor(env, uid, gid), false,
                         env.faultAt, made.fault)
  {
    var p, owner := Named(t, env.cwd, dir, rest), OwnersFor(env, uid, gid);
    var m := |p| - 1;
    StaysCanonical(t, t1, p, m, owner, false);
    NamesStay(t, t1, env.cwd, dir, rest);
    StatNamed(t1, env.cwd, dir, rest);
    assert p[..m] == Parent(p) && p[..m + 1] == p;
    var made := FileOpened(t1, env, dir + rest, uid, gid);
    if made.fault == NoFault {
      assert PrefixAdded(t1, made.tree, p, m, owner, false);
      NextPrefix(t, t1, made.tree, p, m, owner, false);
      AddedIsCreatable(t, made.tree, p, owner, false, env.faultAt);
    } else {
      assert StoppedAt(t, made.tree, p, m, owner, false, env.faultAt, ThrowsError);
      StoppedIsNotCreatable(t, made.tree, p, m, owner, false, env.faultAt, ThrowsError);
    }
  }

  /** The same for createFileIfNecessary; the folders made before an open that fails stay. */
  lemma FileNamed(t: Tree, env: Environment, dir: seq<Element>, rest: Path, uid: nat, gid: nat)
    requires WellFormed(t) && Names(t, env.cwd, dir, rest)
    ensures var made := FileMade(t, env, dir + rest, uid, gid);
            CreationEnds(t, made.tree, Named(t, env.cwd, dir, rest), OwnersFor(env, uid, gid), false,
                         env.faultAt, made.fault)
  {
    var p, owner := Named(t, env.cwd, dir, rest), OwnersFor(env, uid, gid);
    StatNamed(t, env.cwd, dir, rest);
    if p in t {
      ExistingIsMade(t, p, owner, env.faultAt);
    } else {
      var d := Stat(t, env.cwd, dir).path;
      assert d + [] == d;
      ParentNamed(t, env, dir, rest, owner);
      ParentMadeKeeps(t, env, dir + rest, owner);
      var above := ParentMade(t, env, dir + rest, owner);
      if above.fault == NoFault {
        LeafNamed(t, above.tree, env, dir, rest, uid, gid);
      }
    }
  }

  // ----- Existing nodes, for every path -----

  /** The file to open has been reached only because of the folders that were made, and gets another owner. */
  ghost predicate Redirected(t: Tree, env: Environment, path: seq<Element>, uid: nat, gid: nat) {
    && !Loops(t, env.cwd, path) && !Exists(t, env.cwd, path)
    && var above := ParentMade(t, env, path, OwnersFor(env, uid, gid));
       && above.fault == NoFault && Opens(above.tree, env, path)
       && match Stat(above.tree, env.cwd, path)
          case Found(q) =>
            q in t && t[q].File? && GivenAway(env, q, uid, gid) && Owner(t[q].uid, t[q].gid) != Owner(uid, gid)
          case _ => false
  }

  /** Exactly then createFileIfNecessary does not leave every existing node as it is. */
  lemma ExistingNodeChangesIff(t: Tree, env: Environment, path: seq<Element>, uid: nat, gid: nat)
    requires WellFormed(t)
    ensures !Extends(t, FileMade(t, env, path, uid, gid).tree) <==> Redirected(t, env, path, uid, gid)
  {
    var above := ParentMade(t, env, path, OwnersFor(env, uid, gid));
    ParentMadeKeeps(t, env, path, OwnersFor(env, uid, gid));
    match Stat(above.tree, env.cwd, path)
    case Found(q) => {
      if q in t && above.tree[q].File? {
        var t' := Chown(above.tree, q, Owner(uid, gid));
        assert t'[q] == t[q] <==> Owner(t[q].uid, t[q].gid) == Owner(uid, gid);
        assert forall x :: x in t && x != q ==> t'[x] == t[x];
      }
    }
    case _ =>
  }

  /** A path that does not go up. */
  predicate NeverUp(path: seq<Element>) {
    forall i :: 0 <= i < |path| ==> path[i] != ".."
  }

  ghost predicate Bare(t: Tree, d: Path) {
    IsDir(t, d) && forall e: Element :: d + [e] !in t
  }

  /** Either nothing has been made yet, or the path so far leads to a folder that is new and empty. */
  ghost predicate InNewFolder(t: Tree, t1: Tree, cwd: Path, els: seq<Element>) {
    t1 == t || (Exists(t1, cwd, els) && Stat(t1, cwd, els).path !in t && Bare(t1, Stat(t1, cwd, els).path))
  }

  /** Where looking one more name up leads from an empty folder. */
  lemma NothingInBare(t: Tree, cwd: Path, els: seq<Element>, e: Element)
    requires els != [] && Exists(t, cwd, els) && Bare(t, Stat(t, cwd, els).path) && e != ".."
    ensures var d := Stat(t, cwd, els).path;
            Stat(t, cwd, els + [e]) == if Plain(e) then Vacant(d + [e]) else Found(d)
  {
    var left := WalkSplits(t, Anywhere, Start(cwd, els), els, [e], MAX_LINKS);
    assert Start(cwd, els + [e]) == Start(cwd, els);
    assert [e][1..] == [];
  }

  lemma NewFolderIsBare(t: Tree, cwd: Path, els: seq<Element>, owner: Owner)
    requires WellFormed(t) && els != [] && MkdirPlace(t, cwd, els).Some?
    ensures Bare(FolderAdded(t, MkdirPlace(t, cwd, els).value, owner), MkdirPlace(t, cwd, els).value)
  {
    var q := MkdirPlace(t, cwd, els).value;
    forall e: Element ensures q + [e] !in FolderAdded(t, q, owner) {
      assert Parent(q + [e]) == q;
      assert Anchored(t, q + [e]);
    }
  }

  /** One turn keeps it that way. */
  lemma StaysInNewFolder(t: Tree, t1: Tree, env: Environment, els: seq<Element>, e: Element, owner: Owners)
    requires WellFormed(t) && WellFormed(t1) && Extends(t, t1) && e != ".." && (els == [] ==> t1 == t)
    requires InNewFolder(t, t1, env.cwd, els) && FolderMade(t1, env, els + [e], owner).fault == NoFault
    ensures InNewFolder(t, FolderMade(t1, env, els + [e], owner).tree, env.cwd, els + [e])
  {
    if Exists(t1, env.cwd, els + [e]) {
      if t1 != t {
        NothingInBare(t1, env.cwd, els, e);
      }
    } else {
      var q := MkdirPlace(t1, env.cwd, els + [e]).value;
      FolderFound(t1, env.cwd, els + [e], owner(q));
      NewFolderIsBare(t1, env.cwd, els + [e], owner(q));
    }
  }

  lemma NextNewFolder(t: Tree, env: Environment, path: seq<Element>, n: nat, owner: Owners)
    requires WellFormed(t) && NeverUp(path) && n < |path| && PrefixesMade(t, env, path, n + 1, owner).fault == NoFault
    requires InNewFolder(t, PrefixesMade(t, env, path, n, owner).tree, env.cwd, path[..n])
    ensures InNewFolder(t, PrefixesMade(t, env, path, n + 1, owner).tree, env.cwd, path[..n + 1])
  {
    NextTurn(t, env, path, n, owner);
    PrefixesMadeKeep(t, env, path, n, owner);
    assert path[..n + 1] == path[..n] + [path[n]];
    StaysInNewFolder(t, PrefixesMade(t, env, path, n, owner).tree, env, path[..n], path[n], owner);
  }

  lemma {:induction false} GoesIntoNewFolders(t: Tree, env: Environment, path: seq<Element>, n: nat, owner: Owners)
    requires WellFormed(t) && NeverUp(path) && n <= |path| && PrefixesMade(t, env, path, n, owner).fault == NoFault
    ensures InNewFolder(t, PrefixesMade(t, env, path, n, owner).tree, env.cwd, path[..n])
  {
    if n > 0 {
      GoesIntoNewFolders(t, env, path, n - 1, owner);
      NextNewFolder(t, env, path, n - 1, owner);
    }
  }

  /** Without ".." in the path, every existing node stays as it is, whatever the outcome. */
  lemma WithoutDotDotNothingChanges(t: Tree, env: Environment, path: seq<Element>, uid: nat, gid: nat)
    requires WellFormed(t) && NeverUp(path)
    ensures Extends(t, FileMade(t, env, path, uid, gid).tree)
  {
    ExistingNodeChangesIff(t, env, path, uid, gid);
    if Redirected(t, env, path, uid, gid) {
      var owner := OwnersFor(env, uid, gid);
      var t1 := ParentMade(t, env, path, owner).tree;
      var parent := ParentEls(path);
      assert path == parent + [path[|path| - 1]];
      GoesIntoNewFolders(t, env, parent, |parent|, owner);
      assert parent[..|parent|] == parent;
      if t1 != t {
        NothingInBare(t1, env.cwd, parent, path[|path| - 1]);
      }
      assert false;
    }
  }

  /** A file system with one file, /p, owned by root. */
  function LoneFile(): Tree {
    map[[] := Dir(0, 0, 0), ["p"] := File(0, 0, 0)]
  }

  /** Creating /m/../p there for a user makes the folder /m and gives the existing /p to the user. */
  lemma ExistingFileIsGivenAway(env: Environment, uid: nat, gid: nat)
    requires uid != NO_ID && gid != NO_ID && Owner(uid, gid) != Owner(0, 0)
    requires env.faultAt(["m"]) == NoFault && env.faultAt(["p"]) == NoFault && env.chownWorks(["p"])
    ensures WellFormed(LoneFile())
    ensures var made := FileMade(LoneFile(), env, ["/", "m", "..", "p"], uid, gid);
            && made.fault == NoFault && ["m"] in made.tree
            && (env.chownWorks(["m"]) ==> made.tree[["m"]] == Dir(uid, gid, 0))
            && ["p"] in made.tree && made.tree[["p"]] == File(uid, gid, 0)
  {
    var t, owner := LoneFile(), OwnersFor(env, uid, gid);
    var path, parent := ["/", "m", "..", "p"], ["/", "m", ".."];
    var t1 := t[["m"] := Dir(owner(["m"]).uid, owner(["m"]).gid, 0)];
    LoneLookups(env.cwd);
    NewLookups(t1, env.cwd, path, parent);
    FolderBesideLoneFile(env, owner, parent, t1);
    assert ParentEls(path) == parent;
    assert ParentMade(t, env, path, owner) == Made(t1, NoFault);
    assert FileMade(t, env, path, uid, gid) == FileOpened(t1, env, path, uid, gid);
  }

  lemma FolderBesideLoneFile(env: Environment, owner: Owners, parent: seq<Element>, t1: Tree)
    requires parent == ["/", "m", ".."] && env.faultAt(["m"]) == NoFault
    requires t1 == LoneFile()[["m"] := Dir(owner(["m"]).uid, owner(["m"]).gid, 0)]
    ensures FoldersMade(LoneFile(), env, parent, owner) == Made(t1, NoFault)
  {
    var t := LoneFile();
    LoneLookups(env.cwd);
    NewLookups(t1, env.cwd, parent + ["p"], parent);
    assert parent[..1] == ["/"] && parent[..2] == ["/", "m"] && parent[..3] == parent;
    assert PrefixesMade(t, env, parent, 0, owner) == Made(t, NoFault);
    assert PrefixesMade(t, env, parent, 1, owner) == Made(t, NoFault);
    assert PrefixesMade(t, env, parent, 2, owner) == Made(t1, NoFault) by {
      assert ParentEls(["/", "m"]) == ["/"] && ["/", "m"][1] == "m" && [] + ["m"] == ["m"];
      assert MkdirPlace(t, env.cwd, ["/", "m"]) == Some(["m"]);
      assert FolderAdded(t, ["m"], owner(["m"])) == t1;
    }
    assert PrefixesMade(t, env, parent, 3, owner) == Made(t1, NoFault);
  }

  lemma LoneLookups(cwd: Path)
    ensures var t := LoneFile();
            && WellFormed(t) && Stat(t, cwd, ["/"]) == Found([]) && Stat(t, cwd, ["/", "m"]) == Vacant(["m"])
            && Stat(t, cwd, ["/", "m", ".."]) == Fails && Stat(t, cwd, ["/", "m", "..", "p"]) == Fails
            && !Loops(t, cwd, ["/"]) && !Loops(t, cwd, ["/", "m"])
            && !Loops(t, cwd, ["/", "m", ".."]) && !Loops(t, cwd, ["/", "m", "..", "p"])
  {
    var t := LoneFile();
    assert [] + ["m"] == ["m"];
    assert ["/"][1..] == [] && ["/", "m"][1..] == ["m"] && ["m"][1..] == [];
    assert ["/", "m", ".."][1..] == ["m", ".."] && ["m", ".."][1..] == [".."];
    assert ["/", "m", "..", "p"][1..] == ["m", "..", "p"] && ["m", "..", "p"][1..] == ["..", "p"];
  }

  lemma NewLookups(t: Tree, cwd: Path, path: seq<Element>, parent: seq<Element>)
    requires ["m"] in t && t[["m"]].Dir? && [] in t && t[[]].Dir? && ["p"] in t && t[["p"]].File?
    requires path == ["/", "m", "..", "p"] && parent == ["/", "m", ".."]
    ensures Stat(t, cwd, parent) == Found([]) && Stat(t, cwd, path) == Found(["p"])
    ensures !Loops(t, cwd, parent) && !Loops(t, cwd, path)
  {
    assert [] + ["m"] == ["m"] && [] + ["p"] == ["p"] && Parent(["m"]) == [];
    assert parent[1..] == ["m", ".."] && parent[1..][1..] == [".."] && parent[1..][1..][1..] == [];
    assert path[1..] == ["m", "..", "p"] && path[1..][1..] == ["..", "p"] && path[1..][1..][1..] == ["p"];
    assert path[1..][1..][1..][1..] == [];
    assert KernelWalk(t, [], ["p"], MAX_LINKS) == Found(["p"]);
    assert KernelWalk(t, ["m"], ["..", "p"], MAX_LINKS) == Found(["p"]);
    assert KernelWalk(t, [], ["m", "..", "p"], MAX_LINKS) == Found(["p"]);
    assert KernelWalk(t, ["m"], [".."], MAX_LINKS) == Found([]);
    FoundIsNotRefused(t, [], parent, MAX_LINKS);
    FoundIsNotRefused(t, [], path, MAX_LINKS);
  }

  /** With -1 for an id, every existing node stays as it is. */
  lemma NoOwnerNothingChanges(t: Tree, env: Environment, path: seq<Element>, uid: nat, gid: nat)
    requires WellFormed(t) && (uid == 0xFFFF_FFFF || gid == 0xFFFF_FFFF)
    ensures Extends(t, FileMade(t, env, path, uid, gid).tree)
  {
    ExistingNodeChangesIff(t, env, path, uid, gid);
  }

  /** What looking the path up refuses, and what is there already, leaves the tree alone. */
  lemma NothingToDo(t: Tree, env: Environment, path: seq<Element>, uid: nat, gid: nat)
    requires WellFormed(t)
    ensures Loops(t, env.cwd, path) ==>
              && FileMade(t, env, path, uid, gid) == Made(t, ThrowsOther)
              && FoldersMade(t, env, path, OwnersFor(env, uid, gid)) == Made(t, ThrowsOther)
    ensures Exists(t, env.cwd, path) ==>
              && FileMade(t, env, path, uid, gid) == Made(t, NoFault)
              && FoldersMade(t, env, path, OwnersFor(env, uid, gid)) == Made(t, NoFault)
  {
    if Exists(t, env.cwd, path) {
      FoundIsNotRefused(t, Start(env.cwd, path), path, MAX_LINKS);
      NothingToMake(t, env, path, [], |path|, OwnersFor(env, uid, gid));
      assert path + [] == path;
    }
  }
}

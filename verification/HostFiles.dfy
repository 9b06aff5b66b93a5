/**
 * Looking up and creating files on the host (src/utility/filesystem.cpp): the system calls, and
 * what libsarus makes of them as functions of the tree.
 *
 * Paths are given by their elements and looked up by the kernel's walk, with its limit on
 * symlinks; a relative path starts at the working directory.  Nobody else changes the tree
 * during a call.
 */
module HostFiles {
  import opened Wrappers
  import opened FileTree

  /** `static_cast<uid_t>(-1)`: leave the owner alone. */
  const NO_ID: nat := 0xFFFF_FFFF

  datatype Owner = Owner(uid: nat, gid: nat)

  /** The owner each new node ends up with. */
  type Owners = Path -> Owner

  /** Where looking a path up starts. */
  function Start(cwd: Path, els: seq<Element>): Path {
    if IsAbsolute(els) then [] else cwd
  }

  /** stat(2) on a path: the node it leads to, or the place where it could be created. */
  function Stat(t: Tree, cwd: Path, els: seq<Element>): Walk {
    if els == [] then Fails
    else KernelWalk(t, Start(cwd, els), els, MAX_LINKS)
  }

  /** The walk starts at the root for a path that starts with "/", and may follow 40 symlinks. */
  lemma StatIs(t: Tree, cwd: Path, els: seq<Element>)
    ensures Stat(t, cwd, []) == Fails
    ensures els != [] ==> Stat(t, cwd, els) == KernelWalk(t, if els[0] == "/" then [] else cwd, els, 40)
    ensures els != [] ==> (Loops(t, cwd, els) <==> Refused(t, _ => true, if els[0] == "/" then [] else cwd, els, 40))
  {
    SamePermissions(t, Anywhere, _ => true, Start(cwd, els), els, MAX_LINKS);
  }

  predicate Exists(t: Tree, cwd: Path, els: seq<Element>) {
    Stat(t, cwd, els).Found?
  }

  /** stat(2) gives neither a node nor "no such file": boost's `exists` throws an exception of its own. */
  predicate StatRefused(t: Tree, canSearch: Path -> bool, cwd: Path, els: seq<Element>) {
    els != [] && Refused(t, canSearch, Start(cwd, els), els, MAX_LINKS)
  }

  /** What this can be for the superuser: too many symlinks. */
  predicate Loops(t: Tree, cwd: Path, els: seq<Element>) {
    StatRefused(t, Anywhere, cwd, els)
  }

  function ParentEls(els: seq<Element>): seq<Element>
    requires els != []
  {
    els[..|els| - 1]
  }

  /** Everything that was there is still there, unchanged. */
  ghost predicate Extends(t: Tree, t': Tree) {
    forall p :: p in t ==> p in t' && t'[p] == t[p]
  }

  /** Everything that was there still is, and what is new are folders with these owners. */
  ghost predicate OnlyFoldersAdded(t: Tree, t': Tree, owner: Owners) {
    && Extends(t, t')
    && forall p :: p in t' && p !in t ==> t'[p].Dir? && t'[p].uid == owner(p).uid && t'[p].gid == owner(p).gid
  }

  // ----- The walk under growth -----

  lemma {:induction false} WalkSurvivesGrowth(t: Tree, t': Tree, cur: Path, work: seq<Element>, links: nat)
    requires Extends(t, t') && KernelWalk(t, cur, work, links).Found?
    ensures KernelWalk(t', cur, work, links) == KernelWalk(t, cur, work, links)
    decreases links, |work|
  {
    if work != [] {
      var e, rest := work[0], work[1..];
      if e == "/" || e == "." {
        WalkSurvivesGrowth(t, t', cur, rest, links);
      } else if e == ".." {
        WalkSurvivesGrowth(t, t', Parent(cur), rest, links);
      } else if t[cur + [e]].Symlink? {
        WalkSurvivesGrowth(t, t', LinkBase(t, cur + [e]), t[cur + [e]].target + rest, links - 1);
      } else {
        WalkSurvivesGrowth(t, t', cur + [e], rest, links);
      }
    }
  }

  /** What is made at the end of a walk is found by it. */
  lemma {:induction false} VacantIsFound(t: Tree, cur: Path, work: seq<Element>, links: nat, node: Node)
    requires KernelWalk(t, cur, work, links).Vacant? && !node.Symlink?
    ensures var q := KernelWalk(t, cur, work, links).path;
            KernelWalk(t[q := node], cur, work, links) == Found(q)
    decreases links, |work|
  {
    var e, rest := work[0], work[1..];
    if e == "/" || e == "." {
      VacantIsFound(t, cur, rest, links, node);
    } else if e == ".." {
      VacantIsFound(t, Parent(cur), rest, links, node);
    } else if cur + [e] in t && t[cur + [e]].Symlink? {
      VacantIsFound(t, LinkBase(t, cur + [e]), t[cur + [e]].target + rest, links - 1, node);
    } else if cur + [e] in t {
      VacantIsFound(t, cur + [e], rest, links, node);
    }
  }

  lemma CanonicalPrefix(t: Tree, p: Path, n: nat)
    requires Canonical(t, p) && n <= |p|
    ensures Canonical(t, p[..n])
  {
    forall i | 0 <= i <= n ensures !IsLink(t, p[..n][..i]) {
      assert p[..n][..i] == p[..i];
    }
  }

  // ----- Paths behind a folder that may be reached through symlinks -----

  /** Where `dir` leads, and from there `rest`, with no symlink on the way behind `dir`. */
  ghost predicate Names(t: Tree, cwd: Path, dir: seq<Element>, rest: Path) {
    Exists(t, cwd, dir) && Canonical(t, Stat(t, cwd, dir).path + rest)
  }

  function Named(t: Tree, cwd: Path, dir: seq<Element>, rest: Path): Path
    requires Exists(t, cwd, dir)
  {
    Stat(t, cwd, dir).path + rest
  }

  /** Stat on such a path. */
  lemma StatNamed(t: Tree, cwd: Path, dir: seq<Element>, rest: Path)
    requires WellFormed(t) && Names(t, cwd, dir, rest)
    ensures var p := Named(t, cwd, dir, rest);
            && Stat(t, cwd, dir + rest) ==
               (if p in t then Found(p) else if IsDir(t, Parent(p)) then Vacant(p) else Fails)
            && !Loops(t, cwd, dir + rest)
  {
    var d := Stat(t, cwd, dir).path;
    var p := d + rest;
    assert Start(cwd, dir + rest) == Start(cwd, dir);
    var left := WalkSplits(t, Anywhere, Start(cwd, dir), dir, rest, MAX_LINKS);
    FoundIsNotRefused(t, Start(cwd, dir), dir, MAX_LINKS);
    WalkCanonical(t, d, rest, left);
    VisibleIsCanonical(t, Anywhere, p);
    RefusedCanonical(t, Anywhere, d, rest, left);
  }

  /** What leads to something is found at every prefix. */
  lemma PrefixExists(t: Tree, cwd: Path, dir: seq<Element>, n: nat)
    requires Exists(t, cwd, dir) && 0 < n <= |dir|
    ensures Exists(t, cwd, dir[..n]) && !Loops(t, cwd, dir[..n])
  {
    assert dir[..n] + dir[n..] == dir && Start(cwd, dir[..n]) == Start(cwd, dir);
    FirstPartIsFound(t, Start(cwd, dir), dir[..n], dir[n..], MAX_LINKS);
    FoundIsNotRefused(t, Start(cwd, dir), dir[..n], MAX_LINKS);
  }

  lemma NamesPrefix(t: Tree, cwd: Path, dir: seq<Element>, rest: Path, n: nat)
    requires Names(t, cwd, dir, rest) && n <= |rest|
    ensures Names(t, cwd, dir, rest[..n])
    ensures Named(t, cwd, dir, rest[..n]) == Named(t, cwd, dir, rest)[..|Stat(t, cwd, dir).path| + n]
  {
    var d := Stat(t, cwd, dir).path;
    assert d + rest[..n] == (d + rest)[..|d| + n];
    CanonicalPrefix(t, d + rest, |d| + n);
  }

  lemma NamesStay(t: Tree, t': Tree, cwd: Path, dir: seq<Element>, rest: Path)
    requires Names(t, cwd, dir, rest) && Extends(t, t') && Canonical(t', Named(t, cwd, dir, rest))
    ensures Names(t', cwd, dir, rest) && Named(t', cwd, dir, rest) == Named(t, cwd, dir, rest)
  {
    WalkSurvivesGrowth(t, t', Start(cwd, dir), dir, MAX_LINKS);
  }

  // ----- System calls -----

  /**
   * Where mkdir(2) makes a folder: the parent must be found, and the last element new in it;
   * symlinks are not followed there.
   */
  function MkdirPlace(t: Tree, cwd: Path, els: seq<Element>): (q: Option<Path>)
    requires els != []
    ensures q.Some? ==> q.value !in t && IsDir(t, Parent(q.value))
  {
    var e := els[|els| - 1];
    var d := if |els| == 1 then (if cwd in t then Found(cwd) else Fails) else Stat(t, cwd, ParentEls(els));
    if Plain(e) && d.Found? && IsDir(t, d.path) && d.path + [e] !in t then
      assert Parent(d.path + [e]) == d.path;
      Some(d.path + [e])
    else None
  }

  /** mkdir of a single name makes it in the working directory; of a longer path, in what the rest leads to. */
  lemma MkdirPlaceIs(t: Tree, cwd: Path, front: seq<Element>, e: Element, d: Path)
    ensures MkdirPlace(t, cwd, [e]) ==
            if e !in {"/", ".", ".."} && cwd in t && t[cwd].Dir? && cwd + [e] !in t then Some(cwd + [e]) else None
    ensures front != [] && Stat(t, cwd, front) == Found(d) ==>
              MkdirPlace(t, cwd, front + [e]) ==
              if e !in {"/", ".", ".."} && d in t && t[d].Dir? && d + [e] !in t then Some(d + [e]) else None
    ensures front != [] && !Stat(t, cwd, front).Found? ==> MkdirPlace(t, cwd, front + [e]) == None
  {
    assert ParentEls(front + [e]) == front;
  }

  function FolderAdded(t: Tree, q: Path, owner: Owner): Tree
    requires IsDir(t, Parent(q))
  {
    t[q := Dir(owner.uid, owner.gid, t[Parent(q)].dev)]
  }

  function FileAdded(t: Tree, q: Path, owner: Owner): Tree
    requires IsDir(t, Parent(q))
  {
    t[q := File(owner.uid, owner.gid, t[Parent(q)].dev)]
  }

  lemma LastNameIsVacant(t: Tree, d: Path, e: Element, links: nat)
    requires IsDir(t, d) && Plain(e) && d + [e] !in t
    ensures KernelWalk(t, d, [e], links) == Vacant(d + [e])
  {
    assert [e][0] == e && [e][1..] == [];
  }

  /** Where mkdir works, nothing was there. */
  lemma MkdirPlaceIsVacant(t: Tree, cwd: Path, els: seq<Element>)
    requires els != [] && MkdirPlace(t, cwd, els).Some?
    ensures Stat(t, cwd, els) == Vacant(MkdirPlace(t, cwd, els).value)
  {
    var front, e := ParentEls(els), els[|els| - 1];
    assert els == front + [e];
    if front == [] {
      LastNameIsVacant(t, cwd, e, MAX_LINKS);
    } else {
      assert Start(cwd, front) == Start(cwd, els);
      var left := WalkSplits(t, Anywhere, Start(cwd, els), front, [e], MAX_LINKS);
      LastNameIsVacant(t, Stat(t, cwd, front).path, e, left);
    }
  }

  /** A new folder is found under its name, whoever owns it. */
  lemma FolderFound(t: Tree, cwd: Path, els: seq<Element>, owner: Owner)
    requires els != [] && MkdirPlace(t, cwd, els).Some?
    ensures var q := MkdirPlace(t, cwd, els).value;
            && Stat(FolderAdded(t, q, owner), cwd, els) == Found(q)
            && !Loops(FolderAdded(t, q, owner), cwd, els)
  {
    var q := MkdirPlace(t, cwd, els).value;
    MkdirPlaceIsVacant(t, cwd, els);
    VacantIsFound(t, Start(cwd, els), els, MAX_LINKS, FolderAdded(t, q, owner)[q]);
    FoundIsNotRefused(FolderAdded(t, q, owner), Start(cwd, els), els, MAX_LINKS);
  }

  /** So is a new file. */
  lemma FileFound(t: Tree, cwd: Path, els: seq<Element>, owner: Owner)
    requires Stat(t, cwd, els).Vacant?
    ensures var q := Stat(t, cwd, els).path;
            && Stat(FileAdded(t, q, owner), cwd, els) == Found(q)
            && !Loops(FileAdded(t, q, owner), cwd, els)
  {
    var q := Stat(t, cwd, els).path;
    VacantIsFound(t, Start(cwd, els), els, MAX_LINKS, FileAdded(t, q, owner)[q]);
    FoundIsNotRefused(FileAdded(t, q, owner), Start(cwd, els), els, MAX_LINKS);
  }

  lemma Grown(t: Tree, d: Path, e: Element, node: Node)
    requires WellFormed(t) && IsDir(t, d) && Plain(e) && d + [e] !in t
    ensures WellFormed(t[d + [e] := node]) && Parent(d + [e]) == d
  {
    var t' := t[d + [e] := node];
    assert Parent(d + [e]) == d;
    assert Anchored(t, d);
    forall p ensures Anchored(t', p) {
      assert Anchored(t, p);
    }
  }

  /** chown(2) through whatever the path leads to. */
  function Chown(t: Tree, q: Path, owner: Owner): Tree
    requires q in t
  {
    match t[q]
    case Dir(_, _, dev) => t[q := Dir(owner.uid, owner.gid, dev)]
    case File(_, _, dev) => t[q := File(owner.uid, owner.gid, dev)]
    case Symlink(_) => t
  }

  lemma {:induction false} OwnerKeepsWalk(t: Tree, q: Path, owner: Owner, cur: Path, work: seq<Element>, links: nat)
    requires q in t
    ensures KernelWalk(Chown(t, q, owner), cur, work, links) == KernelWalk(t, cur, work, links)
    decreases links, |work|
  {
    if work != [] && IsDir(t, cur) {
      var e, rest := work[0], work[1..];
      if e == "/" || e == "." {
        OwnerKeepsWalk(t, q, owner, cur, rest, links);
      } else if e == ".." {
        OwnerKeepsWalk(t, q, owner, Parent(cur), rest, links);
      } else if cur + [e] in t {
        if t[cur + [e]].Symlink? {
          if links > 0 && t[cur + [e]].target != [] {
            OwnerKeepsWalk(t, q, owner, LinkBase(t, cur + [e]), t[cur + [e]].target + rest, links - 1);
          }
        } else {
          OwnerKeepsWalk(t, q, owner, cur + [e], rest, links);
        }
      }
    }
  }

  /** chown sets both ids of a folder or file, and nothing else. */
  lemma ChownIs(t: Tree, q: Path, owner: Owner)
    requires q in t && !t[q].Symlink?
    ensures var t' := Chown(t, q, owner);
            && t'.Keys == t.Keys && (forall p :: p in t && p != q ==> t'[p] == t[p])
            && t'[q].Dir? == t[q].Dir? && t'[q].File? == t[q].File?
            && t'[q].uid == owner.uid && t'[q].gid == owner.gid && t'[q].dev == t[q].dev
  {
  }

  lemma OwnerKeepsShape(t: Tree, q: Path, owner: Owner)
    requires WellFormed(t) && q in t
    ensures WellFormed(Chown(t, q, owner)) && Chown(t, q, owner).Keys == t.Keys
  {
    forall p ensures Anchored(Chown(t, q, owner), p) {
      assert Anchored(t, p);
    }
  }

  // ----- libsarus -----

  /** The process that creates: where it is, who owns what it makes, and what the system says to it. */
  datatype Environment = Environment(
    cwd: Path,
    creator: Owner,
    /** the answer to creating, or opening for writing, what lies at a path */
    faultAt: Path -> Fault,
    /** where chown has an effect; the source does not look at its result */
    chownWorks: Path -> bool)

  /** The owner a new node ends up with. */
  function FinalOwner(creator: Owner, uid: nat, gid: nat, chownWorks: bool): Owner {
    if uid == NO_ID || gid == NO_ID || !chownWorks then creator else Owner(uid, gid)
  }

  /** Who owns a node that is created for this user. */
  function OwnersFor(env: Environment, uid: nat, gid: nat): Owners {
    q => FinalOwner(env.creator, uid, gid, env.chownWorks(q))
  }

  /** The tree that a call leaves, and how it ends. */
  datatype Made = Made(tree: Tree, fault: Fault)

  /** One turn of the loop of createFoldersIfNecessary. */
  function FolderMade(t: Tree, env: Environment, els: seq<Element>, owner: Owners): Made
    requires els != []
  {
    if Loops(t, env.cwd, els) then Made(t, ThrowsOther)
    else if Exists(t, env.cwd, els) then Made(t, NoFault)
    else
      match MkdirPlace(t, env.cwd, els)
      case None => Made(t, ThrowsError)
      case Some(q) =>
        if env.faultAt(q) != NoFault then Made(t, env.faultAt(q)) else Made(FolderAdded(t, q, owner(q)), NoFault)
  }

  /** How one turn ends: a looping or an existing path first, then a place for the folder, then the system's answer. */
  lemma FolderMadeIs(t: Tree, env: Environment, els: seq<Element>, owner: Owners)
    requires els != []
    ensures var made := FolderMade(t, env, els, owner);
            && (Loops(t, env.cwd, els) ==> made == Made(t, ThrowsOther))
            && (!Loops(t, env.cwd, els) && Stat(t, env.cwd, els).Found? ==> made == Made(t, NoFault))
            && (!Loops(t, env.cwd, els) && !Stat(t, env.cwd, els).Found? ==>
                  match MkdirPlace(t, env.cwd, els)
                  case None => made == Made(t, ThrowsError)
                  case Some(q) =>
                    && made.fault == env.faultAt(q)
                    && (made.fault != NoFault ==> made.tree == t)
                    && (made.fault == NoFault ==> made.tree.Keys == t.Keys + {q}))
  {
  }

  /** The first n turns. */
  function PrefixesMade(t: Tree, env: Environment, path: seq<Element>, n: nat, owner: Owners): Made
    requires n <= |path|
  {
    if n == 0 then Made(t, NoFault)
    else
      var before := PrefixesMade(t, env, path, n - 1, owner);
      if before.fault != NoFault then before else FolderMade(before.tree, env, path[..n], owner)
  }

  function FoldersMade(t: Tree, env: Environment, path: seq<Element>, owner: Owners): Made {
    if Loops(t, env.cwd, path) then Made(t, ThrowsOther) else PrefixesMade(t, env, path, |path|, owner)
  }

  /** The folders above a new file. */
  function ParentMade(t: Tree, env: Environment, path: seq<Element>, owner: Owners): Made {
    var parent := if path == [] then [] else ParentEls(path);
    if Loops(t, env.cwd, parent) then Made(t, ThrowsOther)
    else if Exists(t, env.cwd, parent) then Made(t, NoFault)
    else FoldersMade(t, env, parent, owner)
  }

  /** Whether open(2) gives a file to write to: an existing one, or a new one at the end of a dangling symlink. */
  predicate Opens(t: Tree, env: Environment, els: seq<Element>) {
    match Stat(t, env.cwd, els)
    case Found(q) => t[q].File? && env.faultAt(q) == NoFault
    case Vacant(q) => env.faultAt(q) == NoFault
    case Fails => false
  }

  /** Whether setOwner asks for, and gets, another owner for what lies at `q`. */
  predicate GivenAway(env: Environment, q: Path, uid: nat, gid: nat) {
    uid != NO_ID && gid != NO_ID && env.chownWorks(q)
  }

  /** The open and the change of owner, once the folders are there. */
  function FileOpened(t: Tree, env: Environment, path: seq<Element>, uid: nat, gid: nat): Made {
    if !Opens(t, env, path) then Made(t, ThrowsError)
    else
      match Stat(t, env.cwd, path)
      case Vacant(q) => Made(FileAdded(t, q, OwnersFor(env, uid, gid)(q)), NoFault)
      case Found(q) => Made(if GivenAway(env, q, uid, gid) then Chown(t, q, Owner(uid, gid)) else t, NoFault)
  }

  function FileMade(t: Tree, env: Environment, path: seq<Element>, uid: nat, gid: nat): Made {
    if Loops(t, env.cwd, path) then Made(t, ThrowsOther)
    else if Exists(t, env.cwd, path) then Made(t, NoFault)
    else
      var above := ParentMade(t, env, path, OwnersFor(env, uid, gid));
      if above.fault != NoFault then above else FileOpened(above.tree, env, path, uid, gid)
  }

  lemma NextTurn(t: Tree, env: Environment, path: seq<Element>, n: nat, owner: Owners)
    requires n < |path|
    ensures var before := PrefixesMade(t, env, path, n, owner);
            PrefixesMade(t, env, path, n + 1, owner) ==
            if before.fault != NoFault then before else FolderMade(before.tree, env, path[..n + 1], owner)
  {
  }

  // ----- What they keep, for every path -----

  lemma FolderMadeKeeps(t: Tree, env: Environment, els: seq<Element>, owner: Owners)
    requires WellFormed(t) && els != []
    ensures var made := FolderMade(t, env, els, owner);
            && WellFormed(made.tree) && OnlyFoldersAdded(t, made.tree, owner)
            && (made.fault == NoFault ==> Exists(made.tree, env.cwd, els))
  {
    var place := MkdirPlace(t, env.cwd, els);
    if place.Some? {
      var q := place.value;
      FolderFound(t, env.cwd, els, owner(q));
      assert q == Parent(q) + [q[|q| - 1]];
      Grown(t, Parent(q), q[|q| - 1], FolderAdded(t, q, owner(q))[q]);
    }
  }

  lemma {:induction false} PrefixesMadeKeep(t: Tree, env: Environment, path: seq<Element>, n: nat, owner: Owners)
    requires WellFormed(t) && n <= |path|
    ensures var made := PrefixesMade(t, env, path, n, owner);
            && WellFormed(made.tree) && OnlyFoldersAdded(t, made.tree, owner)
            && (made.fault == NoFault && n > 0 ==> Exists(made.tree, env.cwd, path[..n]))
  {
    if n > 0 {
      PrefixesMadeKeep(t, env, path, n - 1, owner);
      FolderMadeKeeps(PrefixesMade(t, env, path, n - 1, owner).tree, env, path[..n], owner);
    }
  }

  /** Existing nodes stay as they are; only folders are new; and the path is there after a normal return. */
  lemma FoldersMadeKeep(t: Tree, env: Environment, path: seq<Element>, owner: Owners)
    requires WellFormed(t)
    ensures var made := FoldersMade(t, env, path, owner);
            && WellFormed(made.tree) && OnlyFoldersAdded(t, made.tree, owner)
            && (made.fault == NoFault && path != [] ==> Exists(made.tree, env.cwd, path))
  {
    PrefixesMadeKeep(t, env, path, |path|, owner);
    assert path[..|path|] == path;
  }

  /** Once a turn has thrown, that is the result. */
  lemma {:induction false} FaultStays(t: Tree, env: Environment, path: seq<Element>, k: nat, n: nat, owner: Owners)
    requires k <= n <= |path| && PrefixesMade(t, env, path, k, owner).fault != NoFault
    ensures PrefixesMade(t, env, path, n, owner) == PrefixesMade(t, env, path, k, owner)
  {
    if k < n {
      FaultStays(t, env, path, k, n - 1, owner);
    }
  }

  lemma FileOpenedKeeps(t: Tree, env: Environment, path: seq<Element>, uid: nat, gid: nat)
    requires WellFormed(t)
    ensures var made := FileOpened(t, env, path, uid, gid);
            && WellFormed(made.tree) && t.Keys <= made.tree.Keys
            && (made.fault == NoFault ==>
                  Exists(made.tree, env.cwd, path) && made.tree[Stat(made.tree, env.cwd, path).path].File?)
  {
    match Stat(t, env.cwd, path)
    case Vacant(q) => {
      var owner := OwnersFor(env, uid, gid)(q);
      FileFound(t, env.cwd, path, owner);
      assert q == Parent(q) + [q[|q| - 1]];
      Grown(t, Parent(q), q[|q| - 1], FileAdded(t, q, owner)[q]);
    }
    case Found(q) => {
      OwnerKeepsWalk(t, q, Owner(uid, gid), Start(env.cwd, path), path, MAX_LINKS);
      OwnerKeepsShape(t, q, Owner(uid, gid));
    }
    case Fails =>
  }

  lemma ParentMadeKeeps(t: Tree, env: Environment, path: seq<Element>, owner: Owners)
    requires WellFormed(t)
    ensures var made := ParentMade(t, env, path, owner);
            WellFormed(made.tree) && OnlyFoldersAdded(t, made.tree, owner)
  {
    FoldersMadeKeep(t, env, if path == [] then [] else ParentEls(path), owner);
  }

  /** Nothing disappears, and the path is there after a normal return, as a file if it was not there before. */
  lemma FileMadeKeeps(t: Tree, env: Environment, path: seq<Element>, uid: nat, gid: nat)
    requires WellFormed(t)
    ensures var made := FileMade(t, env, path, uid, gid);
            && WellFormed(made.tree) && t.Keys <= made.tree.Keys
            && (made.fault == NoFault ==> Exists(made.tree, env.cwd, path))
            && (made.fault == NoFault && !Exists(t, env.cwd, path) ==>
                  made.tree[Stat(made.tree, env.cwd, path).path].File?)
  {
    ParentMadeKeeps(t, env, path, OwnersFor(env, uid, gid));
    var above := ParentMade(t, env, path, OwnersFor(env, uid, gid));
    FileOpenedKeeps(above.tree, env, path, uid, gid);
  }

  // ----- Who owns what is new -----

  lemma FolderMadeOwner(t: Tree, env: Environment, els: seq<Element>, uid: nat, gid: nat, q: Path)
    requires els != [] && q !in t && q in FolderMade(t, env, els, OwnersFor(env, uid, gid)).tree
    ensures var node := FolderMade(t, env, els, OwnersFor(env, uid, gid)).tree[q];
            var own := uid != 0xFFFF_FFFF && gid != 0xFFFF_FFFF && env.chownWorks(q);
            node.Dir? && node.uid == (if own then uid else env.creator.uid)
            && node.gid == (if own then gid else env.creator.gid)
  {
  }

  lemma {:induction false} PrefixesMadeOwner(t: Tree, env: Environment, path: seq<Element>, n: nat, uid: nat, gid: nat,
                                             q: Path)
    requires WellFormed(t) && n <= |path| && q !in t
    requires q in PrefixesMade(t, env, path, n, OwnersFor(env, uid, gid)).tree
    ensures var node := PrefixesMade(t, env, path, n, OwnersFor(env, uid, gid)).tree[q];
            var own := uid != 0xFFFF_FFFF && gid != 0xFFFF_FFFF && env.chownWorks(q);
            node.Dir? && node.uid == (if own then uid else env.creator.uid)
            && node.gid == (if own then gid else env.creator.gid)
  {
    if n > 0 {
      var owner := OwnersFor(env, uid, gid);
      NextTurn(t, env, path, n - 1, owner);
      PrefixesMadeKeep(t, env, path, n - 1, owner);
      var before := PrefixesMade(t, env, path, n - 1, owner);
      if q in before.tree {
        PrefixesMadeOwner(t, env, path, n - 1, uid, gid, q);
        FolderMadeKeeps(before.tree, env, path[..n], owner);
      } else {
        FolderMadeOwner(before.tree, env, path[..n], uid, gid, q);
      }
    }
  }

  /** A new folder belongs to the user it was made for, if there is one and chown works there. */
  lemma FoldersMadeOwner(t: Tree, env: Environment, path: seq<Element>, uid: nat, gid: nat, q: Path)
    requires WellFormed(t) && q !in t && q in FoldersMade(t, env, path, OwnersFor(env, uid, gid)).tree
    ensures var node := FoldersMade(t, env, path, OwnersFor(env, uid, gid)).tree[q];
            var own := uid != 0xFFFF_FFFF && gid != 0xFFFF_FFFF && env.chownWorks(q);
            node.Dir? && node.uid == (if own then uid else env.creator.uid)
            && node.gid == (if own then gid else env.creator.gid)
  {
    if !Loops(t, env.cwd, path) {
      PrefixesMadeOwner(t, env, path, |path|, uid, gid, q);
    }
  }

  /** So do the new file and the new folders above it. */
  lemma FileMadeOwner(t: Tree, env: Environment, path: seq<Element>, uid: nat, gid: nat, q: Path)
    requires WellFormed(t) && q !in t && q in FileMade(t, env, path, uid, gid).tree
    ensures var node := FileMade(t, env, path, uid, gid).tree[q];
            var own := uid != 0xFFFF_FFFF && gid != 0xFFFF_FFFF && env.chownWorks(q);
            !node.Symlink? && node.uid == (if own then uid else env.creator.uid)
            && node.gid == (if own then gid else env.creator.gid)
  {
    var owner := OwnersFor(env, uid, gid);
    var parent := if path == [] then [] else ParentEls(path);
    var above := ParentMade(t, env, path, owner);
    if q in above.tree {
      FoldersMadeOwner(t, env, parent, uid, gid, q);
    }
  }
}

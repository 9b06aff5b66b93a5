/**
 * The functions of src/utility/filesystem.cpp that change the host's tree, proved against what
 * they make of it.
 */
module HostObject {
  import opened Wrappers
  import opened FileTree
  import opened HostFiles
  import opened Creation

  /**
   * What createFoldersIfNecessary promises: existing nodes stay, only folders are new, which belong to the
   * user where there is one and chown works, the path is there after a normal return, and behind an
   * existing folder exactly the missing prefixes are made.
   */
  ghost predicate FoldersAsPromised(t: Tree, t': Tree, env: Environment, path: seq<Element>, uid: nat, gid: nat,
                                    fault: Fault)
    requires WellFormed(t)
  {
    var owner := OwnersFor(env, uid, gid);
    && WellFormed(t') && OnlyFoldersAdded(t, t', owner)
    && (fault == NoFault && path != [] ==> Exists(t', env.cwd, path))
    && (forall q :: q in t' && q !in t ==>
          var own := uid != 0xFFFF_FFFF && gid != 0xFFFF_FFFF && env.chownWorks(q);
          t'[q].Dir? && t'[q].uid == (if own then uid else env.creator.uid)
          && t'[q].gid == (if own then gid else env.creator.gid))
    && forall dir, rest :: Names(t, env.cwd, dir, rest) && path == dir + rest ==>
         CreationEnds(t, t', Named(t, env.cwd, dir, rest), owner, true, env.faultAt, fault)
  }

  lemma FoldersKeepPromise(t: Tree, env: Environment, path: seq<Element>, uid: nat, gid: nat)
    requires WellFormed(t)
    ensures var made := FoldersMade(t, env, path, OwnersFor(env, uid, gid));
            FoldersAsPromised(t, made.tree, env, path, uid, gid, made.fault)
  {
    var owner := OwnersFor(env, uid, gid);
    FoldersMadeKeep(t, env, path, owner);
    var t' := FoldersMade(t, env, path, owner).tree;
    forall q | q in t' && q !in t
      ensures var own := uid != 0xFFFF_FFFF && gid != 0xFFFF_FFFF && env.chownWorks(q);
              t'[q].Dir? && t'[q].uid == (if own then uid else env.creator.uid)
              && t'[q].gid == (if own then gid else env.creator.gid)
    {
      FoldersMadeOwner(t, env, path, uid, gid, q);
    }
    forall dir, rest | Names(t, env.cwd, dir, rest) && path == dir + rest
      ensures var made := FoldersMade(t, env, path, owner);
              CreationEnds(t, made.tree, Named(t, env.cwd, dir, rest), owner, true, env.faultAt, made.fault)
    {
      FoldersNamed(t, env, dir, rest, owner);
    }
  }

  /**
   * What createFileIfNecessary promises: nothing disappears, the path is there after a normal return,
   * an existing node changes exactly if it is the file the open is redirected to, which a path without
   * ".." rules out, what is new belongs to the user where there is one and chown works, and behind an
   * existing folder exactly what is missing is made.
   */
  ghost predicate FileAsPromised(t: Tree, t': Tree, env: Environment, path: seq<Element>, uid: nat, gid: nat,
                                 fault: Fault)
    requires WellFormed(t)
  {
    && WellFormed(t') && t.Keys <= t'.Keys
    && (fault == NoFault ==> Exists(t', env.cwd, path))
    && (fault == NoFault && !Exists(t, env.cwd, path) ==> t'[Stat(t', env.cwd, path).path].File?)
    && (!Extends(t, t') <==> Redirected(t, env, path, uid, gid))
    && (NeverUp(path) ==> Extends(t, t'))
    && (forall q :: q in t' && q !in t ==>
          var own := uid != 0xFFFF_FFFF && gid != 0xFFFF_FFFF && env.chownWorks(q);
          !t'[q].Symlink? && t'[q].uid == (if own then uid else env.creator.uid)
          && t'[q].gid == (if own then gid else env.creator.gid))
    && forall dir, rest :: Names(t, env.cwd, dir, rest) && path == dir + rest ==>
         CreationEnds(t, t', Named(t, env.cwd, dir, rest), OwnersFor(env, uid, gid), false, env.faultAt, fault)
  }

  lemma FileKeepsPromise(t: Tree, env: Environment, path: seq<Element>, uid: nat, gid: nat)
    requires WellFormed(t)
    ensures var made := FileMade(t, env, path, uid, gid);
            FileAsPromised(t, made.tree, env, path, uid, gid, made.fault)
  {
    FileMadeKeeps(t, env, path, uid, gid);
    var t' := FileMade(t, env, path, uid, gid).tree;
    forall q | q in t' && q !in t
      ensures var own := uid != 0xFFFF_FFFF && gid != 0xFFFF_FFFF && env.chownWorks(q);
              !t'[q].Symlink? && t'[q].uid == (if own then uid else env.creator.uid)
              && t'[q].gid == (if own then gid else env.creator.gid)
    {
      FileMadeOwner(t, env, path, uid, gid, q);
    }
    ExistingNodeChangesIff(t, env, path, uid, gid);
    if NeverUp(path) {
      WithoutDotDotNothingChanges(t, env, path, uid, gid);
    }
    forall dir, rest | Names(t, env.cwd, dir, rest) && path == dir + rest
      ensures var made := FileMade(t, env, path, uid, gid);
              CreationEnds(t, made.tree, Named(t, env.cwd, dir, rest), OwnersFor(env, uid, gid), false,
                           env.faultAt, made.fault)
    {
      FileNamed(t, env, dir, rest, uid, gid);
    }
  }

  class Host {
    var tree: Tree
    const env: Environment

    constructor (tree: Tree, env: Environment)
      ensures this.tree == tree && this.env == env
    {
      this.tree, this.env := tree, env;
    }

    method SetOwner(els: seq<Element>, uid: nat, gid: nat) returns (fault: Fault)
      modifies this
      ensures fault == if uid == NO_ID || gid == NO_ID then NoFault
                       else if Loops(old(tree), env.cwd, els) then ThrowsOther
                       else if Exists(old(tree), env.cwd, els) then NoFault
                       else ThrowsError
      ensures tree == if uid == NO_ID || gid == NO_ID || fault != NoFault then old(tree)
                      else var q := Stat(old(tree), env.cwd, els).path;
                           if env.chownWorks(q) then Chown(old(tree), q, Owner(uid, gid)) else old(tree)
    {
      if uid == NO_ID || gid == NO_ID {
        return NoFault;
      }
      if Loops(tree, env.cwd, els) {
        return ThrowsOther;
      }
      if !Exists(tree, env.cwd, els) {
        return ThrowsError;
      }
      var q := Stat(tree, env.cwd, els).path;
      if env.chownWorks(q) {
        tree := Chown(tree, q, Owner(uid, gid));
      }
      fault := NoFault;
    }

    /** One turn of the loop of createFoldersIfNecessary. */
    method CreateFolder(els: seq<Element>, uid: nat, gid: nat) returns (fault: Fault)
      requires els != []
      modifies this
      ensures Made(tree, fault) == FolderMade(old(tree), env, els, OwnersFor(env, uid, gid))
      ensures forall q :: q in tree && q !in old(tree) ==>
                var own := uid != 0xFFFF_FFFF && gid != 0xFFFF_FFFF && env.chownWorks(q);
                tree[q].Dir? && tree[q].uid == (if own then uid else env.creator.uid)
                && tree[q].gid == (if own then gid else env.creator.gid)
    {
      if Loops(tree, env.cwd, els) {
        return ThrowsOther;
      }
      fault := NoFault;
      if !Exists(tree, env.cwd, els) {
        var place := MkdirPlace(tree, env.cwd, els);
        if place == None {
          return ThrowsError;
        }
        fault := env.faultAt(place.value);
        if fault != NoFault {
          return;
        }
        FolderFound(tree, env.cwd, els, env.creator);
        tree := FolderAdded(tree, place.value, env.creator);
        fault := SetOwner(els, uid, gid);
      }
    }

    /** The loop of createFoldersIfNecessary. */
    method MakeFolders(path: seq<Element>, uid: nat, gid: nat) returns (fault: Fault)
      modifies this
      ensures Made(tree, fault) == FoldersMade(old(tree), env, path, OwnersFor(env, uid, gid))
    {
      if Loops(tree, env.cwd, path) {
        return ThrowsOther;
      }
      ghost var t, owner := tree, OwnersFor(env, uid, gid);
      var currentPath: seq<Element> := [];
      for k := 0 to |path|
        invariant currentPath == path[..k]
        invariant PrefixesMade(t, env, path, k, owner) == Made(tree, NoFault)
      {
        currentPath := currentPath + [path[k]];
        assert currentPath == path[..k + 1];
        fault := CreateFolder(currentPath, uid, gid);
        if fault != NoFault {
          FaultStays(t, env, path, k + 1, |path|, owner);
          return;
        }
      }
      fault := NoFault;
    }

    method CreateFoldersIfNecessary(path: seq<Element>, uid: nat, gid: nat) returns (fault: Fault)
      modifies this
      ensures Made(tree, fault) == FoldersMade(old(tree), env, path, OwnersFor(env, uid, gid))
      ensures WellFormed(old(tree)) ==> FoldersAsPromised(old(tree), tree, env, path, uid, gid, fault)
    {
      ghost var t := tree;
      fault := MakeFolders(path, uid, gid);
      if WellFormed(t) {
        FoldersKeepPromise(t, env, path, uid, gid);
      }
    }

    /** The std::ofstream, which makes a missing file. */
    method OpenForWriting(path: seq<Element>) returns (ok: bool)
      modifies this
      ensures ok <==> Opens(old(tree), env, path)
      ensures tree == if ok && Stat(old(tree), env.cwd, path).Vacant?
                      then FileAdded(old(tree), Stat(old(tree), env.cwd, path).path, env.creator) else old(tree)
    {
      ok := Opens(tree, env, path);
      if ok {
        match Stat(tree, env.cwd, path)
        case Vacant(q) => tree := FileAdded(tree, q, env.creator);
        case _ =>
      }
    }

    /** The open and the change of owner. */
    method CreateFile(path: seq<Element>, uid: nat, gid: nat) returns (fault: Fault)
      modifies this
      ensures Made(tree, fault) == FileOpened(old(tree), env, path, uid, gid)
    {
      ghost var t := tree;
      var open := OpenForWriting(path);
      if !open {
        return ThrowsError;
      }
      match Stat(t, env.cwd, path) {
        case Vacant(q) => FileFound(t, env.cwd, path, env.creator);
        case Found(_) => FoundIsNotRefused(t, Start(env.cwd, path), path, MAX_LINKS);
        case Fails =>
      }
      fault := SetOwner(path, uid, gid);
    }

    method CreateFileIfNecessary(path: seq<Element>, uid: nat, gid: nat) returns (fault: Fault)
      modifies this
      ensures Made(tree, fault) == FileMade(old(tree), env, path, uid, gid)
      ensures WellFormed(old(tree)) ==> FileAsPromised(old(tree), tree, env, path, uid, gid, fault)
    {
      if WellFormed(tree) {
        FileKeepsPromise(tree, env, path, uid, gid);
      }
      if Loops(tree, env.cwd, path) {
        return ThrowsOther;
      }
      if Exists(tree, env.cwd, path) {
        return NoFault;
      }
      var parent := if path == [] then [] else ParentEls(path);
      if Loops(tree, env.cwd, parent) {
        return ThrowsOther;
      }
      if !Exists(tree, env.cwd, parent) {
        fault := CreateFoldersIfNecessary(parent, uid, gid);
        if fault != NoFault {
          return;
        }
      }
      fault := CreateFile(path, uid, gid);
    }
  }
}

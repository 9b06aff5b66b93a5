/**
 * `validatedBindMount` of src/utility/mount.cpp: identity switches, the destination's
 * validation and creation, and the handler that restores the identity on a libsarus::Error.
 */
module BindMount {
  import opened Wrappers
  import opened FileTree
  import opened Resolver
  import opened ResolverReference
  import opened HostFiles
  import opened Creation
  import opened HostObject
  import opened MountDestination
  import opened Credentials

  datatype Outcome =
    | Returned
    /** libsarus::Error, after the handler */
    | ThrewError
    /** any other exception: the handler does not catch it */
    | ThrewOther

  /**
   * What the model does not look into and may throw: resolving and accessing the source, a first access to
   * the destination, asking whether the source is a directory, a first look at the mount point, mounting.
   */
  datatype Faults = Faults(source: Fault, destination: Fault, isDir: Fault, look: Fault, mount: Fault)

  /** The identity `validatedBindMount` comes back to: the real ids. */
  function RootIdentity(c: Creds): Identity {
    Identity(c.ruid, c.rgid, c.groups)
  }

  /** Effective and file system ids are the real ones. */
  predicate AtRootIdentity(c: Creds) {
    c.euid == c.ruid && c.fsuid == c.ruid && c.egid == c.rgid && c.fsgid == c.rgid
  }

  /** Where the mount point lies on the host, if the root filesystem is there. */
  function MountPoint(t: Tree, canSearch: Path -> bool, rootfsDir: seq<Element>, destination: seq<Element>): Path
    requires Resolve(RootFs(t, canSearch, rootfsDir), [], destination).Some?
  {
    var inside := ResolvedDestination(t, canSearch, rootfsDir, destination);
    match RootOf(t, rootfsDir)
    case Found(root) => root + inside
    case _ => inside
  }

  /** Behind the folder that the root filesystem's path leads to, where the destination resolves to. */
  lemma MountPointIs(t: Tree, canSearch: Path -> bool, rootfsDir: seq<Element>, destination: seq<Element>, root: Path)
    requires Resolve(RootFs(t, canSearch, rootfsDir), [], destination).Some?
    requires KernelWalk(t, [], rootfsDir, MAX_LINKS) == Found(root)
    ensures MountPoint(t, canSearch, rootfsDir, destination) ==
            root + Resolve(RootFs(t, canSearch, rootfsDir), [], destination).value.path
  {
  }

  /**
   * The tree after the call, whatever its outcome: only a validated destination makes it grow, and all that
   * is new are the missing prefixes of the mount point up to some point.
   */
  ghost predicate MountPointReady(t: Tree, t': Tree, canSearch: Path -> bool, cwd: Path, rootfsDir: seq<Element>,
                                  destination: seq<Element>, owner: Owners, leafIsDir: bool)
    requires [] in t && Resolve(RootFs(t, canSearch, rootfsDir), [], destination).Some?
  {
    || t' == t
    || (&& DestinationFault(t, canSearch, cwd, destination, rootfsDir) == NoFault
        && exists m: nat :: GrownUpTo(t, t', MountPoint(t, canSearch, rootfsDir, destination), m, owner, leafIsDir))
  }

  ghost predicate GrownUpTo(t: Tree, t': Tree, p: Path, m: nat, owner: Owners, leafIsDir: bool)
    requires [] in t
  {
    m <= |p| && AddedUpTo(t, t', p, m, owner, leafIsDir)
  }

  /** What is new belongs to the user, if there is one and chown works there. */
  lemma NewNodesOwner(t: Tree, t': Tree, env: Environment, canSearch: Path -> bool, rootfsDir: seq<Element>,
                      destination: seq<Element>, uid: nat, gid: nat, leafIsDir: bool, q: Path)
    requires [] in t && Resolve(RootFs(t, canSearch, rootfsDir), [], destination).Some?
    requires MountPointReady(t, t', canSearch, env.cwd, rootfsDir, destination, OwnersFor(env, uid, gid), leafIsDir)
    requires q in t' && q !in t
    ensures var own := uid != 0xFFFF_FFFF && gid != 0xFFFF_FFFF && env.chownWorks(q);
            && !t'[q].Symlink?
            && (t'[q].Dir? <==> leafIsDir || q != MountPoint(t, canSearch, rootfsDir, destination))
            && t'[q].uid == (if own then uid else env.creator.uid)
            && t'[q].gid == (if own then gid else env.creator.gid)
  {
    var p, owner := MountPoint(t, canSearch, rootfsDir, destination), OwnersFor(env, uid, gid);
    var m: nat :| GrownUpTo(t, t', p, m, owner, leafIsDir);
    assert NewNode(t, t', p, q, owner, leafIsDir);
  }

  /** The handler: back to the root identity, then rethrow. */
  method Handle(process: Process, rootIdentity: Identity) returns (outcome: Outcome)
    requires rootIdentity.uid == process.creds.ruid && rootIdentity.gid == process.creds.rgid
    requires process.limits.groupsOk(rootIdentity.groups)
    modifies process
    ensures outcome == ThrewError
    ensures SameAnchors(old(process.creds), process.creds) && AtRootIdentity(process.creds)
    ensures process.creds.groups ==
            if old(process.creds).euid == 0 then rootIdentity.groups else old(process.creds).groups
  {
    var r := process.SwitchIdentity(rootIdentity);
    outcome := ThrewError;
  }

  /** A folder for a folder, and a file for anything else. */
  function MountPointMade(t: Tree, env: Environment, path: seq<Element>, isDir: bool, uid: nat, gid: nat): Made {
    if isDir then FoldersMade(t, env, path, OwnersFor(env, uid, gid)) else FileMade(t, env, path, uid, gid)
  }

  /** New nodes belong to the file system ids of the process, until they are given away. */
  method CreateMountPoint(process: Process, host: Host, rootfsDir: seq<Element>, inside: Path, isDir: bool,
                          uid: nat, gid: nat)
    returns (fault: Fault)
    requires WellFormed(host.tree) && Names(host.tree, host.env.cwd, rootfsDir, inside)
    requires host.env.creator == Owner(process.creds.fsuid, process.creds.fsgid)
    modifies host
    ensures CreationEnds(old(host.tree), host.tree, Named(old(host.tree), host.env.cwd, rootfsDir, inside),
                         OwnersFor(host.env, uid, gid), isDir, host.env.faultAt, fault)
    ensures Made(host.tree, fault) == MountPointMade(old(host.tree), host.env, rootfsDir + inside, isDir, uid, gid)
  {
    var destinationReal := rootfsDir + inside;
    if isDir {
      fault := host.CreateFoldersIfNecessary(destinationReal, uid, gid);
    } else {
      fault := host.CreateFileIfNecessary(destinationReal, uid, gid);
    }
  }

  lemma CreationIsGrowth(t: Tree, t': Tree, p: Path, owner: Owners, leafIsDir: bool,
                         faultAt: Path -> Fault, fault: Fault)
    requires [] in t && CreationEnds(t, t', p, owner, leafIsDir, faultAt, fault)
    ensures exists m: nat :: GrownUpTo(t, t', p, m, owner, leafIsDir)
  {
    if fault == NoFault {
      assert GrownUpTo(t, t', p, |p|, owner, leafIsDir);
    } else {
      var m: nat :| StoppedAt(t, t', p, m, owner, leafIsDir, faultAt, fault);
      assert GrownUpTo(t, t', p, m, owner, leafIsDir);
    }
  }

  /** What is thrown while the process acts as the user. */
  function EarlyFault(faults: Faults, validation: Fault): Fault {
    if faults.source != NoFault then faults.source
    else if faults.destination != NoFault then faults.destination
    else if validation != NoFault then validation
    else faults.isDir
  }

  /** It is the first exception of these. */
  lemma EarlyFaultIsFirst(faults: Faults, validation: Fault)
    ensures EarlyFault(faults, validation) == NoFault <==>
            && faults.source == NoFault && faults.destination == NoFault
            && validation == NoFault && faults.isDir == NoFault
    ensures faults.source != NoFault ==> EarlyFault(faults, validation) == faults.source
    ensures faults.source == NoFault && faults.destination != NoFault ==>
              EarlyFault(faults, validation) == faults.destination
    ensures faults.source == NoFault && faults.destination == NoFault && validation != NoFault ==>
              EarlyFault(faults, validation) == validation
  {
  }

  /** The groups of a process that acted as the user and came back: only a root process takes them over, or back. */
  function GroupsAfter(c: Creds, user: Identity): seq<nat> {
    if c.euid == 0 && user.uid != 0 then user.groups else c.groups
  }

  /** The groups that the call leaves behind. */
  function GroupsLeft(k: Limits, c: Creds, user: Identity, early: Fault, outcome: Outcome): seq<nat> {
    if outcome == ThrewError && (!SwitchPermitted(k, c, user) || (early == NoFault && c.ruid == 0)) then c.groups
    else if outcome == ThrewOther && early == ThrowsOther && c.euid == 0 then user.groups
    else GroupsAfter(c, user)
  }

  /**
   * Where an exception leaves the ids: as the user's while acting as the user, as the real ones later.  Only
   * the file system uid is the user's again while mounting.
   */
  predicate LeftAs(c: Creds, user: Identity, early: Fault, mount: Fault) {
    if early != NoFault then
      c.euid == c.fsuid == user.uid && c.egid == c.fsgid == user.gid
    else
      && c.euid == c.ruid && c.egid == c.fsgid == c.rgid
      && (c.fsuid == c.ruid || (mount != NoFault && c.fsuid == user.uid))
  }

  /** The identity at the end of the try block: refused as it was, or as the user, or as the real one again. */
  predicate LeftBy(k: Limits, c: Creds, c': Creds, user: Identity, early: Fault, mount: Fault, left: Fault) {
    && SameAnchors(c, c')
    && if !SwitchPermitted(k, c, user) then
         left == ThrowsError && c'.euid == c.euid && (c.euid != 0 ==> c'.groups == c.groups)
       else
         && LeftAs(c', user, early, if left == mount then mount else NoFault)
         && c'.groups == (if early != NoFault && c.euid == 0 then user.groups else GroupsAfter(c, user))
         && (early != NoFault ==> left == early)
         && (left == NoFault ==> early == NoFault && AtRootIdentity(c'))
  }

  /** The handler gives the groups back to a process that is root when it runs. */
  lemma GroupsAtTheEnd(k: Limits, c: Creds, c1: Creds, c2: Creds, user: Identity, early: Fault, mount: Fault,
                       left: Fault, outcome: Outcome)
    requires LeftBy(k, c, c1, user, early, mount, left)
    requires outcome == if left == NoFault then Returned else if left == ThrowsError then ThrewError else ThrewOther
    requires c2.groups == if left == ThrowsError && c1.euid == 0 then c.groups else c1.groups
    ensures c2.groups == GroupsLeft(k, c, user, early, outcome)
  {
  }

  /** The mount point can be made and mounted on. */
  ghost predicate Completes(k: Limits, c: Creds, env: Environment, t: Tree, p: Path, user: Identity, faults: Faults)
    requires [] in t
  {
    && faults.look == NoFault && Creatable(t, p, env.faultAt)
    && (user.uid == c.ruid || user.uid == c.suid || (c.ruid == 0 && k.uidOk(user.uid)))
    && faults.mount == NoFault
  }

  /** What is thrown after the switch back: the first exception of looking, creating, setting the uid, and mounting. */
  function LateFault(k: Limits, c: Creds, env: Environment, t: Tree, path: seq<Element>, user: Identity, isDir: bool,
                     faults: Faults): Fault
  {
    if faults.look != NoFault then faults.look
    else if MountPointMade(t, env, path, isDir, user.uid, user.gid).fault != NoFault then
      MountPointMade(t, env, path, isDir, user.uid, user.gid).fault
    else if user.uid != c.ruid && user.uid != c.suid && !(c.ruid == 0 && k.uidOk(user.uid)) then ThrowsError
    else faults.mount
  }

  /** The first half of the try block: what is done as the user, and the switch back. */
  method ValidateAsUser(process: Process, t: Tree, canSearch: Path -> bool, cwd: Path, destination: seq<Element>,
                        user: Identity, rootIdentity: Identity, rootfsDir: seq<Element>, faults: Faults)
    returns (left: Fault, destinationReal: seq<Element>)
    requires WellFormed(t)
    requires Resolve(RootFs(t, canSearch, rootfsDir), [], destination).Some?
    requires rootIdentity == RootIdentity(process.creds) && process.limits.groupsOk(process.creds.groups)
    modifies process
    ensures var c := old(process.creds);
            var early := EarlyFault(faults, DestinationFault(t, canSearch, cwd, destination, rootfsDir));
            && LeftBy(process.limits, c, process.creds, user, early, faults.mount, left)
            && (left == NoFault <==> SwitchPermitted(process.limits, c, user) && early == NoFault)
    ensures left == NoFault ==>
              var inside := ResolvedDestination(t, canSearch, rootfsDir, destination);
              && destinationReal == rootfsDir + inside && Names(t, cwd, rootfsDir, inside)
              && Named(t, cwd, rootfsDir, inside) == MountPoint(t, canSearch, rootfsDir, destination)
  {
    destinationReal := [];
    var r := process.SwitchIdentity(user);
    if r == Error {
      return ThrowsError, destinationReal;
    }
    if faults.source != NoFault {
      return faults.source, destinationReal;
    }
    if faults.destination != NoFault {
      return faults.destination, destinationReal;
    }
    left, destinationReal := GetValidatedMountDestination(t, canSearch, cwd, destination, rootfsDir);
    if left != NoFault {
      return;
    }
    if faults.isDir != NoFault {
      return faults.isDir, destinationReal;
    }
    r := process.SwitchIdentity(rootIdentity);
    if r == Error {
      return ThrowsError, destinationReal;
    }
  }

  /** The second half: creating the mount point and mounting, as the real identity. */
  method CreateAndMount(process: Process, host: Host, rootfsDir: seq<Element>, inside: Path, user: Identity,
                        rootIdentity: Identity, sourceIsDir: bool, faults: Faults)
    returns (left: Fault)
    requires WellFormed(host.tree) && Names(host.tree, host.env.cwd, rootfsDir, inside)
    requires AtRootIdentity(process.creds) && rootIdentity.uid == process.creds.ruid
    requires host.env.creator == Owner(process.creds.ruid, process.creds.rgid)
    modifies process, host
    ensures process.creds == old(process.creds).(fsuid := process.creds.fsuid)
    ensures process.creds.fsuid == old(process.creds).fsuid || (process.creds.fsuid == user.uid && left == faults.mount)
    ensures left == LateFault(process.limits, old(process.creds), host.env, old(host.tree), rootfsDir + inside, user,
                              sourceIsDir, faults)
    ensures var p := Named(old(host.tree), host.env.cwd, rootfsDir, inside);
            && (left == NoFault <==>
                  Completes(process.limits, old(process.creds), host.env, old(host.tree), p, user, faults))
            && (left == NoFault ==> p in host.tree && AtRootIdentity(process.creds))
            && (host.tree != old(host.tree) ==>
                  && faults.look == NoFault
                  && exists m: nat :: GrownUpTo(old(host.tree), host.tree, p, m,
                                                OwnersFor(host.env, user.uid, user.gid), sourceIsDir))
  {
    if faults.look != NoFault {
      return faults.look;
    }
    left := CreateMountPoint(process, host, rootfsDir, inside, sourceIsDir, user.uid, user.gid);
    CreationIsGrowth(old(host.tree), host.tree, Named(old(host.tree), host.env.cwd, rootfsDir, inside),
                     OwnersFor(host.env, user.uid, user.gid), sourceIsDir, host.env.faultAt, left);
    if left != NoFault {
      return;
    }
    var r := process.SetFilesystemUid(user);
    if r == Error {
      return ThrowsError;
    }
    if faults.mount != NoFault {
      return faults.mount;
    }
    r := process.SetFilesystemUid(rootIdentity);
    if r == Error {
      return ThrowsError;
    }
    left := NoFault;
  }

  /** The body of the try block; the result says how it is left. */
  method TryBindMount(process: Process, host: Host, canSearch: Path -> bool, destination: seq<Element>, user: Identity,
                      rootIdentity: Identity, rootfsDir: seq<Element>, sourceIsDir: bool, faults: Faults)
    returns (left: Fault)
    requires WellFormed(host.tree)
    requires Resolve(RootFs(host.tree, canSearch, rootfsDir), [], destination).Some?
    requires rootIdentity == RootIdentity(process.creds) && process.limits.groupsOk(process.creds.groups)
    requires host.env.creator == Owner(process.creds.ruid, process.creds.rgid)
    modifies process, host
    ensures var c := old(process.creds);
            var early := EarlyFault(faults, DestinationFault(old(host.tree), canSearch, host.env.cwd, destination,
                                                             rootfsDir));
            var p := MountPoint(old(host.tree), canSearch, rootfsDir, destination);
            && LeftBy(process.limits, c, process.creds, user, early, faults.mount, left)
            && (left == NoFault <==>
                  && SwitchPermitted(process.limits, c, user) && early == NoFault
                  && Completes(process.limits, c, host.env, old(host.tree), p, user, faults))
            && (left == NoFault ==> p in host.tree)
            && (SwitchPermitted(process.limits, c, user) && early == NoFault ==>
                  var inside := ResolvedDestination(old(host.tree), canSearch, rootfsDir, destination);
                  left == LateFault(process.limits, c, host.env, old(host.tree), rootfsDir + inside, user, sourceIsDir,
                                    faults))
    ensures MountPointReady(old(host.tree), host.tree, canSearch, host.env.cwd, rootfsDir, destination,
                            OwnersFor(host.env, user.uid, user.gid), sourceIsDir)
    ensures host.tree != old(host.tree) ==>
              && SwitchPermitted(process.limits, old(process.creds), user) && faults.look == NoFault
              && EarlyFault(faults, DestinationFault(old(host.tree), canSearch, host.env.cwd, destination, rootfsDir))
                 == NoFault
  {
    var destinationReal;
    left, destinationReal := ValidateAsUser(process, host.tree, canSearch, host.env.cwd, destination, user,
                                            rootIdentity, rootfsDir, faults);
    if left != NoFault {
      return;
    }
    var inside := destinationReal[|rootfsDir|..];
    left := CreateAndMount(process, host, rootfsDir, inside, user, rootIdentity, sourceIsDir, faults);
  }

  method ValidatedBindMount(process: Process, host: Host, canSearch: Path -> bool, destination: seq<Element>,
                            user: Identity, rootfsDir: seq<Element>, sourceIsDir: bool, faults: Faults)
    returns (outcome: Outcome)
    requires WellFormed(host.tree)
    requires Resolve(RootFs(host.tree, canSearch, rootfsDir), [], destination).Some?
    // a list of groups that was read from the kernel is accepted by it
    requires process.limits.groupsOk(process.creds.groups)
    // the mount point is created after the switch back
    requires host.env.creator == Owner(process.creds.ruid, process.creds.rgid)
    modifies process, host
    // real and saved ids are never altered
    ensures process.creds.ruid == old(process.creds).ruid && process.creds.suid == old(process.creds).suid
    ensures process.creds.rgid == old(process.creds).rgid && process.creds.sgid == old(process.creds).sgid
    // after a normal return or an Error the process acts as its real identity
    ensures outcome != ThrewOther ==>
              && process.creds.euid == process.creds.fsuid == old(process.creds).ruid
              && process.creds.egid == process.creds.fsgid == old(process.creds).rgid
    // a call that returns has seen no fault
    ensures outcome == Returned ==> faults == Faults(NoFault, NoFault, NoFault, NoFault, NoFault)
    ensures var c := old(process.creds);
            var early := EarlyFault(faults, DestinationFault(old(host.tree), canSearch, host.env.cwd, destination,
                                                             rootfsDir));
            var p := MountPoint(old(host.tree), canSearch, rootfsDir, destination);
            && (!SwitchPermitted(process.limits, c, user) || early == ThrowsError ==> outcome == ThrewError)
            && (SwitchPermitted(process.limits, c, user) && early == ThrowsOther ==> outcome == ThrewOther)
            && (outcome == ThrewOther && early != NoFault ==>
                  && process.creds.euid == process.creds.fsuid == user.uid
                  && process.creds.egid == process.creds.fsgid == user.gid)
            && (outcome == ThrewOther && early == NoFault ==>
                  && process.creds.euid == c.ruid && process.creds.egid == process.creds.fsgid == c.rgid
                  && (process.creds.fsuid == c.ruid
                      || (faults.mount == ThrowsOther && process.creds.fsuid == user.uid)))
            && process.creds.groups == GroupsLeft(process.limits, c, user, early, outcome)
            && (outcome == Returned <==>
                  && SwitchPermitted(process.limits, c, user) && early == NoFault
                  && Completes(process.limits, c, host.env, old(host.tree), p, user, faults))
            && (outcome == Returned ==> p in host.tree)
            && (SwitchPermitted(process.limits, c, user) && early == NoFault ==>
                  var inside := ResolvedDestination(old(host.tree), canSearch, rootfsDir, destination);
                  match LateFault(process.limits, c, host.env, old(host.tree), rootfsDir + inside, user, sourceIsDir,
                                  faults)
                  case NoFault => outcome == Returned
                  case ThrowsError => outcome == ThrewError
                  case ThrowsOther => outcome == ThrewOther)
    // what exists stays as it is; what is created belongs to the validated destination
    ensures MountPointReady(old(host.tree), host.tree, canSearch, host.env.cwd, rootfsDir, destination,
                            OwnersFor(host.env, user.uid, user.gid), sourceIsDir)
    // what is new are folders, and the mount point as the source is one or not; they belong to the user where
    // there is one and chown works
    ensures forall q :: q in host.tree && q !in old(host.tree) ==>
              var own := user.uid != 0xFFFF_FFFF && user.gid != 0xFFFF_FFFF && host.env.chownWorks(q);
              && !host.tree[q].Symlink?
              && (host.tree[q].Dir? <==>
                  sourceIsDir || q != MountPoint(old(host.tree), canSearch, rootfsDir, destination))
              && host.tree[q].uid == (if own then user.uid else old(process.creds).ruid)
              && host.tree[q].gid == (if own then user.gid else old(process.creds).rgid)
    // nothing is created before the process has come back from acting as the user
    ensures host.tree != old(host.tree) ==>
              && SwitchPermitted(process.limits, old(process.creds), user) && faults.look == NoFault
              && EarlyFault(faults, DestinationFault(old(host.tree), canSearch, host.env.cwd, destination, rootfsDir))
                 == NoFault
  {
    var rootIdentity := RootIdentity(process.creds);
    var left := TryBindMount(process, host, canSearch, destination, user, rootIdentity, rootfsDir, sourceIsDir, faults);
    ghost var c1 := process.creds;
    match left {
      case NoFault => outcome := Returned;
      case ThrowsError => outcome := Handle(process, rootIdentity);
      case ThrowsOther => outcome := ThrewOther;
    }
    ghost var early := EarlyFault(faults, DestinationFault(old(host.tree), canSearch, host.env.cwd, destination,
                                                           rootfsDir));
    forall q | q in host.tree && q !in old(host.tree)
      ensures var own := user.uid != 0xFFFF_FFFF && user.gid != 0xFFFF_FFFF && host.env.chownWorks(q);
              && !host.tree[q].Symlink?
              && (host.tree[q].Dir? <==>
                  sourceIsDir || q != MountPoint(old(host.tree), canSearch, rootfsDir, destination))
              && host.tree[q].uid == (if own then user.uid else old(process.creds).ruid)
              && host.tree[q].gid == (if own then user.gid else old(process.creds).rgid)
    {
      NewNodesOwner(old(host.tree), host.tree, host.env, canSearch, rootfsDir, destination, user.uid, user.gid,
                    sourceIsDir, q);
    }
    GroupsAtTheEnd(process.limits, old(process.creds), c1, process.creds, user, early, faults.mount, left,
                   outcome);
  }

  /**
   * A process that starts with one root identity throughout ends with it, and at most its groups differ.
   * A normal return gives them back exactly if the user is root too or has the same ones; an Error
   * also does if it comes before the process has become the user, or after it has come back.
   */
  method RootRunRestoresIdentity(process: Process, host: Host, canSearch: Path -> bool, destination: seq<Element>,
                                 user: Identity, rootfsDir: seq<Element>, sourceIsDir: bool, faults: Faults)
    returns (outcome: Outcome)
    requires WellFormed(host.tree)
    requires Resolve(RootFs(host.tree, canSearch, rootfsDir), [], destination).Some?
    requires process.limits.groupsOk(process.creds.groups)
    requires AtRootIdentity(process.creds) && process.creds.ruid == 0
    requires host.env.creator == Owner(0, process.creds.rgid)
    modifies process, host
    ensures outcome != ThrewOther ==> process.creds == old(process.creds).(groups := process.creds.groups)
    ensures var c := old(process.creds);
            var early := EarlyFault(faults, DestinationFault(old(host.tree), canSearch, host.env.cwd, destination,
                                                             rootfsDir));
            match outcome
            case Returned =>
              process.creds == c <==> user.uid == 0 || user.groups == c.groups
            case ThrewError =>
              process.creds == c <==>
                || user.uid == 0 || user.groups == c.groups
                || !SwitchPermitted(process.limits, c, user) || early == NoFault
            case ThrewOther =>
              process.creds.groups == c.groups <==> user.groups == c.groups || (early == NoFault && user.uid == 0)
  {
    outcome := ValidatedBindMount(process, host, canSearch, destination, user, rootfsDir, sourceIsDir, faults);
  }

  /**
   * Whatever a call creates, also one that fails, lies strictly below the folder whose device was checked,
   * and on an allowed device.
   */
  lemma CreatedNodesAreAuthorized(t: Tree, t': Tree, canSearch: Path -> bool, cwd: Path, rootfsDir: seq<Element>,
                                  destination: seq<Element>, owner: Owners, leafIsDir: bool, q: Path)
    requires WellFormed(t)
    requires Resolve(RootFs(t, canSearch, rootfsDir), [], destination).Some?
    requires MountPointReady(t, t', canSearch, cwd, rootfsDir, destination, owner, leafIsDir)
    requires q in t' && q !in t
    ensures var inside := ResolvedDestination(t, canSearch, rootfsDir, destination);
            var p := MountPoint(t, canSearch, rootfsDir, destination);
            var root, checked := RootOf(t, rootfsDir), Stat(t, cwd, Checked(t, cwd, rootfsDir + inside));
            && root.Found? && root.path < q <= p
            && checked.Found? && IsDir(t, checked.path) && checked.path < q
            && t'[q] == NodeAt(p, q, owner, t[checked.path].dev, leafIsDir)
            && t'[q].dev in AllowedDevices(t, canSearch, cwd, rootfsDir)
  {
    var inside := ResolvedDestination(t, canSearch, rootfsDir, destination);
    var p := MountPoint(t, canSearch, rootfsDir, destination);
    ResolvedPathStaysUnderRoot(t, canSearch, rootfsDir, destination);
    var m: nat :| GrownUpTo(t, t', p, m, owner, leafIsDir);
    CreatedBelowCheckedFolder(t, t', canSearch, cwd, rootfsDir, inside, m, owner, leafIsDir, q);
  }
}

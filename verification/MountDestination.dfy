/**
 * Validating where a mount goes: `getValidatedMountDestination` and `isPathOnAllowedDevice`
 * of src/utility/mount.cpp.  The root filesystem is given by a path that may lead through symlinks.
 */
module MountDestination {
  import opened Wrappers
  import opened FileTree
  import opened Resolver
  import opened ResolverReference
  import opened HostFiles
  import opened Creation

  const TMP: seq<Element> := ["/", "tmp"]

  /** `getDevice`: st_dev, or an Error. */
  function GetDevice(t: Tree, canSearch: Path -> bool, cwd: Path, els: seq<Element>): Result<int> {
    if StatRefused(t, canSearch, cwd, els) then Error
    else match Stat(t, cwd, els)
         case Found(q) => if t[q].Symlink? then Error else Ok(t[q].dev)
         case _ => Error
  }

  function DevFolder(rootfsDir: seq<Element>): seq<Element> {
    rootfsDir + ["dev"]
  }

  /** Beside the root filesystem as its path is spelled; beside "/" this is relative. */
  function LowerLayer(rootfsDir: seq<Element>): seq<Element> {
    (if rootfsDir == [] then [] else ParentEls(rootfsDir)) + ["overlay", "rootfs-lower"]
  }

  /** How asking for the device of `path` and for the allowed devices ends. */
  function DeviceFault(t: Tree, canSearch: Path -> bool, cwd: Path, path: seq<Element>,
                       rootfsDir: seq<Element>): Fault
  {
    if || GetDevice(t, canSearch, cwd, path).Error?
       || GetDevice(t, canSearch, cwd, TMP).Error?
       || GetDevice(t, canSearch, cwd, rootfsDir).Error?
    then ThrowsError
    else if || StatRefused(t, canSearch, cwd, DevFolder(rootfsDir))
            || StatRefused(t, canSearch, cwd, LowerLayer(rootfsDir))
    then ThrowsOther
    else NoFault
  }

  function Devices(r: Result<int>): set<int> {
    if r.Ok? then {r.value} else {}
  }

  /** The devices on which libsarus may create mount points. */
  function AllowedDevices(t: Tree, canSearch: Path -> bool, cwd: Path, rootfsDir: seq<Element>): set<int> {
    Devices(GetDevice(t, canSearch, cwd, TMP)) + Devices(GetDevice(t, canSearch, cwd, rootfsDir))
    + Devices(GetDevice(t, canSearch, cwd, DevFolder(rootfsDir)))
    + Devices(GetDevice(t, canSearch, cwd, LowerLayer(rootfsDir)))
  }

  predicate OnAllowedDevice(t: Tree, canSearch: Path -> bool, cwd: Path, path: seq<Element>, rootfsDir: seq<Element>) {
    && DeviceFault(t, canSearch, cwd, path, rootfsDir) == NoFault
    && GetDevice(t, canSearch, cwd, path).value in AllowedDevices(t, canSearch, cwd, rootfsDir)
  }

  lemma FoundHasDevice(t: Tree, canSearch: Path -> bool, cwd: Path, els: seq<Element>)
    requires WellFormed(t) && els != [] && !StatRefused(t, canSearch, cwd, els)
    ensures Exists(t, cwd, els) <==> GetDevice(t, canSearch, cwd, els).Ok?
  {
    if Exists(t, cwd, els) {
      assert IsDir(t, Start(cwd, els));
      WalkEndsOffLinks(t, Start(cwd, els), els, MAX_LINKS);
    }
  }

  method IsPathOnAllowedDevice(t: Tree, canSearch: Path -> bool, cwd: Path, path: seq<Element>, rootfsDir: seq<Element>)
    returns (fault: Fault, allowed: bool)
    requires WellFormed(t)
    ensures fault == DeviceFault(t, canSearch, cwd, path, rootfsDir)
    ensures allowed <==> OnAllowedDevice(t, canSearch, cwd, path, rootfsDir)
  {
    allowed := false;
    var pathDevice := GetDevice(t, canSearch, cwd, path);
    if pathDevice == Error {
      return ThrowsError, allowed;
    }
    var allowedDevices: seq<int> := [];
    var dev := GetDevice(t, canSearch, cwd, TMP);
    if dev == Error {
      return ThrowsError, allowed;
    }
    allowedDevices := allowedDevices + [dev.value];
    dev := GetDevice(t, canSearch, cwd, rootfsDir);
    if dev == Error {
      return ThrowsError, allowed;
    }
    allowedDevices := allowedDevices + [dev.value];
    if StatRefused(t, canSearch, cwd, DevFolder(rootfsDir)) {
      return ThrowsOther, allowed;
    }
    FoundHasDevice(t, canSearch, cwd, DevFolder(rootfsDir));
    if Exists(t, cwd, DevFolder(rootfsDir)) {
      dev := GetDevice(t, canSearch, cwd, DevFolder(rootfsDir));
      allowedDevices := allowedDevices + [dev.value];
    }
    if StatRefused(t, canSearch, cwd, LowerLayer(rootfsDir)) {
      return ThrowsOther, allowed;
    }
    FoundHasDevice(t, canSearch, cwd, LowerLayer(rootfsDir));
    if Exists(t, cwd, LowerLayer(rootfsDir)) {
      dev := GetDevice(t, canSearch, cwd, LowerLayer(rootfsDir));
      allowedDevices := allowedDevices + [dev.value];
    }
    fault := NoFault;
    allowed := pathDevice.value in allowedDevices;
  }

  /** The number of elements of the longest part of a path that exists with all that comes before it. */
  function ExistingPart(t: Tree, cwd: Path, path: seq<Element>, from: nat): (n: nat)
    requires from <= |path|
    ensures from <= n <= |path|
    ensures forall i :: from < i <= n ==> Exists(t, cwd, path[..i])
    ensures n < |path| ==> !Exists(t, cwd, path[..n + 1])
    decreases |path| - from
  {
    if from == |path| || !Exists(t, cwd, path[..from + 1]) then from else ExistingPart(t, cwd, path, from + 1)
  }

  /** What decides: the destination, its parent if it is no folder, or its deepest existing ancestor. */
  function Checked(t: Tree, cwd: Path, path: seq<Element>): seq<Element> {
    if !Exists(t, cwd, path) then path[..ExistingPart(t, cwd, path, 0)]
    else if IsDir(t, Stat(t, cwd, path).path) then path
    else ParentEls(path)
  }

  /** Where a destination leads inside the container, as resolved by a user who may search these folders. */
  function ResolvedDestination(t: Tree, canSearch: Path -> bool, rootfsDir: seq<Element>,
                               destination: seq<Element>): Path
    requires Resolve(RootFs(t, canSearch, rootfsDir), [], destination).Some?
  {
    Resolve(RootFs(t, canSearch, rootfsDir), [], destination).value.path
  }

  lemma PrefixIsNotRefused(t: Tree, canSearch: Path -> bool, cwd: Path, path: seq<Element>, n: nat)
    requires !StatRefused(t, canSearch, cwd, path) && n <= |path|
    ensures !StatRefused(t, canSearch, cwd, path[..n])
  {
    if n > 0 && StatRefused(t, canSearch, cwd, path[..n]) {
      assert path[..n] + path[n..] == path;
      RefusedEarly(t, canSearch, Start(cwd, path), path[..n], path[n..], MAX_LINKS);
    }
  }

  /** The loop over the components of a path that does not exist finds the longest part that does. */
  method FindDeepestExisting(t: Tree, canSearch: Path -> bool, cwd: Path, destinationReal: seq<Element>)
    returns (deepest: Option<seq<Element>>)
    requires !StatRefused(t, canSearch, cwd, destinationReal) && !Exists(t, cwd, destinationReal)
    ensures var n := ExistingPart(t, cwd, destinationReal, 0);
            deepest == if n == 0 then None else Some(destinationReal[..n])
  {
    deepest := None;
    var current: seq<Element> := [];
    for k := 0 to |destinationReal|
      invariant current == destinationReal[..k]
      invariant ExistingPart(t, cwd, destinationReal, 0) == ExistingPart(t, cwd, destinationReal, k)
      invariant deepest == if k == 0 then None else Some(destinationReal[..k])
    {
      current := current + [destinationReal[k]];
      assert current == destinationReal[..k + 1];
      PrefixIsNotRefused(t, canSearch, cwd, destinationReal, k + 1);
      assert !StatRefused(t, canSearch, cwd, current);
      if Exists(t, cwd, current) {
        deepest := Some(current);
      } else {
        return;
      }
    }
  }

  /** How the validation ends. */
  function DestinationFault(t: Tree, canSearch: Path -> bool, cwd: Path, destination: seq<Element>,
                            rootfsDir: seq<Element>): Fault
    requires Resolve(RootFs(t, canSearch, rootfsDir), [], destination).Some?
  {
    var path := rootfsDir + ResolvedDestination(t, canSearch, rootfsDir, destination);
    if !IsAbsolute(destination) || !IsAbsolute(rootfsDir) then ThrowsError
    else if StatRefused(t, canSearch, cwd, path) then ThrowsOther
    else
      var fault := DeviceFault(t, canSearch, cwd, Checked(t, cwd, path), rootfsDir);
      if fault == NoFault && !OnAllowedDevice(t, canSearch, cwd, Checked(t, cwd, path), rootfsDir) then ThrowsError
      else fault
  }

  method GetValidatedMountDestination(t: Tree, canSearch: Path -> bool, cwd: Path, destination: seq<Element>,
                                      rootfsDir: seq<Element>)
    returns (fault: Fault, destinationReal: seq<Element>)
    requires WellFormed(t) && Resolve(RootFs(t, canSearch, rootfsDir), [], destination).Some?
    ensures fault == DestinationFault(t, canSearch, cwd, destination, rootfsDir)
    ensures fault == NoFault ==>
              var inside := Resolve(RootFs(t, canSearch, rootfsDir), [], destination).value.path;
              && inside == ResolvedDestination(t, canSearch, rootfsDir, destination)
              && destinationReal == rootfsDir + inside && Names(t, cwd, rootfsDir, inside)
  {
    destinationReal := [];
    if !IsAbsolute(destination) {
      return ThrowsError, destinationReal;
    }
    if !IsAbsolute(rootfsDir) {
      return ThrowsError, destinationReal;
    }
    var rootfs := RootFs(t, canSearch, rootfsDir);
    var inside := RealpathWithinRootfs(rootfs, destination, |Links(rootfs)|);
    destinationReal := rootfsDir + inside.value.value;
    ResolvedPathStaysUnderRoot(t, canSearch, rootfsDir, destination);
    if StatRefused(t, canSearch, cwd, destinationReal) {
      return ThrowsOther, destinationReal;
    }
    var allowed;
    if !Exists(t, cwd, destinationReal) {
      var deepestExistingFolder := FindDeepestExisting(t, canSearch, cwd, destinationReal);
      if deepestExistingFolder == None {
        return ThrowsError, destinationReal;
      }
      fault, allowed := IsPathOnAllowedDevice(t, canSearch, cwd, deepestExistingFolder.value, rootfsDir);
    } else if IsDir(t, Stat(t, cwd, destinationReal).path) {
      fault, allowed := IsPathOnAllowedDevice(t, canSearch, cwd, destinationReal, rootfsDir);
    } else {
      fault, allowed := IsPathOnAllowedDevice(t, canSearch, cwd, ParentEls(destinationReal), rootfsDir);
    }
    if fault == NoFault && !allowed {
      return ThrowsError, destinationReal;
    }
  }

  // ----- What creating the mount point adds -----

  /** Behind an existing folder, the part of a missing path that exists includes that folder. */
  lemma PartBehind(t: Tree, cwd: Path, dir: seq<Element>, rest: Path)
    requires WellFormed(t) && Names(t, cwd, dir, rest) && Named(t, cwd, dir, rest) !in t
    ensures |dir| <= ExistingPart(t, cwd, dir + rest, 0) < |dir| + |rest|
  {
    var path := dir + rest;
    StatNamed(t, cwd, dir, rest);
    forall i | 0 < i <= |dir| ensures Exists(t, cwd, path[..i]) {
      assert path[..i] == dir[..i];
      PrefixExists(t, cwd, dir, i);
    }
    assert path[..|path|] == path;
  }

  /** What exists behind it is there in the tree, and what does not is not. */
  lemma NamedPrefix(t: Tree, cwd: Path, dir: seq<Element>, rest: Path, j: nat)
    requires WellFormed(t) && Names(t, cwd, dir, rest) && j <= |rest|
    ensures var q := Named(t, cwd, dir, rest)[..|Stat(t, cwd, dir).path| + j];
            Stat(t, cwd, (dir + rest)[..|dir| + j]).Found? <==> q in t
    ensures var q := Named(t, cwd, dir, rest)[..|Stat(t, cwd, dir).path| + j];
            q in t ==> Stat(t, cwd, (dir + rest)[..|dir| + j]) == Found(q)
  {
    assert (dir + rest)[..|dir| + j] == dir + rest[..j];
    NamesPrefix(t, cwd, dir, rest, j);
    StatNamed(t, cwd, dir, rest[..j]);
  }

  lemma DeepestBehind(t: Tree, cwd: Path, dir: seq<Element>, rest: Path, n: nat)
    requires WellFormed(t) && Names(t, cwd, dir, rest) && |dir| <= n < |dir| + |rest|
    requires Exists(t, cwd, (dir + rest)[..n]) && !Exists(t, cwd, (dir + rest)[..n + 1])
    ensures Stat(t, cwd, (dir + rest)[..n]) == Found(Deepest(t, Named(t, cwd, dir, rest)))
  {
    var j := n - |dir|;
    NamedPrefix(t, cwd, dir, rest, j);
    NamedPrefix(t, cwd, dir, rest, j + 1);
    DeepestIs(t, Named(t, cwd, dir, rest), |Stat(t, cwd, dir).path| + j);
  }

  /** The deepest existing part of such a path leads to its deepest existing prefix. */
  lemma CheckedIsDeepest(t: Tree, cwd: Path, dir: seq<Element>, rest: Path)
    requires WellFormed(t) && Names(t, cwd, dir, rest) && Named(t, cwd, dir, rest) !in t
    ensures Stat(t, cwd, Checked(t, cwd, dir + rest)) == Found(Deepest(t, Named(t, cwd, dir, rest)))
  {
    StatNamed(t, cwd, dir, rest);
    PartBehind(t, cwd, dir, rest);
    DeepestBehind(t, cwd, dir, rest, ExistingPart(t, cwd, dir + rest, 0));
  }

  /**
   * However far the creation of a validated destination got, everything it made lies strictly below the
   * folder that was checked and below the root filesystem, on that folder's device, which is an allowed one.
   */
  lemma CreatedBelowCheckedFolder(t: Tree, t': Tree, canSearch: Path -> bool, cwd: Path, rootfsDir: seq<Element>,
                                  inside: Path, m: nat, owner: Owners, leafIsDir: bool, q: Path)
    requires WellFormed(t) && Names(t, cwd, rootfsDir, inside)
    requires OnAllowedDevice(t, canSearch, cwd, Checked(t, cwd, rootfsDir + inside), rootfsDir)
    requires var p := Named(t, cwd, rootfsDir, inside);
             m <= |p| && AddedUpTo(t, t', p, m, owner, leafIsDir)
    requires q in t' && q !in t
    ensures var p := Named(t, cwd, rootfsDir, inside);
            var checked := Stat(t, cwd, Checked(t, cwd, rootfsDir + inside));
            && checked.Found? && IsDir(t, checked.path) && checked.path < q <= p[..m]
            && Stat(t, cwd, rootfsDir).path < q
            && t'[q] == NodeAt(p, q, owner, t[checked.path].dev, leafIsDir)
            && t'[q].dev in AllowedDevices(t, canSearch, cwd, rootfsDir)
  {
    var p, root := Named(t, cwd, rootfsDir, inside), Stat(t, cwd, rootfsDir).path;
    assert NewNode(t, t', p, q, owner, leafIsDir);
    assert q == p[..|q|] && q <= p && root <= p;
    if p in t {
      PrefixInTree(t, p, |q|);
      assert false;
    }
    var d := Deepest(t, p);
    assert d == p[..|d|] && root == p[..|root|];
    NotBelowExisting(t, p, d, q);
    NotBelowExisting(t, p, root, q);
    CheckedIsDeepest(t, cwd, rootfsDir, inside);
  }

  lemma NotBelowExisting(t: Tree, p: Path, d: Path, q: Path)
    requires WellFormed(t) && d <= p && q <= p && d in t && q !in t
    ensures d < q
  {
    assert d == p[..|d|] && q == p[..|q|];
    var n := if |q| <= |d| then |q| else |d|;
    PrefixInTree(t, d, n);
    assert d[..n] == p[..n] == q[..n];
  }

  // ----- Which folder decides -----

  /** The user may look a path up, and finds something on this device. */
  predicate OnDevice(t: Tree, canSearch: Path -> bool, cwd: Path, els: seq<Element>, dev: int) {
    && !StatRefused(t, canSearch, cwd, els)
    && match Stat(t, cwd, els)
       case Found(q) => !t[q].Symlink? && t[q].dev == dev
       case _ => false
  }

  /** The allowed devices are those of /tmp, the root filesystem, its folder dev, and overlay/rootfs-lower beside it. */
  lemma AllowedDevicesAre(t: Tree, canSearch: Path -> bool, cwd: Path, rootfsDir: seq<Element>, dev: int)
    requires rootfsDir != []
    ensures dev in AllowedDevices(t, canSearch, cwd, rootfsDir) <==>
            || OnDevice(t, canSearch, cwd, ["/", "tmp"], dev)
            || OnDevice(t, canSearch, cwd, rootfsDir, dev)
            || OnDevice(t, canSearch, cwd, rootfsDir + ["dev"], dev)
            || OnDevice(t, canSearch, cwd, rootfsDir[..|rootfsDir| - 1] + ["overlay", "rootfs-lower"], dev)
  {
  }

  /** How asking for devices ends: by what stat says of the paths that have to be there, and of those that may. */
  lemma DeviceFaultIs(t: Tree, canSearch: Path -> bool, cwd: Path, path: seq<Element>, rootfsDir: seq<Element>)
    requires rootfsDir != []
    ensures DeviceFault(t, canSearch, cwd, path, rootfsDir) == NoFault <==>
            && (exists dev :: OnDevice(t, canSearch, cwd, path, dev))
            && (exists dev :: OnDevice(t, canSearch, cwd, ["/", "tmp"], dev))
            && (exists dev :: OnDevice(t, canSearch, cwd, rootfsDir, dev))
            && !StatRefused(t, canSearch, cwd, rootfsDir + ["dev"])
            && !StatRefused(t, canSearch, cwd, rootfsDir[..|rootfsDir| - 1] + ["overlay", "rootfs-lower"])
    ensures DeviceFault(t, canSearch, cwd, path, rootfsDir) == ThrowsError <==>
            || !(exists dev :: OnDevice(t, canSearch, cwd, path, dev))
            || !(exists dev :: OnDevice(t, canSearch, cwd, ["/", "tmp"], dev))
            || !(exists dev :: OnDevice(t, canSearch, cwd, rootfsDir, dev))
  {
    GetDeviceIs(t, canSearch, cwd, path);
    GetDeviceIs(t, canSearch, cwd, ["/", "tmp"]);
    GetDeviceIs(t, canSearch, cwd, rootfsDir);
  }

  lemma GetDeviceIs(t: Tree, canSearch: Path -> bool, cwd: Path, els: seq<Element>)
    ensures GetDevice(t, canSearch, cwd, els).Ok? <==> exists dev :: OnDevice(t, canSearch, cwd, els, dev)
    ensures forall dev :: OnDevice(t, canSearch, cwd, els, dev) <==> GetDevice(t, canSearch, cwd, els) == Ok(dev)
  {
    if GetDevice(t, canSearch, cwd, els).Ok? {
      assert OnDevice(t, canSearch, cwd, els, GetDevice(t, canSearch, cwd, els).value);
    }
  }

  /**
   * `d` decides about a destination that leads to `p`: `p` itself if it is a folder, the folder it lies in if it
   * is something else, and its deepest existing prefix if it is missing.
   */
  ghost predicate Decides(t: Tree, p: Path, d: Path) {
    if p in t && t[p].Dir? then d == p
    else if p in t then p != [] && d == p[..|p| - 1]
    else d < p && d in t && p[..|d| + 1] !in t
  }

  /** What is checked leads to the folder that decides. */
  lemma CheckedDecides(t: Tree, cwd: Path, dir: seq<Element>, rest: Path, d: Path)
    requires WellFormed(t) && Names(t, cwd, dir, rest) && (rest != [] || IsDir(t, Named(t, cwd, dir, rest)))
    requires Decides(t, Named(t, cwd, dir, rest), d)
    ensures Stat(t, cwd, Checked(t, cwd, dir + rest)) == Found(d) && !t[d].Symlink?
    ensures exists n :: 0 <= n <= |dir + rest| && Checked(t, cwd, dir + rest) == (dir + rest)[..n]
  {
    var path, p := dir + rest, Named(t, cwd, dir, rest);
    StatNamed(t, cwd, dir, rest);
    assert path[..|path|] == path;
    assert p[..|p|] == p;
    if p !in t {
      CheckedIsDeepest(t, cwd, dir, rest);
      assert d == p[..|d|];
      DeepestIs(t, p, |d|);
    } else if !t[p].Dir? {
      var n := |rest| - 1;
      NamesPrefix(t, cwd, dir, rest, n);
      StatNamed(t, cwd, dir, rest[..n]);
      assert ParentEls(path) == dir + rest[..n] == path[..|path| - 1];
      assert Named(t, cwd, dir, rest[..n]) == d;
      assert Anchored(t, p);
    }
    assert !IsLink(t, p[..|d|]);
  }

  /**
   * Validation asks about the device of the folder that decides: it is allowed after a normal return, and if it
   * is not, although nothing is refused on the way and the allowed devices can be listed, an Error is thrown.
   */
  lemma DecidingFolder(t: Tree, canSearch: Path -> bool, cwd: Path, destination: seq<Element>,
                       rootfsDir: seq<Element>, d: Path)
    requires WellFormed(t) && Resolve(RootFs(t, canSearch, rootfsDir), [], destination).Some?
    requires destination != [] && destination[0] == "/" && rootfsDir != [] && rootfsDir[0] == "/"
    requires var inside := ResolvedDestination(t, canSearch, rootfsDir, destination);
             && Exists(t, cwd, rootfsDir) && !StatRefused(t, canSearch, cwd, rootfsDir + inside)
             && (inside != [] || IsDir(t, Named(t, cwd, rootfsDir, inside)))
             && Decides(t, Named(t, cwd, rootfsDir, inside), d)
    ensures d in t && !t[d].Symlink?
    ensures var fault := DestinationFault(t, canSearch, cwd, destination, rootfsDir);
            && (fault == NoFault ==> t[d].dev in AllowedDevices(t, canSearch, cwd, rootfsDir))
            && (DeviceFault(t, canSearch, cwd, rootfsDir, rootfsDir) == NoFault ==>
                  fault == if t[d].dev in AllowedDevices(t, canSearch, cwd, rootfsDir) then NoFault else ThrowsError)
  {
    var inside := ResolvedDestination(t, canSearch, rootfsDir, destination);
    var path := rootfsDir + inside;
    ResolvedPathStaysUnderRoot(t, canSearch, rootfsDir, destination);
    CheckedDecides(t, cwd, rootfsDir, inside, d);
    var n :| 0 <= n <= |path| && Checked(t, cwd, path) == path[..n];
    PrefixIsNotRefused(t, canSearch, cwd, path, n);
    assert GetDevice(t, canSearch, cwd, Checked(t, cwd, path)) == Ok(t[d].dev);
  }
}

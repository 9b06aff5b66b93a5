# A verified model of libsarus

libsarus is the C++ library behind the Sarus container runtime.  This project models the parts of
it that compute over unbounded state and proves what they promise.

* **Paths inside a root filesystem** (`FileTree`, `Resolver`, `ResolverTermination`,
  `ResolverReference`).  A tree maps paths to folders, files and symlinks.  The resolver is the
  recursive C++ function, loop and link log included, with a bound on how many link targets may be
  open at once.  It is compared with a flat worklist machine and with the strict walk of section
  4.13 (Pathname Resolution) of IEEE Std 1003.1-2017 Base Definitions, and it is proved exactly when
  it returns.
* **ABI versions along a symlink chain** (`SharedLibs`, `ResolveAbi`): library names as linker name
  plus ABI, and the greedy choice over the chain that the resolver's log gives.
* **Locks** (`LockProtocol`, `LockfileObject`, `LockSimulation`, `FlockProtocol`, `FlockObject`,
  `FlockSimulation`): any number of objects as interleaved steps over one set of lock files, or over
  the kernel's table of flock(2) locks, and the classes with their waiting loops and clocks, which run
  those steps.
* **Bind mounts** (`HostFiles`, `Creation`, `HostObject`, `MountDestination`, `Credentials`,
  `BindMount`): what creating folders and files does to a tree, for every path and exactly for paths
  without symlinks behind some folder, also when it fails halfway; where a mount point goes as seen by a
  user who may not search every folder, on which device, and which identity the process has afterwards.
* **Text formats** (`Text`, `KeyValue`, `Replace`, `PasswdDB`): key-value lists, in-place
  substitution, and the passwd file with its decimal ids.

`dafny verify dfyconfig.toml` checks the whole project.

Where the code and its comments differ, the model follows the code:

* `Flock::noTimeout` is written as the largest unsigned value but is stored as -1 milliseconds
  (src/Flock.cpp:28-29), so any other negative timeout expires at once.
* In `resolveAbi` two ABIs of equal length are never compared: both references bind to the longest
  ABI so far (src/utility/sharedLibs.cpp:147-150), and a mismatch is kept without the log message.
* `isSharedLib` asks `is_directory` about paths relative to the root filesystem as if they were host
  paths (src/utility/sharedLibs.cpp:125, src/utility/filesystem.cpp:454); the model keeps the answer
  as an arbitrary function of the path.
* `setOwner` builds a message when `chown` fails but throws nothing (src/utility/filesystem.cpp:70-73).
* `getValidatedMountDestination` calls the deepest existing prefix a folder without checking that it
  is one (src/utility/mount.cpp:81-90); if it is a file, the creation that follows throws.
* The lower layer that `isPathOnAllowedDevice` looks for lies beside the root filesystem as its path is
  spelled (src/utility/mount.cpp:158-159); the parent of "/" is the empty path, so beside "/" it is
  looked for in the working directory.
* The identity that `validatedBindMount` restores is made of the real ids (src/UserIdentity.cpp:23-26),
  not of the effective ids it started with.

Results that show a limit of the code:

* `LockProtocol.SelfAssignReleases`, `LockProtocol.OrphansBlock`.
* `LockfileObject.DeadlineIsExact` and `LockfileObject.ExpiresIff`: the 32-bit clock wraps before the
  largest timeouts are noticed, and the two largest are never noticed.
* `LockfileObject.Lockfile.Acquire` and `FlockObject.Flock.TimedLockAcquisition`: with a warning interval
  of 0, a call that has to wait divides by zero.
* `Creation.ExistingFileIsGivenAway`, `Creation.ExistingNodeChangesIff` and
  `Creation.WithoutDotDotNothingChanges`: creating the file /m/../p where /m is missing makes the folder
  /m, finds the existing /p and gives it to the user; exactly when an existing node is changed; and that a
  path without ".." rules it out.
* `FlockProtocol.RefusedDowngrade`: a conversion to a read lock can fail, and the write lock is lost.
* `FlockProtocol.FailedUpgradeIsSilentNextTime`.
* `ResolverTermination.SelfLinkDiverges` and `ResolverTermination.DivergesIffReenters`: the resolver
  recurses without end on /a where /a links to "a", and exactly when.
* `ResolverReference.DotDotIsLexical`.
* `ResolveAbi.OwnAbiCanBeLost` and `ResolveAbi.ResultExtendsOwnAbi`: for /libx.so.2/libx.so.1, where
  /libx.so.2 links to a folder, the answer is 2; and exactly when the requested library's own ABI is
  kept.
* `BindMount.RootRunRestoresIdentity`: a root process gets its supplementary groups back after a normal
  return exactly if the user is root or has the same groups, and after a libsarus::Error also if the
  switch to the user was refused or nothing was thrown before the switch back.

## Model

| member | source | states |
|---|---|---|
| Resolver.AppendPathsWithinRootfs | src/utility/filesystem.cpp:313-346 | the loop returns the path of the recursive specification, whether or not a vector for the traversed links is passed, and appends exactly the links traversed, in order, to one that is passed |
| Resolver.FollowLink | src/utility/filesystem.cpp:328-339 | a link is logged before the links of its own target, and an absolute target restarts at the root |
| Resolver.RealpathWithinRootfs | src/utility/filesystem.cpp:348-360 | a relative path is an Error, an absolute one is resolved from the root |
| Resolver.PlainElement | src/utility/filesystem.cpp:319-342 | an element that is no symlink: "/" and "." leave the path, ".." goes up but not above the root, a name is appended |
| Resolver.SymlinkElement | src/utility/filesystem.cpp:328-339 | a symlink is logged, and its target is resolved from the root if it starts with "/" and from the folder of the symlink otherwise |
| Resolver.AbsoluteTargetExample | src/utility/filesystem.cpp:333-335 | /a/l, a symlink to /b, resolves to /b |
| Resolver.AppendMonotonic | src/utility/filesystem.cpp:313-346 | once a call returns, allowing deeper recursion changes nothing |
| Resolver.AppendComposes | src/utility/filesystem.cpp:317-345 | resolving p and then q is resolving p joined with q, and the log of the whole is the concatenation of the logs |
| Resolver.ResolutionIsCanonical | src/utility/filesystem.cpp:319-345 | from a resolved start the result has no ".", ".." or "/", no prefix of it is a symlink, and every logged path is a symlink whose parent is fully resolved |
| Resolver.ResolutionIsIdempotent | src/utility/filesystem.cpp:348-360 | resolving a result again returns it unchanged with an empty log |
| ResolverTermination.LinkCountIsEnough | src/utility/filesystem.cpp:313-346 | if some recursion depth is enough, the number of symlinks in the tree is, with the same answer |
| ResolverTermination.DivergesIffReenters | src/utility/filesystem.cpp:328-339 | no depth is enough exactly if some link is met while its own target is still being resolved |
| ResolverTermination.ReentryDiverges | src/utility/filesystem.cpp:328-339 | a stack of open links that repeats a link rules out every depth |
| ResolverTermination.SelfLinkDiverges | src/utility/filesystem.cpp:328-339 | no depth is enough for a path through a symlink to itself |
| ResolverTermination.SelfLinkExample | src/utility/filesystem.cpp:328-339 | for instance for /a where /a links to "a" |
| ResolverReference.ResolverRefinesFlat | src/utility/filesystem.cpp:319-345 | the recursive resolver and a flat worklist machine return on the same inputs, with the same path and the same link log |
| ResolverReference.FlatSymlink | src/utility/filesystem.cpp:328-339 | the worklist machine takes an absolute target from the root and a relative one from the folder of the symlink |
| FileTree.WalkSymlink | src/utility/filesystem.cpp:432-438 | so does the strict walk of the kernel, which fails where no further symlink may be followed |
| ResolverReference.StrictWalkAgrees | src/utility/filesystem.cpp:319-345 | where the strict walk finds a path, or a place where one could be created, the resolver returns the same path and logs no more links than the walk follows |
| ResolverReference.DotDotIsLexical | src/utility/filesystem.cpp:324-327 | ".." cancels a name even if nothing, or no folder, has that name, which the strict walk refuses |
| ResolverReference.LstatIsLookup | src/utility/filesystem.cpp:432-438 | from a resolved path behind the root filesystem's path, which may itself lead through symlinks, isSymlink on the host, where a refused lookup counts as no, and the lookup in the tree of what the caller can see there give the same answer |
| ResolverReference.ResolvedPathStaysUnderRoot | src/utility/filesystem.cpp:289-346 | looking up the resolved path on the host behind the root filesystem's path is refused exactly if that path is, or if the caller may not search some folder behind it, and otherwise follows no symlink below the folder it leads to, so it never leads outside |
| SharedLibs.NameSplits | src/utility/sharedLibs.cpp:81-103 | a shared library's name has a linker name and an ABI, and is the one followed by "." and each token of the other |
| SharedLibs.NamesAreDetermined | src/utility/sharedLibs.cpp:30-104 | two library names with equal linker name and equal ABI are equal |
| SharedLibs.LinkerNameIsIdempotent | src/utility/sharedLibs.cpp:30-47 | a linker name is its own linker name and has no ABI |
| SharedLibs.LibraryNames | src/utility/filesystem.cpp:450-476 | a shared library is no directory, does not end in ".conf" or ".cache", and its last ".so" ends the name or is followed by a dot; the linker name ends with that ".so" |
| SharedLibs.PrintedNameParsesBack | src/utility/filesystem.cpp:450-476 | a linker name and an ABI, put together, parse back exactly if no token starts with "so" and the last one is neither "conf" nor "cache" |
| ResolveAbi.Consider | src/utility/sharedLibs.cpp:147-168 | the longest ABI moves to a new one only if it is a proper prefix of it; ABIs of equal length leave it as it is |
| ResolveAbi.ResolveAbi | src/utility/sharedLibs.cpp:106-172 | an Error exactly for a directory or a name that is no shared library; otherwise the greedy choice over the qualifying paths among the traversed links and, after them, the real path |
| ResolveAbi.ProcessPaths | src/utility/sharedLibs.cpp:122-171 | the loop variable ends as the greedy choice over the ABIs of the paths, and the values it took on the way form a strictly rising chain under the prefix order |
| ResolveAbi.ValuesRise | src/utility/sharedLibs.cpp:124-171 | the chain of values of the greedy choice, which ProcessPaths shows to be those of longestAbiSoFar, rises strictly, consists of ABIs from the list, and ends in the result |
| ResolveAbi.KeptIffComparable | src/utility/sharedLibs.cpp:152-168 | an ABI of the chain is a prefix of the result exactly if it is comparable with what was found before it |
| ResolveAbi.NothingExtendsResult | src/utility/sharedLibs.cpp:124-171 | no ABI of the chain, accepted or rejected, strictly extends the result |
| ResolveAbi.ChainHasEntry | src/utility/filesystem.cpp:328-341 | the chain is the links met in the library's folder, then the entry with the library's own name, then, if that is a symlink, what follows up to the real path |
| ResolveAbi.ChainIsLogThenReal | src/utility/sharedLibs.cpp:117-122 | every traversed link is considered, in order, and after them the real path |
| ResolveAbi.AbiAtIs | src/utility/sharedLibs.cpp:124-145 | a path counts with the ABI in its file name exactly if it is no directory and names the same library |
| ResolveAbi.RealAbiIsKeptIff | src/utility/sharedLibs.cpp:117-171 | the ABI of the real library never strictly extends the result, and is a prefix of it exactly if comparable with what the traversed links left |
| ResolveAbi.LinkTargetGivesLongerAbi | src/utility/sharedLibs.cpp:106-172 | for libx.so.1 linking to libx.so.1.2 the result is 1.2 |
| ResolveAbi.ResultIsSpelled | src/utility/sharedLibs.cpp:106-172 | a nonempty result behind the linker name spells the file name of a path on the chain |
| ResolveAbi.ResultExtendsOwnAbi | src/utility/sharedLibs.cpp:106-172 | if the entry is not a directory, the result extends the ABI of the requested library's own name exactly if the links of its folder left something comparable with it |
| ResolveAbi.OwnAbiIsKept | src/utility/sharedLibs.cpp:106-172 | the result extends the library's own ABI if no link met in its folder carries a name of the same library and the entry is not a directory |
| ResolveAbi.OwnAbiCanBeLost | src/utility/sharedLibs.cpp:106-172 | with /libx.so.2 linking to the folder /d, the result for /libx.so.2/libx.so.1 is 2, and not an extension of 1 |
| LockProtocol.HolderIsSafe | src/Lockfile.cpp:29-97 | no step of another object, a timeout included, takes a held lock away; only the holder's own release removes its file |
| LockProtocol.NewHolder | src/Lockfile.cpp:111-133 | an object holds a lock after a step only if it held it, was moved into, or has just created a file that did not exist |
| LockProtocol.StepKeepsInv | src/Lockfile.cpp:29-133 | every step keeps: one holder per lock file, every file held or orphaned, pending moves still valid |
| LockProtocol.MutualExclusion | src/Lockfile.cpp:29-97 | in every interleaving each lock path has at most one live holder and its file exists |
| LockProtocol.LockfileNames | src/Lockfile.cpp:99-109 | the lock file's name is the file's with ".lock" behind it, and differs for different files |
| LockProtocol.LockIsKept | src/Lockfile.cpp:29-97 | while no step releases an object or moves from it, it keeps its lock through any steps of others |
| LockProtocol.MoveAssignHandsOver | src/Lockfile.cpp:73-84 | moving to a distinct object never deletes the file it takes over, whatever happens between removing the old file and taking the new one |
| LockProtocol.SelfAssignReleases | src/Lockfile.cpp:73-84 | assigning an object to itself removes its lock file and leaves it empty |
| LockProtocol.NothingLeaks | src/Lockfile.cpp:86-97 | unless close fails, no lock file is left once all objects are gone |
| LockProtocol.OrphansBlock | src/Lockfile.cpp:126-131 | a lock file orphaned by a failing close stays for ever and its path is never acquired again |
| LockfileObject.Lockfile.Construct | src/Lockfile.cpp:29-61 | which attempt ends the constructor, by what the attempts found (a lock file, or an open that fails for another reason), the wrapped clock and a warning interval of 0, what the lock files are then, and how many warnings were logged |
| LockfileObject.Lockfile.Acquire | src/Lockfile.cpp:36-57 | the same for the waiting loop alone |
| LockfileObject.Lockfile.Move | src/Lockfile.cpp:63-71 | the new object has the lock and the old one does not |
| LockfileObject.Lockfile.MoveAssign | src/Lockfile.cpp:73-84 | removes the file held before, takes over the other object's lock, and leaves that one empty |
| LockfileObject.Lockfile.Destroy | src/Lockfile.cpp:86-97 | removes exactly the file held |
| LockfileObject.DeadlineIsExact | src/Lockfile.cpp:36-47 | a lock that is never free fails at attempt ceil(timeout/100)+1, with an elapsed time in [timeout, timeout+100), exactly for timeouts up to 4294967200 ms |
| LockfileObject.BusyLockTimesOut | src/Lockfile.cpp:36-57 | the constructor run on a lock that cannot be created makes exactly ceil(timeout/100)+1 attempts and throws, unless a warning interval of 0 ends it at the first backoff |
| LockfileObject.ExpiresIff | src/Lockfile.cpp:36-47 | there is an attempt at which the wrapped clock shows the timeout exactly for timeouts up to 4294967292 ms |
| LockfileObject.UnboundedWait | src/Lockfile.cpp:29-57 | with a larger timeout or none the constructor never times out, and waits exactly as long as every attempt is blocked |
| LockfileObject.WarningsAreExact | src/Lockfile.cpp:45-56 | n backoffs without wrap-around log exactly floor(100n / lcm(100, warningMs)) warnings, with the least common multiple computed and proved to be one |
| LockSimulation.Empty | src/Lockfile.cpp:27 | the default constructor is the protocol's step |
| LockSimulation.Construct | src/Lockfile.cpp:29-61 | the constructor's attempts, interleaved with any steps of others, are a run of the protocol that ends with creating, creating without closing, timing out or a crash, in agreement on files and object |
| LockSimulation.Move | src/Lockfile.cpp:63-71 | move construction is the protocol's step on both objects |
| LockSimulation.MoveAssign | src/Lockfile.cpp:73-84 | move assignment is the protocol's two steps back to back, also from an object to itself |
| LockSimulation.Destroy | src/Lockfile.cpp:86-97 | destruction is the protocol's step |
| FlockProtocol.StepKeepsInv | src/Flock.cpp:81-195 | every step keeps the kernel's table free of a writer beside others, and each object's state in agreement with it |
| FlockProtocol.ReadersOrOneWriter | src/Flock.cpp:96-166 | in every run the objects whose last acquisition returned normally are all readers or one writer, and have their locks |
| FlockProtocol.LockIsKept | src/Flock.cpp:134-166 | an object that takes no step keeps its lock through any steps of others |
| FlockProtocol.ConversionSucceedsIff | src/Flock.cpp:89-94 | if nobody acts between the kernel's drop of the old lock and its take of the new one, an upgrade succeeds at the first attempt exactly for the only lock holder, and a downgrade always |
| FlockProtocol.ConversionInGap | src/Flock.cpp:89-166 | whatever others do in between, an upgrade succeeds exactly if no lock is left, and a downgrade is refused exactly if another object has taken a write lock in the gap and still has it |
| FlockProtocol.RefusedDowngrade | src/Flock.cpp:89-166 | beside a waiting writer there is a run in which a downgrade is refused and expires, with the lock lost |
| FlockProtocol.ConvertToSameTypeIsNoOp | src/Flock.cpp:89-94 | asking for the type the object already records does nothing, and the lock is there exactly if the last acquisition returned normally |
| FlockProtocol.FailedUpgradeIsSilentNextTime | src/Flock.cpp:89-120 | a reader beside another one that fails to become a writer has lost its lock, and asking again returns normally without one |
| FlockObject.FlockCallIsDropAndTake | src/Flock.cpp:155-166 | one flock call is the protocol's dropping of the old lock followed by taking the new one where others allow it |
| FlockObject.Flock.AcquireLockAtomically | src/Flock.cpp:134-166 | opens the file at most once and reports what flock(2) reports, with the table it leaves |
| FlockObject.Flock.TimedLockAcquisition | src/Flock.cpp:96-120 | with any answers of open(2) and any tables found: every attempt before the last fails, the last one decides, the table is what flock(2) leaves, and the call returns normally exactly with the lock, throws only after the timeout, and with a warning interval of 0 divides by zero at the first backoff |
| FlockObject.BusyLockTimesOut | src/Flock.cpp:96-120 | a lock that stays busy: with a timeout the call throws after ceil(timeout/100)+1 attempts, or one if the timeout is not positive; without one, which is -1, it goes on |
| FlockObject.FdAfterIs | src/Flock.cpp:144-153 | the descriptor is the one held before, or the first that open(2) gives |
| FlockObject.Flock.ConvertToType | src/Flock.cpp:89-94 | records the new type, and returns normally with the lock or throws without it, unless the type was recorded already |
| FlockObject.Flock.Release | src/Flock.cpp:168-195 | takes exactly this object's lock out of the table |
| FlockSimulation.AcquisitionRuns | src/Flock.cpp:96-166 | the attempts of an acquisition, interleaved with any steps of others, are a run of the protocol that ends with the lock, without it, in a crash, or still waiting, in agreement on table and object |
| FlockSimulation.Construct | src/Flock.cpp:38-53 | the constructor is the protocol's step and such an acquisition; after a throw there is no object |
| FlockSimulation.TimedLockAcquisition | src/Flock.cpp:96-120 | the class's acquisition is such a run |
| FlockSimulation.ConvertToType | src/Flock.cpp:89-94 | a conversion is the protocol's step and, for another type than the recorded one, such an acquisition |
| FlockSimulation.Release | src/Flock.cpp:168-195 | releasing is the protocol's step |
| FlockSimulation.ReturnedLocksExclude | src/Flock.cpp:96-166 | two objects of the class whose last acquisition returned normally both have their locks, and both are readers |
| HostObject.Host.SetOwner | src/utility/filesystem.cpp:56-74 | -1 changes nothing, a missing path is an Error, one with too many symlinks another exception, otherwise the owner of what the path leads to is set if chown works |
| HostObject.Host.CreateFolder | src/utility/filesystem.cpp:85-109 | an existing path is left alone; otherwise one folder is added on its parent's device, with the ids asked for if neither is -1 and chown works there and those of the process otherwise, or, if there is no place for it or the system refuses it, an exception thrown with nothing changed |
| HostFiles.FoldersMadeOwner | src/utility/filesystem.cpp:107-107 | every new folder has the ids asked for if neither is -1 and chown works there, and those of the process otherwise |
| HostFiles.FoldersMadeKeep | src/utility/filesystem.cpp:76-110 | for every path, existing nodes stay, only folders with the given owners are new, and the path is there after a normal return |
| HostObject.Host.CreateFoldersIfNecessary | src/utility/filesystem.cpp:76-110 | existing nodes and their owners stay, only folders are new, they have the ids asked for where chown works, and the path exists after a normal return; behind an existing folder, where no symlink is on the way, it succeeds exactly if the path exists or its deepest existing prefix is a folder and the system refuses none of the missing ones, then exactly those are added; else it stops at the first refused prefix, with exactly the missing ones before it added |
| Creation.FoldersNamed | src/utility/filesystem.cpp:76-110 | for a path without symlinks behind an existing folder, which may itself be reached through symlinks, exactly the missing prefixes are made, or the first of them up to one that is refused |
| HostObject.Host.CreateFileIfNecessary | src/utility/filesystem.cpp:112-132 | for every path: nothing disappears, the path exists after a normal return, as a file if it was missing, what is new has the ids asked for where chown works, and an existing node changes exactly if it is a file that the path leads to only through folders just made, which a path without ".." rules out; behind an existing folder, where no symlink is on the way, exactly the missing folders and the file are made, where folders made before an open that fails stay |
| HostFiles.FileMadeKeeps | src/utility/filesystem.cpp:112-132 | for every path, no node disappears and the path is there after a normal return, as a file if it was missing |
| HostFiles.FileMadeOwner | src/utility/filesystem.cpp:120-131 | the new file and the new folders above it have the ids asked for if neither is -1 and chown works there, and those of the process otherwise |
| Creation.NothingToDo | src/utility/filesystem.cpp:112-120 | a path with too many symlinks throws something else than libsarus::Error and an existing one returns, with nothing changed |
| Creation.FileNamed | src/utility/filesystem.cpp:112-132 | for a path without symlinks behind an existing folder exactly the missing folders and the file are made, or the first of them up to one that is refused |
| Creation.ExistingNodeChangesIff | src/utility/filesystem.cpp:120-131 | for every path, an existing node changes exactly if the path did not exist, its folders could be made, it then leads to an existing file that opens, and chown gives that file another owner |
| Creation.WithoutDotDotNothingChanges | src/utility/filesystem.cpp:112-132 | for every path without "..", symlinks or not, every existing node stays as it is whatever the outcome |
| Creation.NoOwnerNothingChanges | src/utility/filesystem.cpp:56-60 | with -1 for an id, every existing node stays as it is |
| Creation.ExistingFileIsGivenAway | src/utility/filesystem.cpp:120-131 | where only /p exists, creating /m/../p makes the folder /m, which belongs to the user where chown works, and gives the existing /p to the user |
| MountDestination.IsPathOnAllowedDevice | src/utility/mount.cpp:135-178 | true exactly if the path's device is that of /tmp, the root filesystem, its dev folder or the lower overlay layer; an Error exactly if the path, /tmp or the root filesystem cannot be inspected, and otherwise another exception exactly if asking for one of the other two is refused |
| MountDestination.AllowedDevicesAre | src/utility/mount.cpp:142-170 | the allowed devices are those of /tmp, the root filesystem, its dev folder and overlay/rootfs-lower beside it, as far as the user may look them up |
| MountDestination.DeviceFaultIs | src/utility/mount.cpp:135-178 | when the question throws, and what |
| MountDestination.FindDeepestExisting | src/utility/mount.cpp:81-90 | the loop finds the longest part of the path that exists with all that comes before it |
| MountDestination.CheckedIsDeepest | src/utility/mount.cpp:81-96 | behind an existing folder, that part of a missing path leads to the deepest existing prefix of where the path leads |
| MountDestination.GetValidatedMountDestination | src/utility/mount.cpp:61-133 | succeeds exactly for an absolute destination and root filesystem path whose checked folder is on an allowed device and that the user may look up, with the destination resolved in what the user sees of the root filesystem; an Error or another exception in the other cases |
| MountDestination.DecidingFolder | src/utility/mount.cpp:73-127 | the device asked about is that of the destination if it is a folder, of the folder it lies in if it is something else, and of its deepest existing prefix if it is missing: allowed after a normal return, and otherwise an Error where nothing is refused |
| MountDestination.CreatedBelowCheckedFolder | src/utility/mount.cpp:231-237 | everything created, however far the creation got, lies strictly below the folder whose device was checked and below the root filesystem, on an allowed device |
| Credentials.Process.SwitchIdentity | src/utility/process.cpp:52-83 | succeeds exactly if the kernel permits all three changes; then effective and file system ids are the new ones; real and saved ids never change; a failure leaves the user ids alone, puts the group id back unless the kernel refuses that too, and leaves the new groups where setgroups had worked |
| Credentials.Process.SetFilesystemUid | src/utility/process.cpp:102-112 | an Error exactly if setfsuid had no effect |
| BindMount.Handle | src/utility/mount.cpp:244-253 | from any state with the same real and saved ids the handler gets back to the root identity |
| BindMount.TryBindMount | src/utility/mount.cpp:206-243 | how each way of leaving the try block leaves the ids, the groups and the tree, and exactly when it is left normally; the tree changes only after everything done as the user has succeeded |
| BindMount.ValidatedBindMount | src/utility/mount.cpp:199-254 | whatever step fails, a normal return or a libsarus::Error leaves the process with its real ids as effective and file system ids; another exception leaves the user's if it was thrown as the user, and otherwise the real ones, except for the file system uid while mounting; the groups after each outcome; which outcome it has, by the first step that throws; the tree changes only after everything done as the user has succeeded, at most by the first missing prefixes of the mount point, which are folders, or with the mount point a file if the source is no directory, and belong to the user where chown works |
| BindMount.RootRunRestoresIdentity | src/utility/mount.cpp:204-253 | a root process ends with exactly the ids it started with; it has its groups back after a normal return exactly if the user is root or has those groups, and after an Error also exactly if the switch to the user was refused or nothing was thrown as the user |
| BindMount.CreatedNodesAreAuthorized | src/utility/mount.cpp:74-110 | every node a call creates, a failing call included, lies strictly below the checked folder, inside the folder that the root filesystem's path leads to, on the checked folder's and an allowed device, with the owner given to it |
| KeyValue.GoodTokenParts | src/utility/string.cpp:60-74 | a pair has a nonempty key and at most one separator exactly if its key is nonempty and its value has no separator |
| KeyValue.CheckPair | src/utility/string.cpp:114-136 | a pair is accepted exactly if it has a nonempty key and at most one separator |
| KeyValue.ParseMap | src/utility/string.cpp:101-152 | succeeds exactly on the empty input or on tokens that are all good pairs with distinct keys |
| KeyValue.OneEntryPerToken | src/utility/string.cpp:113-149 | the map has exactly one entry per token, with the token's value |
| KeyValue.ConvertRequestMapToString | src/MountParser.cpp:273-289 | the printed pairs, separated by commas, in the order of enumeration |
| KeyValue.RoundTripIffClean | src/MountParser.cpp:273-289 | printing a map in any order and parsing it gives the map back exactly if keys are nonempty and no key or value has a separator |
| KeyValue.ParseThenPrint | src/utility/string.cpp:101-152 | printing a parsed map in token order gives the input with each "k=" shortened to "k" |
| Replace.ReplaceAll | src/utility/string.cpp:38-46 | the loop ends, with the substitution of the leftmost occurrences in the original text |
| Replace.PiecesAreLeftmost | src/utility/string.cpp:40-44 | the pieces between the occurrences glue back to the text, each ends at the first occurrence behind the one before, and the last has none |
| Replace.LeftmostCutIsUnique | src/utility/string.cpp:40-44 | a text has only one such cut |
| Replace.ReplacedIsLeftmostSubstitution | src/utility/string.cpp:38-46 | a text is the result exactly if it glues the pieces of a leftmost cut with the substitute |
| PasswdDB.StoulReads | src/PasswdDB.cpp:102-103 | a number field is white space, a sign, digits and a rest; it throws exactly if it has no digits or they need more than 64 bits, and a minus sign wraps around |
| PasswdDB.EveryFieldHasShape | src/PasswdDB.cpp:102-103 | every text is such a field, so that the accepted ones are exactly characterised |
| PasswdDB.StoulReadsDecimal | src/PasswdDB.cpp:102-103 | an id written in decimal is read back |
| PasswdDB.Database.Read | src/PasswdDB.cpp:82-87 | returns normally exactly if every line parses, with one entry per line in order; after an exception the entries before the bad line are there |
| PasswdDB.ParseLineIff | src/PasswdDB.cpp:89-111 | a line of colon-free fields parses exactly if there are six or seven and the third and fourth are numbers; its texts are the others, its ids the numbers modulo 2^32, its interpreter the seventh field if there is one and it is not empty |
| PasswdDB.EveryLineIsJoined | src/PasswdDB.cpp:91-91 | every line is the join of such fields |
| PasswdDB.SixFieldLine | src/PasswdDB.cpp:92-105 | a line of six fields gives an entry without interpreter |
| PasswdDB.LinesAre | src/PasswdDB.cpp:82-87 | the lines are what stands before each newline, and a nonempty rest |
| PasswdDB.ReadTextIff | src/PasswdDB.cpp:82-87 | a text reads exactly if each of its lines parses, as their entries in order |
| PasswdDB.AcceptedAre | src/PasswdDB.cpp:82-87 | the entries accepted before an exception are those of the lines before the first that does not parse |
| PasswdDB.Database.Write | src/PasswdDB.cpp:29-43 | one line per entry, in order |
| PasswdDB.EntryLine | src/PasswdDB.cpp:32-41 | the seven fields in order, each behind a colon |
| PasswdDB.LineParsesBack | src/PasswdDB.cpp:89-111 | the line of a clean entry parses to that entry |
| PasswdDB.RoundTripIffClean | src/PasswdDB.cpp:29-111 | writing and reading gives the same list exactly if no text field has a colon or newline and no interpreter is present but empty |
| PasswdDB.ReadWriteRead | src/PasswdDB.cpp:29-111 | for every text that reads without an exception, reading, writing and reading again is reading once |

## Left out

- Resolver.AppendPathsWithinRootfs: a start path with a symlink among its prefixes is looked up as it is spelled, while lstat would follow it on the host; every call in the library starts at "/" or at a resolved path, and for those ResolverReference.LstatIsLookup shows that the lookup is lstat.
- MountDestination.GetValidatedMountDestination: the destination is one on which resolution returns (ResolverTermination.DivergesIffReenters says which do); on others the source recurses without end. Which folders the user may search is a function of the path.
- BindMount.ValidatedBindMount: finding the source and the mount itself appear only as steps that may throw; the kernel accepts ids the process already holds and a list of groups it has itself reported; new nodes get the file system ids of the process, with no set-group-ID folders.
- HostObject.Host.CreateFoldersIfNecessary: asking whether a path exists is refused only for too many symlinks; I/O errors there appear as what the system answers to the creation of the first missing prefix.
- Replace.ReplaceAll: an empty pattern is not allowed, because the source's loop does not end on it (Replace.EmptyPatternMatchesAgain).
- Boost path syntax: root names such as "//host", empty elements from trailing separators; paths are given by their elements.
- The limit on path lengths and failures of readlink.
- Concurrent changes of the tree during createFoldersIfNecessary; the branch for a folder that another process has just created.
- An assertion failure in setOwner when only one of the two ids is -1; the model follows a build without assertions.
- Flock's moves, which copy the descriptor without clearing it in the source object.
- flock(2) failing for other reasons than a conflicting lock.
- Log messages, apart from the number of warnings about a busy lock file; what a crash does to other objects of the process.
- convertBindMountFlags and the other checks of MountParser, device files, JSON, command line, process execution, CPU affinity, overlay and squashfs mounts, cgroups: independent of what is modelled here.

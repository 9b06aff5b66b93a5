/** The Flock class itself, over the kernel's table of locks on its file (src/Flock.cpp). */
module FlockObject {
  import opened FlockProtocol

  /** `milliseconds{ULLONG_MAX}` as the signed 64-bit count it is stored in. */
  const NO_TIMEOUT: int := -1
  const BACKOFF_MS: int := 100

  datatype Outcome =
    | Returned
    | Threw
    /** with a warning interval of 0, the first backoff ends in a division by zero */
    | Crashed
    | StillWaiting

  class Kernel {
    var locks: Table

    constructor ()
      ensures locks == map[]
    {
      locks := map[];
    }
  }

  /** `flock(fd, lockType | LOCK_NB)`: whether it succeeds, and the locks after it. */
  function FlockCall(locks: Table, fd: nat, lockType: LockType): (bool, Table) {
    if fd in locks && locks[fd] == lockType then (true, locks)
    else if Compatible(locks - {fd}, lockType) then (true, (locks - {fd})[fd := lockType])
    else (false, locks - {fd})
  }

  /** What the kernel call does is one of the protocol's ways on: Drop where needed, then Take. */
  lemma FlockCallIsDropAndTake(w: World, id: Id)
    requires Inv(w) && InPhase(w, id, Acquiring) && w.objs[id].open
    ensures var w1 := if Enabled(w, Drop(id)) then Next(w, Drop(id)) else w;
            var call := FlockCall(w.table, id, w.objs[id].lockType);
            && (call.0 <==> Enabled(w1, Take(id)))
            && call.1 == if call.0 then Next(w1, Take(id)).table else w1.table
  {
    assert ObjConsistent(w, id);
    if id !in w.table {
      assert w.table - {id} == w.table;
    }
  }

  /** The table that attempt k finds. */
  function TableAt(first: Table, later: seq<Table>, k: nat): Table
    requires k <= |later|
  {
    if k == 0 then first else later[k - 1]
  }

  /** The descriptor after n attempts: the first one that open(2) has given. */
  function FdAfter(fd: int, newFds: seq<int>, n: nat): int
    requires n <= |newFds|
  {
    if n == 0 then fd
    else
      var before := FdAfter(fd, newFds, n - 1);
      if before < 0 && newFds[n - 1] >= 0 then newFds[n - 1] else before
  }

  /** The file is opened until that works, and the descriptor then stays. */
  lemma {:induction false} FdAfterIs(fd: int, newFds: seq<int>, n: nat)
    requires n <= |newFds|
    ensures fd >= 0 || (forall k :: 0 <= k < n ==> newFds[k] < 0) ==> FdAfter(fd, newFds, n) == fd
    ensures forall k :: 0 <= k < n && fd < 0 && newFds[k] >= 0 && (forall i :: 0 <= i < k ==> newFds[i] < 0) ==>
              FdAfter(fd, newFds, n) == newFds[k]
  {
    if n > 0 {
      FdAfterIs(fd, newFds, n - 1);
    }
  }

  predicate Succeeds(locks: Table, fd: int, lockType: LockType) {
    fd >= 0 && FlockCall(locks, fd, lockType).0
  }

  function LocksAfter(locks: Table, fd: int, lockType: LockType): Table {
    if fd >= 0 then FlockCall(locks, fd, lockType).1 else locks
  }

  lemma SucceedsWithLock(locks: Table, fd: int, lockType: LockType)
    ensures var after := LocksAfter(locks, fd, lockType);
            Succeeds(locks, fd, lockType) <==> fd in after && after[fd] == lockType
  {
  }

  /** The first n attempts fail. */
  ghost predicate AllFail(first: Table, later: seq<Table>, fd: int, newFds: seq<int>, lockType: LockType, n: nat)
    requires n <= |later| && n <= |newFds|
  {
    forall k :: 0 <= k < n ==> !Succeeds(TableAt(first, later, k), FdAfter(fd, newFds, k + 1), lockType)
  }

  /** Every attempt but the last has failed, and the last one decides. */
  ghost predicate DecidedBy(attempts: nat, ok: bool, first: Table, later: seq<Table>, fd: int, newFds: seq<int>,
                            lockType: LockType, locks: Table)
    requires 0 < attempts <= |later| + 1 == |newFds|
  {
    var found, last := TableAt(first, later, attempts - 1), FdAfter(fd, newFds, attempts);
    && AllFail(first, later, fd, newFds, lockType, attempts - 1)
    && ok == Succeeds(found, last, lockType)
    && locks == LocksAfter(found, last, lockType)
  }

  class Flock {
    var lockType: LockType
    var fileFd: int

    constructor (lockType: LockType)
      ensures this.lockType == lockType && fileFd == -1
    {
      this.lockType := lockType;
      fileFd := -1;
    }

    /** `newFd` is what open(2) returns if it is called: a new descriptor, or -1. */
    method AcquireLockAtomically(kernel: Kernel, newFd: int) returns (ok: bool)
      modifies this, kernel
      ensures lockType == old(lockType)
      ensures fileFd == if old(fileFd) < 0 && newFd >= 0 then newFd else old(fileFd)
      ensures ok == Succeeds(old(kernel.locks), fileFd, lockType)
      ensures kernel.locks == LocksAfter(old(kernel.locks), fileFd, lockType)
    {
      if fileFd < 0 {
        if newFd < 0 {
          return false;
        }
        fileFd := newFd;
      }
      var call := FlockCall(kernel.locks, fileFd, lockType);
      ok := call.0;
      kernel.locks := call.1;
    }

    /**
     * `newFds[k]` is what open(2) returns if attempt k (counting from 0) calls it, and `later[k]` the
     * table the other processes have left when attempt k + 1 is made (attempt 0 finds the table as it
     * is); the model gives up, StillWaiting, where `later` ends.
     */
    method TimedLockAcquisition(kernel: Kernel, timeoutMs: int, warningMs: int, newFds: seq<int>, later: seq<Table>)
      returns (outcome: Outcome, attempts: nat)
      requires |newFds| == |later| + 1
      modifies this, kernel
      ensures lockType == old(lockType)
      ensures 0 < attempts <= |later| + 1 && fileFd == FdAfter(old(fileFd), newFds, attempts)
      ensures DecidedBy(attempts, outcome == Returned, old(kernel.locks), later, old(fileFd), newFds, lockType,
                        kernel.locks)
      ensures outcome.Returned? <==> fileFd in kernel.locks && kernel.locks[fileFd] == lockType
      // the deadline is passed at the last attempt of a call that throws, and never before
      ensures outcome.Threw? ==> timeoutMs != -1 && 100 * (attempts - 1) >= timeoutMs
      ensures timeoutMs != -1 ==> forall i: nat :: i < attempts - 1 ==> 100 * i < timeoutMs
      ensures outcome.StillWaiting? ==> attempts == |later| + 1
      ensures outcome.StillWaiting? || outcome.Crashed? ==> timeoutMs == -1 || 100 * (attempts - 1) < timeoutMs
      ensures warningMs == 0 ==> attempts == 1 && outcome != StillWaiting
      ensures outcome.Crashed? ==> warningMs == 0
    {
      var elapsedTime := 0;
      attempts := 1;
      ghost var first := kernel.locks;
      ghost var fd := fileFd;
      assert FdAfter(fd, newFds, 0) == fd;
      var ok := AcquireLockAtomically(kernel, newFds[0]);
      while !ok
        invariant 1 <= attempts <= |later| + 1
        invariant lockType == old(lockType)
        invariant warningMs == 0 ==> attempts == 1
        invariant fileFd == FdAfter(fd, newFds, attempts)
        invariant elapsedTime == BACKOFF_MS * (attempts - 1)
        invariant timeoutMs != NO_TIMEOUT ==> forall i: nat :: i < attempts - 1 ==> BACKOFF_MS * i < timeoutMs
        invariant AllFail(first, later, fd, newFds, lockType, attempts - 1)
        invariant ok == Succeeds(TableAt(first, later, attempts - 1), fileFd, lockType)
        invariant kernel.locks == LocksAfter(TableAt(first, later, attempts - 1), fileFd, lockType)
        decreases |later| + 1 - attempts, !ok
      {
        SucceedsWithLock(TableAt(first, later, attempts - 1), fileFd, lockType);
        if timeoutMs != NO_TIMEOUT && elapsedTime >= timeoutMs {
          return Threw, attempts;
        }
        elapsedTime := elapsedTime + BACKOFF_MS;
        if warningMs == 0 {
          return Crashed, attempts;
        }
        if attempts == |later| + 1 {
          return StillWaiting, attempts;
        }
        kernel.locks := later[attempts - 1];
        attempts := attempts + 1;
        ok := AcquireLockAtomically(kernel, newFds[attempts - 1]);
      }
      SucceedsWithLock(TableAt(first, later, attempts - 1), fileFd, lockType);
      outcome := Returned;
    }

    method ConvertToType(lockType: LockType, kernel: Kernel, timeoutMs: int, warningMs: int, newFds: seq<int>,
                         later: seq<Table>)
      returns (outcome: Outcome, attempts: nat)
      requires |newFds| == |later| + 1
      modifies this, kernel
      ensures this.lockType == lockType
      ensures old(this.lockType) == lockType ==>
                outcome == Returned && attempts == 0 && kernel.locks == old(kernel.locks) && fileFd == old(fileFd)
      ensures old(this.lockType) != lockType ==>
                && 0 < attempts <= |later| + 1 && fileFd == FdAfter(old(fileFd), newFds, attempts)
                && DecidedBy(attempts, outcome == Returned, old(kernel.locks), later, old(fileFd), newFds, lockType,
                             kernel.locks)
                && (outcome.Returned? <==> fileFd in kernel.locks && kernel.locks[fileFd] == lockType)
    {
      outcome, attempts := Returned, 0;
      if lockType != this.lockType {
        this.lockType := lockType;
        outcome, attempts := TimedLockAcquisition(kernel, timeoutMs, warningMs, newFds, later);
      }
    }

    /** flock(LOCK_UN) and close; their failures are only logged. */
    method Release(kernel: Kernel)
      modifies kernel
      ensures kernel.locks == if fileFd >= 0 then old(kernel.locks) - {fileFd} else old(kernel.locks)
    {
      if fileFd >= 0 {
        kernel.locks := kernel.locks - {fileFd};
      }
    }
  }

  /**
   * A lock that stays busy: an acquisition with a timeout, also a negative one, throws after
   * ceil(timeout / 100) + 1 attempts, or after one; without a timeout, which is -1, it goes on.
   */
  method BusyLockTimesOut(lock: Flock, kernel: Kernel, timeoutMs: int, warningMs: int, newFds: seq<int>,
                          later: seq<Table>)
    returns (outcome: Outcome, attempts: nat)
    requires |newFds| == |later| + 1 && warningMs != 0
    requires forall k :: 0 <= k <= |later| ==>
               !Succeeds(TableAt(kernel.locks, later, k), FdAfter(lock.fileFd, newFds, k + 1), lock.lockType)
    requires timeoutMs <= 100 * |later|
    modifies lock, kernel
    ensures if timeoutMs == -1 then outcome == StillWaiting && attempts == |later| + 1
            else outcome == Threw && attempts == (if timeoutMs <= 0 then 0 else (timeoutMs + 99) / 100) + 1
  {
    outcome, attempts := lock.TimedLockAcquisition(kernel, timeoutMs, warningMs, newFds, later);
    assert timeoutMs != -1 && attempts > 1 ==> 100 * (attempts - 2) < timeoutMs;
  }
}

/**
 * The Flock class runs the steps of the interleaved model, so that what holds in every run holds
 * for the class.  An object is known by the open file it locks through, or will lock through.
 */
module FlockSimulation {
  import opened FlockProtocol
  import opened FlockObject

  /** The object is the world's `id`, and the kernel has the world's table. */
  predicate Shows(w: World, id: Id, lockType: LockType, fileFd: int, locks: Table) {
    && id in w.objs && w.objs[id].lockType == lockType
    && (w.objs[id].open <==> fileFd >= 0) && (fileFd >= 0 ==> fileFd == id)
    && w.table == locks
  }

  // ----- One attempt -----

  /** The world after an attempt of `id`, which ends with descriptor `fd` or without one. */
  function AfterAttempt(w: World, id: Id, fd: int): World
    requires id in w.objs
  {
    var o := w.objs[id];
    var ok := Succeeds(w.table, fd, o.lockType);
    World(LocksAfter(w.table, fd, o.lockType),
          w.objs[id := Obj(o.lockType, fd >= 0, if ok then Acquired else Acquiring, o.constructed || ok)])
  }

  /** Opening the file, where that is still to be done. */
  lemma OpeningRuns(w: World, id: Id, fd: int) returns (steps: seq<Step>, w': World)
    requires Inv(w) && InPhase(w, id, Acquiring) && (fd >= 0 ==> fd == id) && (w.objs[id].open ==> fd >= 0)
    ensures Run(w, steps, w') && Inv(w') && w'.table == w.table
    ensures w'.objs == w.objs[id := w.objs[id].(open := fd >= 0)]
  {
    if fd >= 0 && !w.objs[id].open {
      steps, w' := [Open(id)], Next(w, Open(id));
      OneStep(w, Open(id));
      StepKeepsInv(w, Open(id));
    } else {
      steps, w' := [], w;
      assert w.objs == w.objs[id := w.objs[id].(open := fd >= 0)];
    }
  }

  /** The flock call on the open file. */
  lemma LockingRuns(w: World, id: Id) returns (steps: seq<Step>)
    requires Inv(w) && InPhase(w, id, Acquiring) && w.objs[id].open
    ensures Run(w, steps, AfterAttempt(w, id, id))
  {
    FlockCallIsDropAndTake(w, id);
    var w1 := if Enabled(w, Drop(id)) then Next(w, Drop(id)) else w;
    if Enabled(w, Drop(id)) {
      steps := [Drop(id)];
      OneStep(w, Drop(id));
    } else {
      steps := [];
    }
    var w' := AfterAttempt(w, id, id);
    if Succeeds(w.table, id, w.objs[id].lockType) {
      assert w' == Next(w1, Take(id));
      OneStep(w1, Take(id));
      RunsJoin(w, steps, w1, [Take(id)], w');
      steps := steps + [Take(id)];
    } else {
      assert w'.objs == w1.objs;
    }
  }

  lemma AttemptRuns(w: World, id: Id, fd: int) returns (steps: seq<Step>)
    requires Inv(w) && InPhase(w, id, Acquiring) && (fd >= 0 ==> fd == id) && (w.objs[id].open ==> fd >= 0)
    ensures var w' := AfterAttempt(w, id, fd);
            Run(w, steps, w') && Inv(w') && (!Succeeds(w.table, fd, w.objs[id].lockType) ==> id !in w'.table)
  {
    assert ObjConsistent(w, id);
    var opening, w1 := OpeningRuns(w, id, fd);
    steps := opening;
    var w' := AfterAttempt(w, id, fd);
    if fd >= 0 {
      var locking := LockingRuns(w1, id);
      assert AfterAttempt(w1, id, id) == w';
      RunsJoin(w, opening, w1, locking, w');
      steps := opening + locking;
    } else {
      assert w' == w1;
    }
    RunKeepsInv(w, steps, w');
    assert ObjConsistent(w', id);
  }

  // ----- A whole acquisition -----

  /** The object is about to make an attempt, with descriptor `fd` or without one. */
  predicate Ready(w: World, id: Id, lockType: LockType, fd: int, constructed: bool) {
    && InPhase(w, id, Acquiring) && w.objs[id].lockType == lockType
    && (w.objs[id].open <==> fd >= 0) && w.objs[id].constructed == constructed
  }

  /**
   * An acquisition of `id` and what happens meanwhile: `worlds[k]` is the world of attempt k, and
   * `others[k]` are the steps between this attempt, if it fails, and the next.
   */
  datatype Story = Story(id: Id, constructed: bool, worlds: seq<World>, others: seq<seq<Step>>)

  ghost predicate Interleaved(s: Story, lockType: LockType, fd: int, newFds: seq<int>, first: Table, later: seq<Table>)
  {
    && |s.worlds| == |newFds| == |later| + 1 && |s.others| == |later|
    && (forall k :: 0 <= k <= |newFds| && FdAfter(fd, newFds, k) >= 0 ==> FdAfter(fd, newFds, k) == s.id)
    && Ready(s.worlds[0], s.id, lockType, fd, s.constructed) && s.worlds[0].table == first
    && forall k :: 0 <= k < |later| && AllFail(first, later, fd, newFds, lockType, k + 1) ==>
         Turn(s, lockType, fd, newFds, later, k)
  }

  ghost predicate Turn(s: Story, lockType: LockType, fd: int, newFds: seq<int>, later: seq<Table>, k: nat)
    requires |s.worlds| == |newFds| == |later| + 1 && |s.others| == |later| && k < |later|
  {
    && Ready(s.worlds[k + 1], s.id, lockType, FdAfter(fd, newFds, k + 1), s.constructed)
    && s.worlds[k + 1].table == later[k]
    && s.id in s.worlds[k].objs
    && Run(AfterAttempt(s.worlds[k], s.id, FdAfter(fd, newFds, k + 1)), s.others[k], s.worlds[k + 1])
  }

  /** The first n attempts, all of them failing, and what others do in between. */
  lemma {:induction false} WaitingRuns(s: Story, lockType: LockType, fd: int, newFds: seq<int>,
                                       first: Table, later: seq<Table>, n: nat)
    returns (steps: seq<Step>)
    requires Interleaved(s, lockType, fd, newFds, first, later) && Inv(s.worlds[0])
    requires n <= |later| && AllFail(first, later, fd, newFds, lockType, n)
    ensures Run(s.worlds[0], steps, s.worlds[n]) && Inv(s.worlds[n])
    ensures Ready(s.worlds[n], s.id, lockType, FdAfter(fd, newFds, n), s.constructed)
    ensures s.worlds[n].table == TableAt(first, later, n)
  {
    if n == 0 {
      steps := [];
    } else {
      var before := WaitingRuns(s, lockType, fd, newFds, first, later, n - 1);
      var w := s.worlds[n - 1];
      var attempt := AttemptRuns(w, s.id, FdAfter(fd, newFds, n));
      var w1 := AfterAttempt(w, s.id, FdAfter(fd, newFds, n));
      assert AllFail(first, later, fd, newFds, lockType, (n - 1) + 1);
      assert Turn(s, lockType, fd, newFds, later, n - 1);
      assert !Succeeds(TableAt(first, later, n - 1), FdAfter(fd, newFds, n - 1 + 1), lockType);
      OneStep(w1, Backoff(s.id));
      RunsJoin(w1, [Backoff(s.id)], w1, s.others[n - 1], s.worlds[n]);
      RunKeepsInv(w1, s.others[n - 1], s.worlds[n]);
      steps := attempt + ([Backoff(s.id)] + s.others[n - 1]);
      RunsJoin(w, attempt, w1, [Backoff(s.id)] + s.others[n - 1], s.worlds[n]);
      RunsJoin(s.worlds[0], before, w, steps, s.worlds[n]);
      steps := before + steps;
    }
  }

  /** Where an acquisition has ended: with the lock, without it and perhaps without the object, or still waiting. */
  ghost predicate Ended(w: World, s: Story, outcome: Outcome) {
    match outcome
    case Returned => InPhase(w, s.id, Acquired)
    case Threw => s.id !in w.table && if s.constructed then InPhase(w, s.id, Failed) else s.id !in w.objs
    case Crashed => InPhase(w, s.id, Acquiring)
    case StillWaiting => InPhase(w, s.id, Acquiring)
  }

  /** What the last attempt leaves, if the call returns or goes on waiting. */
  lemma AttemptEnds(s: Story, w: World, lockType: LockType, before: int, last: int)
    requires Ready(w, s.id, lockType, before, s.constructed) && (last >= 0 ==> last == s.id)
    ensures var w1 := AfterAttempt(w, s.id, last);
            && Shows(w1, s.id, lockType, last, LocksAfter(w.table, last, lockType))
            && w1.objs[s.id].phase == (if Succeeds(w.table, last, lockType) then Acquired else Acquiring)
            && (w1.objs[s.id].constructed <==> s.constructed || Succeeds(w.table, last, lockType))
  {
  }

  /** And if it throws. */
  lemma ExpiryRuns(s: Story, w: World, before: seq<Step>, w1: World, lockType: LockType, last: int)
    returns (steps: seq<Step>, w': World)
    requires Run(w, before, w1) && Inv(w1) && InPhase(w1, s.id, Acquiring) && s.id !in w1.table
    requires Shows(w1, s.id, lockType, last, w1.table) && (w1.objs[s.id].constructed <==> s.constructed)
    ensures Run(w, steps, w') && Inv(w') && Ended(w', s, Threw) && w'.table == w1.table
    ensures s.id in w'.objs ==> Shows(w', s.id, lockType, last, w1.table)
  {
    steps, w' := before + [Expire(s.id)], Next(w1, Expire(s.id));
    OneStep(w1, Expire(s.id));
    StepKeepsInv(w1, Expire(s.id));
    RunsJoin(w, before, w1, [Expire(s.id)], w');
  }

  /** The attempts of an acquisition, with the steps of the others between them, are a run of the protocol. */
  lemma AcquisitionRuns(s: Story, lockType: LockType, fd: int, newFds: seq<int>, first: Table, later: seq<Table>,
                        outcome: Outcome, attempts: nat, locks: Table)
    returns (steps: seq<Step>, w': World)
    requires Interleaved(s, lockType, fd, newFds, first, later) && Inv(s.worlds[0])
    requires 0 < attempts <= |later| + 1
    requires DecidedBy(attempts, outcome == Returned, first, later, fd, newFds, lockType, locks)
    ensures Run(s.worlds[0], steps, w') && Inv(w') && Ended(w', s, outcome) && w'.table == locks
    ensures s.id in w'.objs ==> Shows(w', s.id, lockType, FdAfter(fd, newFds, attempts), locks)
  {
    var w, last := s.worlds[attempts - 1], FdAfter(fd, newFds, attempts);
    var before := WaitingRuns(s, lockType, fd, newFds, first, later, attempts - 1);
    var attempt := AttemptRuns(w, s.id, last);
    AttemptEnds(s, w, lockType, FdAfter(fd, newFds, attempts - 1), last);
    w' := AfterAttempt(w, s.id, last);
    RunsJoin(s.worlds[0], before, w, attempt, w');
    steps := before + attempt;
    if outcome == Threw {
      steps, w' := ExpiryRuns(s, s.worlds[0], steps, w', lockType, last);
    }
  }

  // ----- The class -----

  method TimedLockAcquisition(lock: Flock, kernel: Kernel, timeoutMs: int, warningMs: int, newFds: seq<int>,
                              later: seq<Table>, ghost s: Story)
    returns (outcome: Outcome, ghost steps: seq<Step>, ghost w': World)
    requires Interleaved(s, lock.lockType, lock.fileFd, newFds, kernel.locks, later) && Inv(s.worlds[0])
    modifies lock, kernel
    ensures Run(s.worlds[0], steps, w') && Inv(w') && Ended(w', s, outcome) && w'.table == kernel.locks
    ensures s.id in w'.objs ==> Shows(w', s.id, lock.lockType, lock.fileFd, kernel.locks)
  {
    ghost var first, fd := kernel.locks, lock.fileFd;
    var attempts;
    outcome, attempts := lock.TimedLockAcquisition(kernel, timeoutMs, warningMs, newFds, later);
    steps, w' := AcquisitionRuns(s, lock.lockType, fd, newFds, first, later, outcome, attempts, kernel.locks);
  }

  /** The constructor: the object appears, and its acquisition ends with the lock or with no object. */
  method Construct(lockType: LockType, kernel: Kernel, timeoutMs: int, warningMs: int, newFds: seq<int>,
                   later: seq<Table>, ghost w: World, ghost s: Story)
    returns (outcome: Outcome, lock: Flock, ghost steps: seq<Step>, ghost w': World)
    requires Inv(w) && Enabled(w, Step.Construct(s.id, lockType)) && !s.constructed
    requires Interleaved(s, lockType, -1, newFds, kernel.locks, later)
    requires s.worlds[0] == Next(w, Step.Construct(s.id, lockType))
    modifies kernel
    ensures Run(w, [Step.Construct(s.id, lockType)] + steps, w') && Inv(w') && Ended(w', s, outcome)
    ensures w'.table == kernel.locks
    ensures s.id in w'.objs ==> Shows(w', s.id, lock.lockType, lock.fileFd, kernel.locks)
  {
    StepKeepsInv(w, Step.Construct(s.id, lockType));
    OneStep(w, Step.Construct(s.id, lockType));
    lock := new Flock(lockType);
    outcome, steps, w' := TimedLockAcquisition(lock, kernel, timeoutMs, warningMs, newFds, later, s);
    RunsJoin(w, [Step.Construct(s.id, lockType)], s.worlds[0], steps, w');
  }

  /** A conversion to the recorded type is one step; any other goes on with an acquisition. */
  method ConvertToType(lock: Flock, lockType: LockType, kernel: Kernel, timeoutMs: int, warningMs: int,
                       newFds: seq<int>, later: seq<Table>, ghost w: World, ghost s: Story)
    returns (outcome: Outcome, ghost steps: seq<Step>, ghost w': World)
    requires Inv(w) && Shows(w, s.id, lock.lockType, lock.fileFd, kernel.locks) && Enabled(w, Convert(s.id, lockType))
    requires |newFds| == |later| + 1 && s.constructed
    requires lockType != lock.lockType ==>
               && Interleaved(s, lockType, lock.fileFd, newFds, kernel.locks, later)
               && s.worlds[0] == Next(w, Convert(s.id, lockType))
    modifies lock, kernel
    ensures Run(w, [Convert(s.id, lockType)] + steps, w') && Inv(w')
    ensures Shows(w', s.id, lock.lockType, lock.fileFd, kernel.locks) && lock.lockType == lockType
    ensures if old(lock.lockType) == lockType then outcome == Returned && w' == w else Ended(w', s, outcome)
  {
    ghost var first, fd, recorded := kernel.locks, lock.fileFd, lock.lockType;
    StepKeepsInv(w, Convert(s.id, lockType));
    OneStep(w, Convert(s.id, lockType));
    assert ObjConsistent(w, s.id);
    var attempts;
    outcome, attempts := lock.ConvertToType(lockType, kernel, timeoutMs, warningMs, newFds, later);
    if lockType != recorded {
      steps, w' := AcquisitionRuns(s, lockType, fd, newFds, first, later, outcome, attempts, kernel.locks);
      RunsJoin(w, [Convert(s.id, lockType)], s.worlds[0], steps, w');
    } else {
      steps, w' := [], w;
      assert [Convert(s.id, lockType)] + [] == [Convert(s.id, lockType)];
    }
  }

  method Release(lock: Flock, kernel: Kernel, ghost w: World, ghost id: Id)
    requires Inv(w) && Shows(w, id, lock.lockType, lock.fileFd, kernel.locks) && Enabled(w, Destroy(id))
    modifies kernel
    ensures kernel.locks == Next(w, Destroy(id)).table && id !in Next(w, Destroy(id)).objs
  {
    assert ObjConsistent(w, id);
    lock.Release(kernel);
    assert id !in w.table ==> w.table - {id} == w.table;
  }

  /** Of two objects whose last acquisition returned normally, each has its lock, and both are readers. */
  lemma ReturnedLocksExclude(w: World, a: Id, b: Id, lockTypeA: LockType, lockTypeB: LockType, fdA: int, fdB: int,
                             locks: Table)
    requires Inv(w) && a != b && InPhase(w, a, Acquired) && InPhase(w, b, Acquired)
    requires Shows(w, a, lockTypeA, fdA, locks) && Shows(w, b, lockTypeB, fdB, locks)
    ensures fdA in locks && locks[fdA] == lockTypeA == ReadLock
    ensures fdB in locks && locks[fdB] == lockTypeB == ReadLock
  {
    assert ObjConsistent(w, a) && ObjConsistent(w, b);
  }
}

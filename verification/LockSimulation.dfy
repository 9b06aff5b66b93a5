/**
 * The Lockfile class runs the steps of the interleaved model: each of its methods takes the
 * class, the directory and the world from agreement to agreement along steps of the protocol.
 */
module LockSimulation {
  import opened Wrappers
  import opened LockProtocol
  import opened LockfileObject

  /** The object is the world's live object `id`, and the directory has the world's files. */
  predicate Shows(w: World, id: Id, lockfile: Option<string>, files: set<string>) {
    id in w.objs && w.objs[id] == Live(lockfile) && w.files == files
  }

  // ----- The constructor -----

  /**
   * `worlds[k]` is the world of attempt k, with the constructor of `id` under way, and
   * `others[k]` is what happens between this attempt and the next.
   */
  ghost predicate Interleaved(worlds: seq<World>, others: seq<seq<Step>>, id: Id, path: string, seen: seq<Attempt>) {
    && |worlds| == |seen| && |others| >= |seen| - 1
    && (forall k :: 0 <= k < |seen| ==>
          id in worlds[k].objs && worlds[k].objs[id] == Acquiring(path) && worlds[k].files == seen[k].files)
    && (forall k :: 0 <= k < |seen| - 1 ==> Run(worlds[k], others[k], worlds[k + 1]))
  }

  /** n failed attempts, each with what follows it. */
  function Waiting(id: Id, others: seq<seq<Step>>, n: nat): seq<Step>
    requires n <= |others|
  {
    if n == 0 then [] else Waiting(id, others, n - 1) + ([Backoff(id)] + others[n - 1])
  }

  lemma {:induction false} WaitingRuns(worlds: seq<World>, others: seq<seq<Step>>, id: Id, path: string,
                                       seen: seq<Attempt>, n: nat)
    requires Interleaved(worlds, others, id, path, seen) && n < |seen|
    ensures Run(worlds[0], Waiting(id, others, n), worlds[n])
  {
    if n > 0 {
      WaitingRuns(worlds, others, id, path, seen, n - 1);
      var turn := [Backoff(id)] + others[n - 1];
      assert turn[1..] == others[n - 1];
      assert Run(worlds[n - 1], turn, worlds[n]);
      RunsJoin(worlds[0], Waiting(id, others, n - 1), worlds[n - 1], turn, worlds[n]);
    }
  }

  /** The step that ends the constructor. */
  function LastStep(outcome: Outcome, id: Id): Step {
    match outcome
    case Acquired => Create(id)
    case CloseFailed => CreateButNotClose(id)
    case TimedOut => TimeOut(id)
    // as far as the lock files go, a crash is an end without the lock
    case Crashed => TimeOut(id)
    case StillWaiting => Backoff(id)
  }

  lemma LastStepRuns(w: World, steps: seq<Step>, w1: World, s: Step)
    requires Run(w, steps, w1) && Enabled(w1, s)
    ensures Run(w, steps + [s], Next(w1, s))
  {
    assert [s][1..] == [];
    assert Run(Next(w1, s), [s][1..], Next(w1, s));
    RunsJoin(w, steps, w1, [s], Next(w1, s));
  }

  /** The constructor's attempts, with the steps of the others between them, are a run of the protocol. */
  method Construct(dir: LockDir, file: string, timeoutMs: nat, warningMs: nat, seen: seq<Attempt>, closeOk: bool,
                   ghost id: Id, ghost worlds: seq<World>, ghost others: seq<seq<Step>>)
    returns (outcome: Outcome, lock: Lockfile?, ghost steps: seq<Step>, ghost w': World)
    requires seen != [] && Interleaved(worlds, others, id, LockfileName(file), seen)
    modifies dir
    ensures Run(worlds[0], steps, w') && steps != [] && steps[|steps| - 1] == LastStep(outcome, id)
    ensures dir.files == w'.files
    ensures outcome.Acquired? <==> lock != null
    ensures outcome.Acquired? ==> Shows(w', id, lock.lockfile, dir.files)
    ensures outcome.CloseFailed? || outcome.TimedOut? || outcome.Crashed? ==> id !in w'.objs
  {
    var attempts, warnings;
    outcome, lock, attempts, warnings := Lockfile.Construct(dir, file, timeoutMs, warningMs, seen, closeOk);
    WaitingRuns(worlds, others, id, LockfileName(file), seen, attempts - 1);
    ghost var w := worlds[attempts - 1];
    ghost var s := LastStep(outcome, id);
    LastStepRuns(worlds[0], Waiting(id, others, attempts - 1), w, s);
    steps, w' := Waiting(id, others, attempts - 1) + [s], Next(w, s);
  }

  // ----- The empty object, moves and destruction -----

  method Empty(dir: LockDir, ghost w: World, ghost id: Id) returns (lock: Lockfile)
    requires w.files == dir.files && Enabled(w, DefaultConstruct(id))
    ensures Shows(Next(w, DefaultConstruct(id)), id, lock.lockfile, dir.files)
  {
    lock := new Lockfile.Empty();
  }

  method Move(dir: LockDir, rhs: Lockfile, ghost w: World, ghost id: Id, ghost from: Id) returns (lock: Lockfile)
    requires Shows(w, from, rhs.lockfile, dir.files) && Enabled(w, MoveConstruct(id, from))
    modifies rhs
    ensures var w' := Next(w, MoveConstruct(id, from));
            Shows(w', id, lock.lockfile, dir.files) && Shows(w', from, rhs.lockfile, dir.files)
  {
    lock := new Lockfile.Move(rhs);
  }

  /** Move assignment is its two steps back to back, also from an object to itself. */
  method MoveAssign(dir: LockDir, lhs: Lockfile, rhs: Lockfile, ghost w: World, ghost id: Id, ghost from: Id)
    requires Shows(w, id, lhs.lockfile, dir.files) && Shows(w, from, rhs.lockfile, dir.files)
    requires Enabled(w, AssignBegin(id, from)) && (lhs == rhs <==> id == from)
    modifies lhs, rhs, dir
    ensures var w1 := Next(w, AssignBegin(id, from));
            && Enabled(w1, AssignEnd(id))
            && var w' := Next(w1, AssignEnd(id));
               Shows(w', id, lhs.lockfile, dir.files) && Shows(w', from, rhs.lockfile, dir.files)
  {
    lhs.MoveAssign(dir, rhs);
  }

  method Destroy(dir: LockDir, lock: Lockfile, ghost w: World, ghost id: Id)
    requires Shows(w, id, lock.lockfile, dir.files) && Enabled(w, Step.Destroy(id))
    modifies dir
    ensures dir.files == Next(w, Step.Destroy(id)).files && id !in Next(w, Step.Destroy(id)).objs
  {
    lock.Destroy(dir);
  }
}

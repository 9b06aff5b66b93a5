/**
 * Lock files as interleaved steps of any number of Lockfile objects over one set of files
 * (src/Lockfile.cpp).  A step is what one object does to the file system between two points
 * where other processes may act; move assignment takes two, because the old file is removed
 * before the new one is taken over.
 */
module LockProtocol {
  import opened Wrappers

  type Id = nat

  datatype Obj =
    /** in the constructor's loop */
    | Acquiring(path: string)
    | Live(lockfile: Option<string>)
    /** in move assignment, its own old file already removed */
    | Assigning(own: Option<string>, rhs: Id)

  /** `orphans` are lock files that no object holds: stale ones, and those whose `close` failed. */
  datatype World = World(files: set<string>, objs: map<Id, Obj>, orphans: set<string>)

  datatype Step =
    | DefaultConstruct(id: Id)
    | Begin(id: Id, file: string)
    | Create(id: Id)
    | CreateButNotClose(id: Id)
    | Backoff(id: Id)
    | TimeOut(id: Id)
    | MoveConstruct(id: Id, rhs: Id)
    | AssignBegin(id: Id, rhs: Id)
    | AssignEnd(id: Id)
    | Destroy(id: Id)

  /** `convertToLockfile` */
  function LockfileName(file: string): string {
    file + ".lock"
  }

  /** The lock file of a file has a longer name, which tells the files apart. */
  lemma LockfileNames(a: string, b: string)
    ensures a < LockfileName(a) && LockfileName(a)[|a|..] == ".lock"
    ensures a != b ==> LockfileName(a) != LockfileName(b)
  {
    assert LockfileName(a)[..|a|] == a;
    if LockfileName(a) == LockfileName(b) {
      assert |a| == |b|;
      assert b == LockfileName(b)[..|b|];
    }
  }

  function Remove(files: set<string>, lockfile: Option<string>): set<string> {
    if lockfile.Some? then files - {lockfile.value} else files
  }

  predicate InUse(w: World, id: Id) {
    exists d :: d in w.objs && w.objs[d].Assigning? && w.objs[d].rhs == id
  }

  /** A live object that no move assignment is reading from; C++ forbids using one object from two threads. */
  predicate Idle(w: World, id: Id) {
    id in w.objs && w.objs[id].Live? && !InUse(w, id)
  }

  /** The source reads `*rhs.lockfile` in both moves, so `rhs` has to hold a lock. */
  predicate Enabled(w: World, s: Step) {
    match s
    case DefaultConstruct(id) => id !in w.objs
    case Begin(id, _) => id !in w.objs
    case Create(id) => id in w.objs && w.objs[id].Acquiring? && w.objs[id].path !in w.files
    case CreateButNotClose(id) => id in w.objs && w.objs[id].Acquiring? && w.objs[id].path !in w.files
    // open(2) may fail for other reasons than an existing file
    case Backoff(id) => id in w.objs && w.objs[id].Acquiring?
    case TimeOut(id) => id in w.objs && w.objs[id].Acquiring?
    case MoveConstruct(id, rhs) => id !in w.objs && Idle(w, rhs) && w.objs[rhs].lockfile.Some?
    case AssignBegin(id, rhs) => Idle(w, id) && Idle(w, rhs) && w.objs[rhs].lockfile.Some?
    case AssignEnd(id) =>
      && id in w.objs && w.objs[id].Assigning?
      && (w.objs[id].rhs == id || (w.objs[id].rhs in w.objs && w.objs[w.objs[id].rhs].Live?))
    case Destroy(id) => Idle(w, id)
  }

  function Next(w: World, s: Step): World
    requires Enabled(w, s)
  {
    match s
    case DefaultConstruct(id) => w.(objs := w.objs[id := Live(None)])
    case Begin(id, file) => w.(objs := w.objs[id := Acquiring(LockfileName(file))])
    case Create(id) =>
      var p := w.objs[id].path;
      w.(files := w.files + {p}, objs := w.objs[id := Live(Some(p))])
    case CreateButNotClose(id) =>
      var p := w.objs[id].path;
      w.(files := w.files + {p}, objs := w.objs - {id}, orphans := w.orphans + {p})
    case Backoff(id) => w
    case TimeOut(id) => w.(objs := w.objs - {id})
    case MoveConstruct(id, rhs) =>
      w.(objs := w.objs[id := Live(w.objs[rhs].lockfile)][rhs := Live(None)])
    case AssignBegin(id, rhs) =>
      var own := w.objs[id].lockfile;
      w.(files := Remove(w.files, own), objs := w.objs[id := Assigning(own, rhs)])
    case AssignEnd(id) =>
      var rhs := w.objs[id].rhs;
      var taken := if rhs == id then w.objs[id].own else w.objs[rhs].lockfile;
      w.(objs := w.objs[id := Live(taken)][rhs := Live(None)])
    case Destroy(id) =>
      w.(files := Remove(w.files, w.objs[id].lockfile), objs := w.objs - {id})
  }

  // ----- What every step keeps -----

  predicate Holds(w: World, id: Id, p: string) {
    id in w.objs && w.objs[id] == Live(Some(p))
  }

  ghost predicate Held(w: World, p: string) {
    exists id :: Holds(w, id, p)
  }

  /** Two live objects never hold the same lock file. */
  ghost predicate AtMostOneHolder(w: World) {
    forall a, b, p :: Holds(w, a, p) && Holds(w, b, p) ==> a == b
  }

  /** Every lock file is held by a live object or is an orphan, and not both. */
  ghost predicate FilesAccountedFor(w: World) {
    && (forall p :: Held(w, p) ==> p in w.files && p !in w.orphans)
    && (forall p :: p in w.orphans ==> p in w.files)
    && (forall p :: p in w.files && p !in w.orphans ==> Held(w, p))
  }

  ghost predicate AssignmentsReady(w: World) {
    && (forall d :: d in w.objs && w.objs[d].Assigning? && w.objs[d].rhs != d ==>
          w.objs[d].rhs in w.objs && w.objs[w.objs[d].rhs].Live? && w.objs[w.objs[d].rhs].lockfile.Some?)
    && (forall d, e ::
          d in w.objs && e in w.objs && w.objs[d].Assigning? && w.objs[e].Assigning? && w.objs[d].rhs == w.objs[e].rhs
          ==> d == e)
  }

  ghost predicate Inv(w: World) {
    AtMostOneHolder(w) && FilesAccountedFor(w) && AssignmentsReady(w)
  }

  predicate Initial(w: World) {
    w.objs == map[] && w.orphans == w.files
  }

  lemma StepKeepsAssignments(w: World, s: Step)
    requires Inv(w) && Enabled(w, s)
    ensures AssignmentsReady(Next(w, s))
  {
    var w' := Next(w, s);
    forall d | d in w'.objs && w'.objs[d].Assigning? && w'.objs[d].rhs != d
      ensures w'.objs[d].rhs in w'.objs && w'.objs[w'.objs[d].rhs].Live? && w'.objs[w'.objs[d].rhs].lockfile.Some?
    {
      if !(s.AssignBegin? && s.id == d) {
        assert d in w.objs && w.objs[d] == w'.objs[d];
        assert InUse(w, w.objs[d].rhs);
      }
    }
  }

  /** The step gives up the lock of `b` and removes its file. */
  predicate Releases(s: Step, b: Id) {
    s == Destroy(b) || (s.AssignBegin? && s.id == b)
  }

  /** Who holds the lock of `b` after a step that does not release it. */
  function Successor(w: World, s: Step, b: Id): Id {
    if s.MoveConstruct? && s.rhs == b then s.id
    else if s.AssignEnd? && s.id in w.objs && w.objs[s.id].Assigning? && w.objs[s.id].rhs == b then s.id
    else b
  }

  /**
   * No step of another object, timing out included, takes a lock away: after a step the file
   * is still there and held by `b`, or by the object `b` was moved into, unless the step is
   * `b`'s own release; then the file is gone.
   */
  lemma HolderIsSafe(w: World, s: Step, b: Id, p: string)
    requires Inv(w) && Enabled(w, s) && Holds(w, b, p)
    ensures p in Next(w, s).files <==> !Releases(s, b)
    ensures !Releases(s, b) ==> Holds(Next(w, s), Successor(w, s, b), p)
  {
    assert Held(w, p);
    assert s.AssignEnd? && w.objs[s.id].rhs == b ==> s.id != b;
    assert Holds(w, s.id, p) ==> s.id == b;
  }

  /** A holder after the step held before it, was moved into, or has just created a file that was not there. */
  lemma NewHolder(w: World, s: Step, c: Id, p: string)
    requires Inv(w) && Enabled(w, s) && Holds(Next(w, s), c, p)
    ensures (exists b :: Holds(w, b, p) && !Releases(s, b) && Successor(w, s, b) == c)
         || (s == Create(c) && p !in w.files && p in Next(w, s).files)
  {
    if s.MoveConstruct? && s.id == c {
      assert Holds(w, s.rhs, p) && Successor(w, s, s.rhs) == c;
    } else if s.AssignEnd? && s.id == c {
      assert Holds(w, w.objs[c].rhs, p) && Successor(w, s, w.objs[c].rhs) == c;
    } else if s != Create(c) {
      assert Holds(w, c, p);
      if s.AssignEnd? && w.objs[s.id].rhs == c {
        assert false;
      }
      assert Successor(w, s, c) == c && !Releases(s, c);
    }
  }

  lemma StepKeepsInv(w: World, s: Step)
    requires Inv(w) && Enabled(w, s)
    ensures Inv(Next(w, s))
  {
    var w' := Next(w, s);
    StepKeepsAssignments(w, s);
    forall a, b, p | Holds(w', a, p) && Holds(w', b, p) ensures a == b {
      NewHolder(w, s, a, p);
      NewHolder(w, s, b, p);
      if s != Create(a) && s != Create(b) {
        var a0 :| Holds(w, a0, p) && Successor(w, s, a0) == a;
        var b0 :| Holds(w, b0, p) && Successor(w, s, b0) == b;
        assert a0 == b0;
      } else if exists h :: Holds(w, h, p) {
        assert Held(w, p);
      }
    }
    forall p | Held(w', p) ensures p in w'.files && p !in w'.orphans {
      var c :| Holds(w', c, p);
      NewHolder(w, s, c, p);
      if s != Create(c) {
        var b :| Holds(w, b, p) && !Releases(s, b) && Successor(w, s, b) == c;
        assert Held(w, p);
        HolderIsSafe(w, s, b, p);
      }
    }
    forall p | p in w'.orphans ensures p in w'.files {
      OrphanStays(w, s, p);
    }
    forall p | p in w'.files && p !in w'.orphans ensures Held(w', p) {
      if p in w.files {
        assert Held(w, p);
        var b :| Holds(w, b, p);
        HolderIsSafe(w, s, b, p);
      } else {
        assert s.Create? && Holds(w', s.id, p);
      }
    }
  }

  lemma OrphanStays(w: World, s: Step, p: string)
    requires Inv(w) && Enabled(w, s) && p in Next(w, s).orphans
    ensures p in Next(w, s).files
  {
    assert p in w.orphans ==> !Held(w, p);
    assert Holds(w, s.id, p) ==> Held(w, p);
  }

  // ----- Whole runs -----

  /** `steps` lead from `w` to `w'`, in any interleaving. */
  ghost predicate Run(w: World, steps: seq<Step>, w': World)
    decreases |steps|
  {
    if steps == [] then w == w'
    else Enabled(w, steps[0]) && Run(Next(w, steps[0]), steps[1..], w')
  }

  lemma {:induction false} RunsJoin(w: World, first: seq<Step>, w1: World, second: seq<Step>, w2: World)
    requires Run(w, first, w1) && Run(w1, second, w2)
    ensures Run(w, first + second, w2)
    decreases |first|
  {
    if first == [] {
      assert first + second == second;
    } else {
      RunsJoin(Next(w, first[0]), first[1..], w1, second, w2);
      assert (first + second)[0] == first[0] && (first + second)[1..] == first[1..] + second;
    }
  }

  lemma {:induction false} RunKeepsInv(w: World, steps: seq<Step>, w': World)
    requires Inv(w) && Run(w, steps, w')
    ensures Inv(w')
    decreases |steps|
  {
    if steps != [] {
      StepKeepsInv(w, steps[0]);
      RunKeepsInv(Next(w, steps[0]), steps[1..], w');
    }
  }

  /** In every run each lock path has at most one holder, whose file exists. */
  lemma MutualExclusion(w: World, steps: seq<Step>, w': World, a: Id, b: Id, p: string)
    requires Initial(w) && Run(w, steps, w')
    requires Holds(w', a, p)
    ensures p in w'.files
    ensures Holds(w', b, p) ==> a == b
  {
    RunKeepsInv(w, steps, w');
    assert Held(w', p);
  }

  lemma StaysUnused(w: World, s: Step, b: Id)
    requires Enabled(w, s) && !InUse(w, b) && !(s.AssignBegin? && s.rhs == b)
    ensures !InUse(Next(w, s), b)
  {
    var w' := Next(w, s);
    forall d | d in w'.objs && w'.objs[d].Assigning? ensures w'.objs[d].rhs != b {
      assert !(s.AssignBegin? && s.id == d) ==> d in w.objs && w.objs[d] == w'.objs[d];
    }
  }

  /** While no step releases `b` or moves from it, `b` keeps the lock and the file stays, whatever the others do. */
  lemma {:induction false} LockIsKept(w: World, steps: seq<Step>, w': World, b: Id, p: string)
    requires Inv(w) && Run(w, steps, w') && Holds(w, b, p) && !InUse(w, b)
    requires forall i :: 0 <= i < |steps| ==> !Releases(steps[i], b)
    requires forall i :: 0 <= i < |steps| ==>
               !((steps[i].MoveConstruct? || steps[i].AssignBegin?) && steps[i].rhs == b)
    ensures Holds(w', b, p) && p in w'.files
    decreases |steps|
  {
    if steps == [] {
      assert Held(w, p);
    } else {
      var s := steps[0];
      var w1 := Next(w, s);
      HolderIsSafe(w, s, b, p);
      StepKeepsInv(w, s);
      assert s.AssignEnd? && w.objs[s.id].rhs == b ==> InUse(w, b);
      assert Successor(w, s, b) == b;
      StaysUnused(w, s, b);
      forall i | 0 <= i < |steps[1..]|
        ensures !Releases(steps[1..][i], b)
        ensures !((steps[1..][i].MoveConstruct? || steps[1..][i].AssignBegin?) && steps[1..][i].rhs == b)
      {
        assert steps[1..][i] == steps[i + 1];
      }
      LockIsKept(w1, steps[1..], w', b, p);
    }
  }

  /** Moving to another object hands the file over untouched, whatever happens between the two halves. */
  lemma MoveAssignHandsOver(w: World, d: Id, rhs: Id, middle: seq<Step>, w1: World)
    requires Inv(w) && Enabled(w, AssignBegin(d, rhs)) && d != rhs
    requires Run(Next(w, AssignBegin(d, rhs)), middle, w1)
    requires forall i :: 0 <= i < |middle| ==> middle[i] != AssignEnd(d)
    ensures Enabled(w1, AssignEnd(d))
    ensures var p := w.objs[rhs].lockfile.value;
            var w2 := Next(w1, AssignEnd(d));
            p in w1.files && p in w2.files && Holds(w2, d, p) && rhs in w2.objs && w2.objs[rhs] == Live(None)
  {
    var p := w.objs[rhs].lockfile.value;
    assert Holds(w, rhs, p);
    HolderIsSafe(w, AssignBegin(d, rhs), rhs, p);
    StepKeepsInv(w, AssignBegin(d, rhs));
    PendingAssignment(Next(w, AssignBegin(d, rhs)), middle, w1, d, rhs, p);
    HolderIsSafe(w1, AssignEnd(d), rhs, p);
  }

  lemma {:induction false} PendingAssignment(w: World, steps: seq<Step>, w': World, d: Id, rhs: Id, p: string)
    requires Inv(w) && Run(w, steps, w') && Holds(w, rhs, p) && d != rhs
    requires d in w.objs && w.objs[d].Assigning? && w.objs[d].rhs == rhs
    requires forall i :: 0 <= i < |steps| ==> steps[i] != AssignEnd(d)
    ensures Inv(w') && Holds(w', rhs, p) && p in w'.files
    ensures d in w'.objs && w'.objs[d].Assigning? && w'.objs[d].rhs == rhs
    decreases |steps|
  {
    if steps == [] {
      assert Held(w, p);
    } else {
      var s := steps[0];
      assert InUse(w, rhs);
      assert s != AssignEnd(d);
      assert !Releases(s, rhs);
      HolderIsSafe(w, s, rhs, p);
      StepKeepsInv(w, s);
      assert s.AssignEnd? && w.objs[s.id].rhs == d ==> s.id == d;
      forall i | 0 <= i < |steps[1..]| ensures steps[1..][i] != AssignEnd(d) {
        assert steps[1..][i] == steps[i + 1];
      }
      PendingAssignment(Next(w, s), steps[1..], w', d, rhs, p);
    }
  }

  /** Self-assignment is the one move that loses the lock: the file is removed and the object ends up empty. */
  lemma SelfAssignReleases(w: World, d: Id)
    requires Inv(w) && Enabled(w, AssignBegin(d, d))
    ensures var p := w.objs[d].lockfile.value;
            var w1 := Next(w, AssignBegin(d, d));
            && p !in w1.files
            && Enabled(w1, AssignEnd(d))
            && Next(w1, AssignEnd(d)).objs[d] == Live(None)
  {
    assert Holds(w, d, w.objs[d].lockfile.value);
  }

  /** Without a failing `close`, no lock file is leaked: once all objects are gone, so are their files. */
  lemma {:induction false} NothingLeaks(w: World, steps: seq<Step>, w': World)
    requires Inv(w) && Run(w, steps, w')
    requires forall i :: 0 <= i < |steps| ==> !steps[i].CreateButNotClose?
    ensures w'.orphans == w.orphans
    ensures w'.objs == map[] ==> w'.files == w.orphans
    decreases |steps|
  {
    RunKeepsInv(w, steps, w');
    if steps == [] {
      if w'.objs == map[] {
        forall p ensures p in w'.files <==> p in w.orphans {
          assert !Held(w', p);
        }
      }
    } else {
      StepKeepsInv(w, steps[0]);
      forall i | 0 <= i < |steps[1..]| ensures !steps[1..][i].CreateButNotClose? {
        assert steps[1..][i] == steps[i + 1];
      }
      NothingLeaks(Next(w, steps[0]), steps[1..], w');
    }
  }

  /** An orphaned lock file stays for ever, and nobody acquires its path again. */
  lemma {:induction false} OrphansBlock(w: World, steps: seq<Step>, w': World, p: string, id: Id)
    requires Inv(w) && Run(w, steps, w') && p in w.orphans
    ensures p in w'.orphans && p in w'.files
    ensures !Holds(w', id, p)
    decreases |steps|
  {
    if steps == [] {
      if Holds(w', id, p) {
        assert Held(w', p);
      }
    } else {
      StepKeepsInv(w, steps[0]);
      OrphansBlock(Next(w, steps[0]), steps[1..], w', p, id);
    }
  }
}

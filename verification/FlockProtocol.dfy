/**
 * Readers and writers of one file through flock(2) (src/Flock.cpp), as interleaved steps of
 * any number of Flock objects that are not moved.  Every object locks through its own open
 * file.  Linux converts a lock by dropping the old one first, so others may act in between,
 * and a conversion that then fails has lost the old lock.
 */
module FlockProtocol {
  type Id = nat

  datatype LockType = ReadLock | WriteLock

  datatype Phase =
    /** in timedLockAcquisition */
    | Acquiring
    /** the last timedLockAcquisition returned normally */
    | Acquired
    /** the last timedLockAcquisition threw */
    | Failed

  datatype Obj = Obj(lockType: LockType, open: bool, phase: Phase, constructed: bool)

  /** The kernel's locks on the file, by the object whose open file holds them. */
  type Table = map<Id, LockType>

  datatype World = World(table: Table, objs: map<Id, Obj>)

  datatype Step =
    | Construct(id: Id, lockType: LockType)
    | Open(id: Id)
    | Drop(id: Id)
    | Take(id: Id)
    | Backoff(id: Id)
    | Expire(id: Id)
    | Convert(id: Id, lockType: LockType)
    | Destroy(id: Id)

  /** flock(2): shared locks go together, an exclusive one goes with nothing. */
  predicate Compatible(others: Table, lockType: LockType) {
    forall id :: id in others ==> lockType == ReadLock && others[id] == ReadLock
  }

  predicate InPhase(w: World, id: Id, phase: Phase) {
    id in w.objs && w.objs[id].phase == phase
  }

  predicate Enabled(w: World, s: Step) {
    match s
    case Construct(id, _) => id !in w.objs && id !in w.table
    case Open(id) => InPhase(w, id, Acquiring) && !w.objs[id].open
    case Drop(id) =>
      InPhase(w, id, Acquiring) && w.objs[id].open && id in w.table && w.table[id] != w.objs[id].lockType
    case Take(id) =>
      && InPhase(w, id, Acquiring) && w.objs[id].open && id !in w.table
      && Compatible(w.table, w.objs[id].lockType)
    case Backoff(id) => InPhase(w, id, Acquiring)
    case Expire(id) => InPhase(w, id, Acquiring) && id !in w.table
    case Convert(id, _) => id in w.objs && w.objs[id].phase != Acquiring
    case Destroy(id) => id in w.objs && w.objs[id].phase != Acquiring
  }

  function Next(w: World, s: Step): World
    requires Enabled(w, s)
  {
    match s
    case Construct(id, lockType) => w.(objs := w.objs[id := Obj(lockType, false, Acquiring, false)])
    case Open(id) => w.(objs := w.objs[id := w.objs[id].(open := true)])
    case Drop(id) => w.(table := w.table - {id})
    case Take(id) =>
      World(w.table[id := w.objs[id].lockType], w.objs[id := w.objs[id].(phase := Acquired, constructed := true)])
    case Backoff(id) => w
    case Expire(id) =>
      // a constructor that throws leaves no object; a conversion that throws leaves one without a lock
      if w.objs[id].constructed then w.(objs := w.objs[id := w.objs[id].(phase := Failed)])
      else w.(objs := w.objs - {id})
    case Convert(id, lockType) =>
      if lockType == w.objs[id].lockType then w
      else w.(objs := w.objs[id := w.objs[id].(lockType := lockType, phase := Acquiring)])
    case Destroy(id) => World(w.table - {id}, w.objs - {id})
  }

  // ----- What every step keeps -----

  predicate HasLock(w: World, id: Id, lockType: LockType) {
    id in w.table && w.table[id] == lockType
  }

  /** The table never mixes a writer with anyone else. */
  ghost predicate TableConsistent(table: Table) {
    forall a, b :: a in table && b in table && a != b ==> table[a] == ReadLock && table[b] == ReadLock
  }

  ghost predicate ObjConsistent(w: World, id: Id) {
    id in w.objs ==>
      && (w.objs[id].phase == Acquired ==> HasLock(w, id, w.objs[id].lockType))
      && (w.objs[id].phase == Failed ==> id !in w.table)
      && (id in w.table ==> w.objs[id].open)
      && (w.objs[id].phase != Acquiring ==> w.objs[id].constructed)
      && (w.objs[id].phase == Acquiring && id in w.table ==>
            w.objs[id].constructed && w.table[id] != w.objs[id].lockType)
  }

  ghost predicate Inv(w: World) {
    && TableConsistent(w.table)
    && (forall id :: id in w.table ==> id in w.objs)
    && (forall id :: ObjConsistent(w, id))
  }

  lemma StepKeepsInv(w: World, s: Step)
    requires Inv(w) && Enabled(w, s)
    ensures Inv(Next(w, s))
  {
    var w' := Next(w, s);
    forall id ensures ObjConsistent(w', id) {
      assert ObjConsistent(w, id);
      if id == s.id && s.Take? {
        assert HasLock(w', id, w'.objs[id].lockType);
      }
    }
  }

  /** No step of another object touches a lock. */
  lemma OthersKeepOff(w: World, s: Step, id: Id)
    requires Inv(w) && Enabled(w, s) && s.id != id
    ensures id in w.table <==> id in Next(w, s).table
    ensures id in w.table ==> Next(w, s).table[id] == w.table[id]
    ensures id in w.objs <==> id in Next(w, s).objs
    ensures id in w.objs ==> Next(w, s).objs[id] == w.objs[id]
  {
  }

  ghost predicate Run(w: World, steps: seq<Step>, w': World)
    decreases |steps|
  {
    if steps == [] then w == w'
    else Enabled(w, steps[0]) && Run(Next(w, steps[0]), steps[1..], w')
  }

  lemma {:induction false} RunsJoin(w: World, first: seq<Step>, w1: World, second: seq<Step>, w2: World)
    requires Run(w, first, w1) && Run(w1, second, w2)
    ensures Run(w, first + second, w2)
    decreases |first|
  {
    if first == [] {
      assert first + second == second;
    } else {
      RunsJoin(Next(w, first[0]), first[1..], w1, second, w2);
      assert (first + second)[0] == first[0] && (first + second)[1..] == first[1..] + second;
    }
  }

  lemma OneStep(w: World, s: Step)
    requires Enabled(w, s)
    ensures Run(w, [s], Next(w, s))
  {
    assert [s][1..] == [];
    assert Run(Next(w, s), [s][1..], Next(w, s));
  }

  lemma {:induction false} RunKeepsInv(w: World, steps: seq<Step>, w': World)
    requires Inv(w) && Run(w, steps, w')
    ensures Inv(w')
    decreases |steps|
  {
    if steps != [] {
      StepKeepsInv(w, steps[0]);
      RunKeepsInv(Next(w, steps[0]), steps[1..], w');
    }
  }

  /**
   * In every run, the objects whose last acquisition returned normally are all readers, or
   * there is exactly one of them, and each of them has its lock in the kernel.
   */
  lemma ReadersOrOneWriter(steps: seq<Step>, w: World, a: Id, b: Id)
    requires Run(World(map[], map[]), steps, w)
    requires InPhase(w, a, Acquired) && InPhase(w, b, Acquired)
    ensures HasLock(w, a, w.objs[a].lockType)
    ensures a == b || (w.objs[a].lockType == ReadLock && w.objs[b].lockType == ReadLock)
  {
    RunKeepsInv(World(map[], map[]), steps, w);
    assert ObjConsistent(w, a) && ObjConsistent(w, b);
  }

  /** While an object takes no step, it keeps its lock through everything the others do. */
  lemma {:induction false} LockIsKept(w: World, steps: seq<Step>, w': World, id: Id)
    requires Inv(w) && Run(w, steps, w') && InPhase(w, id, Acquired)
    requires forall i :: 0 <= i < |steps| ==> steps[i].id != id
    ensures InPhase(w', id, Acquired) && HasLock(w', id, w.objs[id].lockType)
    decreases |steps|
  {
    if steps == [] {
      assert ObjConsistent(w, id);
    } else {
      OthersKeepOff(w, steps[0], id);
      StepKeepsInv(w, steps[0]);
      forall i | 0 <= i < |steps[1..]| ensures steps[1..][i].id != id {
        assert steps[1..][i] == steps[i + 1];
      }
      LockIsKept(Next(w, steps[0]), steps[1..], w', id);
    }
  }

  // ----- Conversions -----

  /** The steps of a conversion up to the point where the kernel decides. */
  function Converting(w: World, id: Id, lockType: LockType): World
    requires Inv(w) && InPhase(w, id, Acquired) && w.objs[id].lockType != lockType
  {
    assert ObjConsistent(w, id);
    Next(Next(w, Convert(id, lockType)), Drop(id))
  }

  /**
   * If nobody acts between the kernel's drop and its take, an upgrade succeeds exactly for a sole
   * lock holder, and a downgrade always does.
   */
  lemma ConversionSucceedsIff(w: World, id: Id, lockType: LockType)
    requires Inv(w) && InPhase(w, id, Acquired) && w.objs[id].lockType != lockType
    ensures Enabled(Converting(w, id, lockType), Take(id)) <==> (lockType == ReadLock || w.table.Keys == {id})
  {
    assert ObjConsistent(w, id);
    var w2 := Converting(w, id, lockType);
    assert w2.table == w.table - {id};
    if lockType == ReadLock {
      assert w2.table.Keys == {};
    } else if w.table.Keys == {id} {
      assert w2.table.Keys == {};
    } else {
      assert id in w.table.Keys;
      var other :| other in w.table.Keys && other != id;
      assert other in w2.table;
    }
  }

  /** While others act in the gap, the converting object stays without a lock, and new locks have been taken there. */
  lemma {:induction false} GapLeavesAlone(w: World, middle: seq<Step>, w': World, id: Id)
    requires Inv(w) && Run(w, middle, w') && InPhase(w, id, Acquiring) && id !in w.table
    requires forall i :: 0 <= i < |middle| ==> middle[i].id != id
    ensures Inv(w') && id !in w'.table && id in w'.objs && w'.objs[id] == w.objs[id]
    ensures forall o :: o in w'.table && o !in w.table ==> Take(o) in middle
    decreases |middle|
  {
    if middle != [] {
      var s, rest := middle[0], middle[1..];
      OthersKeepOff(w, s, id);
      StepKeepsInv(w, s);
      forall i | 0 <= i < |rest| ensures rest[i].id != id {
        assert rest[i] == middle[i + 1];
      }
      GapLeavesAlone(Next(w, s), rest, w', id);
      forall o | o in w'.table && o !in w.table ensures Take(o) in middle {
        if o in Next(w, s).table {
          assert s == Take(o);
        } else {
          assert Take(o) in rest;
        }
      }
    }
  }

  /**
   * Whatever the others do between the kernel's drop and its take: an upgrade succeeds then exactly if
   * nobody else has a lock, and a downgrade fails exactly if another object has a write lock, which it can
   * only have taken in that gap.
   */
  lemma ConversionInGap(w: World, id: Id, lockType: LockType, middle: seq<Step>, w': World)
    requires Inv(w) && InPhase(w, id, Acquired) && w.objs[id].lockType != lockType
    requires Run(Converting(w, id, lockType), middle, w')
    requires forall i :: 0 <= i < |middle| ==> middle[i].id != id
    ensures InPhase(w', id, Acquiring) && id !in w'.table
    ensures lockType == WriteLock ==> (Enabled(w', Take(id)) <==> w'.table == map[])
    ensures lockType == ReadLock ==>
              (!Enabled(w', Take(id)) <==> exists o :: Take(o) in middle && HasLock(w', o, WriteLock))
  {
    assert ObjConsistent(w, id);
    var w2 := Converting(w, id, lockType);
    StepKeepsInv(w, Convert(id, lockType));
    StepKeepsInv(Next(w, Convert(id, lockType)), Drop(id));
    GapLeavesAlone(w2, middle, w', id);
    assert w2.table == w.table - {id};
    if lockType == WriteLock {
      assert w'.table.Keys == {} ==> w'.table == map[];
    } else {
      assert forall o :: o in w.table && o != id ==> w.table[o] == ReadLock && w.table[id] == ReadLock;
      assert forall o :: o in w'.table ==> Take(o) in middle;
      if !Enabled(w', Take(id)) {
        var o :| o in w'.table && w'.table[o] != ReadLock;
        assert HasLock(w', o, WriteLock);
      }
    }
  }

  /** A run in which a downgrade is refused: a waiting writer gets the lock in the gap, and the attempt expires. */
  lemma RefusedDowngrade(w: World, id: Id, writer: Id) returns (w': World)
    requires Inv(w) && InPhase(w, id, Acquired) && w.objs[id].lockType == WriteLock
    requires InPhase(w, writer, Acquiring) && w.objs[writer].open && w.objs[writer].lockType == WriteLock
    ensures Run(w, [Convert(id, ReadLock), Drop(id), Take(writer), Backoff(id), Expire(id)], w')
    ensures InPhase(w', id, Failed) && w'.objs[id].lockType == ReadLock && id !in w'.table
  {
    assert ObjConsistent(w, id) && ObjConsistent(w, writer);
    var steps := [Convert(id, ReadLock), Drop(id), Take(writer), Backoff(id), Expire(id)];
    var w1 := Next(w, steps[0]);
    var w2 := Next(w1, steps[1]);
    assert w2.table.Keys == {};
    var w3 := Next(w2, steps[2]);
    var w4 := Next(w3, steps[3]);
    w' := Next(w4, steps[4]);
    assert steps[1..][1..][1..][1..][1..] == [];
    assert Run(w', steps[1..][1..][1..][1..][1..], w');
    assert Run(w4, steps[1..][1..][1..][1..], w');
    assert Run(w3, steps[1..][1..][1..], w');
    assert Run(w2, steps[1..][1..], w');
    assert Run(w1, steps[1..], w');
  }

  /** After a normal return of `convertToType` on an object that is not mid-acquisition, is the lock there? */
  lemma ConvertToSameTypeIsNoOp(w: World, id: Id)
    requires Inv(w) && id in w.objs && w.objs[id].phase != Acquiring
    ensures var w' := Next(w, Convert(id, w.objs[id].lockType));
            && w' == w
            && (HasLock(w', id, w.objs[id].lockType) <==> InPhase(w, id, Acquired))
  {
    assert ObjConsistent(w, id);
  }

  /**
   * A reader beside another reader that tries to become a writer loses its lock when the
   * attempt expires, and asking again returns normally without one.
   */
  lemma FailedUpgradeIsSilentNextTime(w: World, id: Id, other: Id) returns (w': World)
    requires Inv(w) && InPhase(w, id, Acquired) && w.objs[id].lockType == ReadLock
    requires other in w.table && other != id
    ensures Run(w, [Convert(id, WriteLock), Drop(id), Backoff(id), Expire(id), Convert(id, WriteLock)], w')
    ensures id in w'.objs && w'.objs[id].lockType == WriteLock && id !in w'.table
  {
    assert ObjConsistent(w, id);
    var steps := [Convert(id, WriteLock), Drop(id), Backoff(id), Expire(id), Convert(id, WriteLock)];
    var w1 := Next(w, steps[0]);
    var w2 := Next(w1, steps[1]);
    var w3 := Next(w2, steps[2]);
    var w4 := Next(w3, steps[3]);
    w' := Next(w4, steps[4]);
    assert steps[1..][1..][1..][1..][1..] == [];
    assert Run(w', steps[1..][1..][1..][1..][1..], w');
    assert Run(w4, steps[1..][1..][1..][1..], w');
    assert Run(w3, steps[1..][1..][1..], w');
    assert Run(w2, steps[1..][1..], w');
    assert Run(w1, steps[1..], w');
  }
}

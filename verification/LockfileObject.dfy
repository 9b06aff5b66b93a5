/**
 * The Lockfile class itself (src/Lockfile.cpp): the constructor's waiting loop with its
 * 32-bit clock, the moves and the destructor.
 */
module LockfileObject {
  import opened Wrappers
  import opened LockProtocol

  const NO_TIMEOUT: nat := 0xFFFF_FFFF
  const UINT_RANGE: nat := 0x1_0000_0000
  const BACKOFF_MS: nat := 100

  /** The value of `elapsedTimeMs` after k backoffs: an unsigned int, which wraps around. */
  function Elapsed(k: nat): nat {
    BACKOFF_MS * k % UINT_RANGE
  }

  /** Attempt k (counting from 0), if it fails, is the constructor's last. */
  predicate Expired(timeoutMs: nat, k: nat) {
    timeoutMs != NO_TIMEOUT && Elapsed(k) >= timeoutMs
  }

  predicate FirstExpiry(timeoutMs: nat, k: nat) {
    Expired(timeoutMs, k) && forall i: nat :: i < k ==> !Expired(timeoutMs, i)
  }

  /** How many of the first n backoffs end in a warning. */
  function Warnings(n: nat, warningMs: nat): nat {
    if n == 0 || warningMs == 0 then 0
    else Warnings(n - 1, warningMs) + if Elapsed(n) % warningMs == 0 then 1 else 0
  }

  datatype Outcome =
    | Acquired
    | CloseFailed
    | TimedOut
    /** with a warning interval of 0, the first backoff ends in a division by zero */
    | Crashed
    | StillWaiting

  /** What an attempt finds: the lock files there are, and whether open(2) would create a new one. */
  datatype Attempt = Attempt(files: set<string>, opens: bool)

  /** The attempt fails; the source does not ask why. */
  predicate Blocked(path: string, a: Attempt) {
    path in a.files || !a.opens
  }

  /** The first k attempts failed before the deadline. */
  ghost predicate StillBusy(path: string, timeoutMs: nat, seen: seq<Attempt>, k: nat) {
    k <= |seen| && forall i: nat :: i < k ==> Blocked(path, seen[i]) && !Expired(timeoutMs, i)
  }

  /** How the waiting loop ends, by what its last attempt found. */
  ghost predicate WaitedUntil(outcome: Outcome, path: string, timeoutMs: nat, seen: seq<Attempt>, attempts: nat) {
    if outcome.StillWaiting? then attempts == |seen| && StillBusy(path, timeoutMs, seen, attempts)
    else if outcome.Crashed? then attempts == 1 && StillBusy(path, timeoutMs, seen, attempts)
    else
      && 0 < attempts <= |seen|
      && StillBusy(path, timeoutMs, seen, attempts - 1)
      && if outcome.TimedOut? then Blocked(path, seen[attempts - 1]) && Expired(timeoutMs, attempts - 1)
         else !Blocked(path, seen[attempts - 1])
  }

  lemma ElapsedStep(k: nat)
    ensures (Elapsed(k) + BACKOFF_MS) % UINT_RANGE == Elapsed(k + 1)
  {
    var q, r := BACKOFF_MS * k / UINT_RANGE, Elapsed(k);
    assert BACKOFF_MS * (k + 1) == UINT_RANGE * q + (r + BACKOFF_MS);
    if r + BACKOFF_MS < UINT_RANGE {
      QuotientUnique(BACKOFF_MS * (k + 1), UINT_RANGE, q, r + BACKOFF_MS);
    } else {
      QuotientUnique(BACKOFF_MS * (k + 1), UINT_RANGE, q + 1, r + BACKOFF_MS - UINT_RANGE);
      QuotientUnique(r + BACKOFF_MS, UINT_RANGE, 1, r + BACKOFF_MS - UINT_RANGE);
    }
  }

  /** The directory that holds the lock files. */
  class LockDir {
    var files: set<string>

    constructor (files: set<string>)
      ensures this.files == files
    {
      this.files := files;
    }
  }

  class Lockfile {
    var lockfile: Option<string>

    constructor Empty()
      ensures lockfile == None
    {
      lockfile := None;
    }

    constructor Holding(path: string)
      ensures lockfile == Some(path)
    {
      lockfile := Some(path);
    }

    /**
     * The constructor.  `seen[k]` is what attempt k finds, after whatever other processes have
     * done; the model gives up, StillWaiting, where `seen` ends.
     */
    static method Construct(dir: LockDir, file: string, timeoutMs: nat, warningMs: nat, seen: seq<Attempt>,
                            closeOk: bool)
      returns (outcome: Outcome, lock: Lockfile?, attempts: nat, warnings: nat)
      modifies dir
      ensures WaitedUntil(outcome, LockfileName(file), timeoutMs, seen, attempts)
      ensures outcome.Crashed? <==>
              warningMs == 0 && seen != [] && Blocked(LockfileName(file), seen[0]) && !Expired(timeoutMs, 0)
      ensures outcome.TimedOut? || outcome.Crashed? || (outcome.StillWaiting? && seen != []) ==>
                dir.files == seen[attempts - 1].files
      ensures outcome.Acquired? || outcome.CloseFailed? ==> dir.files == seen[attempts - 1].files + {LockfileName(file)}
      ensures outcome.Acquired? ==> closeOk
      ensures outcome.CloseFailed? ==> !closeOk
      ensures if outcome.Acquired? then lock != null && fresh(lock) && lock.lockfile == Some(LockfileName(file))
              else lock == null
      ensures warnings == Warnings(if outcome.StillWaiting? then attempts else attempts - 1, warningMs)
    {
      var path := LockfileName(file);
      outcome, attempts, warnings := Acquire(dir, path, timeoutMs, warningMs, seen, closeOk);
      lock := null;
      if outcome == Acquired {
        lock := new Lockfile.Holding(path);
      }
    }

    /** The constructor's loop. */
    static method Acquire(dir: LockDir, path: string, timeoutMs: nat, warningMs: nat, seen: seq<Attempt>, closeOk: bool)
      returns (outcome: Outcome, attempts: nat, warnings: nat)
      modifies dir
      ensures WaitedUntil(outcome, path, timeoutMs, seen, attempts)
      // an attempt succeeds exactly if there is no lock file and open(2) gives one
      ensures forall i :: 0 <= i < attempts - 1 ==> path in seen[i].files || !seen[i].opens
      ensures outcome.Acquired? || outcome.CloseFailed? ==>
                path !in seen[attempts - 1].files && seen[attempts - 1].opens
      ensures outcome.TimedOut? || outcome.Crashed? ==> path in seen[attempts - 1].files || !seen[attempts - 1].opens
      ensures outcome.Crashed? <==>
              warningMs == 0 && seen != [] && Blocked(path, seen[0]) && !Expired(timeoutMs, 0)
      ensures outcome.TimedOut? || outcome.Crashed? || (outcome.StillWaiting? && seen != []) ==>
                dir.files == seen[attempts - 1].files
      ensures outcome.Acquired? || outcome.CloseFailed? ==> dir.files == seen[attempts - 1].files + {path}
      ensures outcome.Acquired? ==> closeOk
      ensures outcome.CloseFailed? ==> !closeOk
      ensures warnings == Warnings(if outcome.StillWaiting? then attempts else attempts - 1, warningMs)
    {
      var elapsedTimeMs: nat := 0;
      attempts, warnings := 0, 0;
      while attempts < |seen|
        invariant attempts <= |seen|
        invariant StillBusy(path, timeoutMs, seen, attempts)
        invariant attempts > 0 ==> dir.files == seen[attempts - 1].files
        invariant warningMs == 0 ==> attempts == 0
        invariant elapsedTimeMs == Elapsed(attempts)
        invariant warnings == Warnings(attempts, warningMs)
      {
        dir.files := seen[attempts].files;
        attempts := attempts + 1;
        if path !in dir.files && seen[attempts - 1].opens {
          dir.files := dir.files + {path};
          return if closeOk then Acquired else CloseFailed, attempts, warnings;
        }
        if timeoutMs != NO_TIMEOUT && elapsedTimeMs >= timeoutMs {
          return TimedOut, attempts, warnings;
        }
        ElapsedStep(attempts - 1);
        elapsedTimeMs := (elapsedTimeMs + BACKOFF_MS) % UINT_RANGE;
        if warningMs == 0 {
          return Crashed, attempts, warnings;
        }
        if elapsedTimeMs % warningMs == 0 {
          warnings := warnings + 1;
        }
      }
      outcome := StillWaiting;
    }

    constructor Move(rhs: Lockfile)
      requires rhs.lockfile.Some?
      modifies rhs
      ensures lockfile == old(rhs.lockfile) && rhs.lockfile == None
    {
      lockfile := rhs.lockfile;
      new;
      rhs.lockfile := None;
    }

    method MoveAssign(dir: LockDir, rhs: Lockfile)
      requires rhs.lockfile.Some?
      modifies this, rhs, dir
      ensures dir.files == Remove(old(dir.files), old(lockfile))
      ensures rhs.lockfile == None
      ensures rhs != this ==> lockfile == old(rhs.lockfile)
    {
      if lockfile.Some? {
        dir.files := dir.files - {lockfile.value};
      }
      lockfile := rhs.lockfile;
      rhs.lockfile := None;
    }

    method Destroy(dir: LockDir)
      modifies dir
      ensures dir.files == Remove(old(dir.files), lockfile)
    {
      if lockfile.Some? {
        dir.files := dir.files - {lockfile.value};
      }
    }
  }

  // ----- Timing -----

  /** Up to this timeout the clock reaches the deadline before it wraps. */
  const LAST_SAFE_TIMEOUT: nat := 4294967200

  /** The attempt at which a timeout is noticed if time does not wrap. */
  function DeadlineAttempt(timeoutMs: nat): nat {
    (timeoutMs + BACKOFF_MS - 1) / BACKOFF_MS
  }

  /**
   * A lock that is never free fails at attempt ceil(timeout / 100) + 1 exactly when the
   * timeout is at most 4294967200 ms; for the few larger ones the 32-bit clock has wrapped by then.
   */
  lemma DeadlineIsExact(timeoutMs: nat)
    requires timeoutMs < NO_TIMEOUT
    ensures FirstExpiry(timeoutMs, DeadlineAttempt(timeoutMs)) <==> timeoutMs <= LAST_SAFE_TIMEOUT
    ensures timeoutMs <= LAST_SAFE_TIMEOUT ==> timeoutMs <= Elapsed(DeadlineAttempt(timeoutMs)) < timeoutMs + BACKOFF_MS
  {
    var k := DeadlineAttempt(timeoutMs);
    if timeoutMs <= LAST_SAFE_TIMEOUT {
      forall i: nat | i <= k ensures Elapsed(i) == BACKOFF_MS * i {
        assert BACKOFF_MS * i < UINT_RANGE;
      }
    } else {
      assert k == 42949673;
      assert Elapsed(k) == 4;
    }
  }

  /** The largest value the clock ever shows: a multiple of 4, because 100 and 2^32 are. */
  const LAST_TIMEOUT: nat := 4294967292

  lemma ElapsedIsMultipleOfFour(k: nat)
    ensures Elapsed(k) <= LAST_TIMEOUT
  {
    var q := BACKOFF_MS * k / UINT_RANGE;
    assert Elapsed(k) == 4 * (25 * k - 1073741824 * q);
  }

  /** A lock that is never free is given up at some attempt exactly for timeouts that the clock can show. */
  lemma ExpiresIff(timeoutMs: nat)
    requires timeoutMs <= NO_TIMEOUT
    ensures (exists k: nat :: Expired(timeoutMs, k)) <==> timeoutMs <= LAST_TIMEOUT
  {
    if timeoutMs <= LAST_TIMEOUT {
      var k := 1030792151;
      assert BACKOFF_MS * k == UINT_RANGE * 23 + LAST_TIMEOUT;
      assert Expired(timeoutMs, k);
    } else {
      forall k: nat ensures !Expired(timeoutMs, k) {
        ElapsedIsMultipleOfFour(k);
      }
    }
  }

  /**
   * The constructor on a lock that stays busy for long enough fails, after that many attempts and not earlier,
   * unless a warning interval of 0 ends it before.
   */
  method BusyLockTimesOut(dir: LockDir, file: string, timeoutMs: nat, warningMs: nat, seen: seq<Attempt>, closeOk: bool)
    returns (outcome: Outcome, attempts: nat)
    requires timeoutMs <= LAST_SAFE_TIMEOUT
    requires |seen| > DeadlineAttempt(timeoutMs)
    requires forall i :: 0 <= i < |seen| ==> Blocked(LockfileName(file), seen[i])
    modifies dir
    ensures if warningMs == 0 && timeoutMs > 0 then outcome == Crashed && attempts == 1
            else outcome == TimedOut && attempts == DeadlineAttempt(timeoutMs) + 1
  {
    var lock, warnings;
    DeadlineIsExact(timeoutMs);
    outcome, lock, attempts, warnings := Lockfile.Construct(dir, file, timeoutMs, warningMs, seen, closeOk);
    assert Expired(timeoutMs, DeadlineAttempt(timeoutMs));
  }

  /** Without a timeout, and with the two largest ones, the constructor never fails for the time it took. */
  method UnboundedWait(dir: LockDir, file: string, timeoutMs: nat, warningMs: nat, seen: seq<Attempt>, closeOk: bool)
    returns (outcome: Outcome)
    requires LAST_TIMEOUT < timeoutMs <= NO_TIMEOUT
    modifies dir
    ensures outcome != TimedOut
    ensures warningMs > 0 ==>
              (outcome == StillWaiting <==> forall i :: 0 <= i < |seen| ==> Blocked(LockfileName(file), seen[i]))
  {
    var lock, attempts, warnings;
    ExpiresIff(timeoutMs);
    outcome, lock, attempts, warnings := Lockfile.Construct(dir, file, timeoutMs, warningMs, seen, closeOk);
  }

  // ----- How many warnings -----

  /** `l` is the least common multiple of a and b. */
  ghost predicate IsLcm(l: nat, a: nat, b: nat)
    requires a > 0 && b > 0
  {
    && l > 0 && l % a == 0 && l % b == 0
    && forall k: nat :: 0 < k < l ==> !(k % a == 0 && k % b == 0)
  }

  /** The first common multiple from k on; a * b is one. */
  function LcmFrom(a: nat, b: nat, k: nat): (l: nat)
    requires a > 0 && b > 0 && 0 < k <= a * b
    requires forall j: nat :: 0 < j < k ==> !(j % a == 0 && j % b == 0)
    ensures IsLcm(l, a, b)
    decreases a * b - k
  {
    if k % a == 0 && k % b == 0 then k
    else
      ProductIsCommon(a, b);
      LcmFrom(a, b, k + 1)
  }

  lemma ProductIsCommon(a: nat, b: nat)
    requires a > 0 && b > 0
    ensures (a * b) % a == 0 && (a * b) % b == 0
  {
    MultipleHasNoRest(b, a);
    MultipleHasNoRest(a, b);
  }

  function Lcm(a: nat, b: nat): (l: nat)
    requires a > 0 && b > 0
    ensures IsLcm(l, a, b)
  {
    FactorGrows(a, b);
    LcmFrom(a, b, 1)
  }

  lemma ModOfSum(x: nat, y: nat, m: nat)
    requires m > 0 && x % m == 0 && y <= x && y % m == 0
    ensures (x - y) % m == 0
  {
    var p, q := x / m, y / m;
    assert x == m * p && y == m * q;
    assert x - y == m * (p - q);
    MultipleHasNoRest(p - q, m);
  }

  lemma FactorGrows(d: nat, x: int)
    ensures x >= 1 ==> d * x >= d
    ensures x <= -1 ==> d * x <= 0 - d
  {
  }

  lemma MultipleHasNoRest(k: int, m: nat)
    requires m > 0
    ensures (m * k) % m == 0
  {
    var z := m * k;
    var q, r := z / m, z % m;
    assert z == m * q + r;
    assert m * (k - q) == r;
    FactorGrows(m, k - q);
  }

  /** The common multiples of a and b are the multiples of their least one. */
  lemma CommonMultiples(x: nat, l: nat, a: nat, b: nat)
    requires a > 0 && b > 0 && IsLcm(l, a, b)
    ensures x % a == 0 && x % b == 0 <==> x % l == 0
  {
    var q, r := x / l, x % l;
    assert x == l * q + r;
    var y := l * q;
    MultipleOfMultiple(l, q, a);
    MultipleOfMultiple(l, q, b);
    MultipleHasNoRest(q, l);
    assert y >= 0 by {
      assert q >= 0 && l > 0;
    }
    if x % a == 0 && x % b == 0 {
      ModOfSum(x, y, a);
      ModOfSum(x, y, b);
      assert x - y == r;
    }
    if r == 0 {
      assert x == y;
    }
  }

  lemma MultipleOfMultiple(l: nat, q: nat, a: nat)
    requires a > 0 && l % a == 0
    ensures (l * q) % a == 0
  {
    var c := l / a;
    assert l == a * c;
    assert l * q == a * (c * q) by {
      assert (a * c) * q == a * (c * q);
    }
    MultipleHasNoRest(c * q, a);
  }

  /** n / d counts the multiples of d up to n. */
  lemma QuotientStep(n: nat, d: nat)
    requires n > 0 && d > 0
    ensures n / d == (n - 1) / d + if n % d == 0 then 1 else 0
  {
    var q, r := (n - 1) / d, (n - 1) % d;
    assert n - 1 == d * q + r;
    if r == d - 1 {
      assert n == d * (q + 1) by {
        assert d * (q + 1) == d * q + d;
      }
      QuotientUnique(n, d, q + 1, 0);
    } else {
      QuotientUnique(n, d, q, r + 1);
    }
  }

  lemma QuotientUnique(n: nat, d: nat, q: nat, r: nat)
    requires d > 0 && r < d && n == d * q + r
    ensures n / d == q && n % d == r
  {
    var q', r' := n / d, n % d;
    assert n == d * q' + r';
    assert d * (q - q') == r' - r by {
      assert d * (q - q') == d * q - d * q';
    }
    FactorGrows(d, q - q');
  }

  lemma Scale(n: nat, m: nat)
    requires m > 0
    ensures BACKOFF_MS * n / (BACKOFF_MS * m) == n / m
    ensures BACKOFF_MS * n % (BACKOFF_MS * m) == 0 <==> n % m == 0
  {
    var q, r := n / m, n % m;
    assert n == m * q + r;
    assert BACKOFF_MS * n == BACKOFF_MS * m * q + BACKOFF_MS * r by {
      assert BACKOFF_MS * (m * q) == BACKOFF_MS * m * q;
    }
    QuotientUnique(BACKOFF_MS * n, BACKOFF_MS * m, q, BACKOFF_MS * r);
  }

  lemma WarningStep(n: nat, m: nat)
    requires n > 0 && m > 0
    ensures BACKOFF_MS * n / (BACKOFF_MS * m)
         == BACKOFF_MS * (n - 1) / (BACKOFF_MS * m) + if BACKOFF_MS * n % (BACKOFF_MS * m) == 0 then 1 else 0
  {
    Scale(n, m);
    Scale(n - 1, m);
    QuotientStep(n, m);
  }

  lemma WarnsWhen(n: nat, warningMs: nat, l: nat)
    requires warningMs > 0 && BACKOFF_MS * n < UINT_RANGE && IsLcm(l, BACKOFF_MS, warningMs)
    ensures Elapsed(n) % warningMs == 0 <==> BACKOFF_MS * n % l == 0
  {
    var x := BACKOFF_MS * n;
    CommonMultiples(x, l, BACKOFF_MS, warningMs);
    assert x % BACKOFF_MS == 0;
    assert Elapsed(n) == x;
  }

  /** n backoffs without wrap-around emit exactly floor(100 n / lcm(100, warningMs)) warnings. */
  lemma WarningsAreExact(n: nat, warningMs: nat)
    requires warningMs > 0 && BACKOFF_MS * n < UINT_RANGE
    ensures Warnings(n, warningMs) == BACKOFF_MS * n / Lcm(BACKOFF_MS, warningMs)
  {
    var l := Lcm(BACKOFF_MS, warningMs);
    var m := l / BACKOFF_MS;
    assert l == BACKOFF_MS * m;
    WarningsCounted(n, warningMs, l, m);
  }

  lemma {:induction false} WarningsCounted(n: nat, warningMs: nat, l: nat, m: nat)
    requires warningMs > 0 && BACKOFF_MS * n < UINT_RANGE && IsLcm(l, BACKOFF_MS, warningMs)
    requires m > 0 && l == BACKOFF_MS * m
    ensures Warnings(n, warningMs) == BACKOFF_MS * n / l
  {
    if n == 0 {
      QuotientUnique(0, l, 0, 0);
    } else {
      WarningsCounted(n - 1, warningMs, l, m);
      WarnsWhen(n, warningMs, l);
      WarningStep(n, m);
    }
  }
}

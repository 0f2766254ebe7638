/** Infinite runs: after the destructor's notification a fair schedule brings every worker to its return. */
module PoolTermination {
  import opened Common
  import opened ThreadPool
  import opened PoolSafety
  import opened PoolLiveness
  import opened PoolTheorems

  // ---------- runs and fairness ----------

  /** What happens at each moment; `None` when nothing does. */
  type Moments = nat -> Option<Action>

  predicate Moves(s: State, a: Option<Action>, t: State) {
    match a
    case None => t == s
    case Some(b) => Next(s, b) == Some(t)
  }

  ghost predicate IsRun(size: nat, f: nat -> State, moments: Moments) {
    && f(0) == Initial(size)
    && forall n: nat {:trigger moments(n)} :: Moves(f(n), moments(n), f(n + 1))
  }

  predicate Enabled(s: State, i: nat) {
    i < |s.workers| && StepWorker(s, i).Some?
  }

  ghost predicate EnabledLater(f: nat -> State, i: nat, n: nat) {
    exists m: nat :: n <= m && Enabled(f(m), i)
  }

  ghost predicate WorkerMovesLater(moments: Moments, i: nat, n: nat) {
    exists m: nat :: n <= m && moments(m) == Some(WorkerStep(i))
  }

  ghost predicate EnabledAgainAndAgain(f: nat -> State, i: nat) {
    forall n: nat :: EnabledLater(f, i, n)
  }

  ghost predicate MovesAgainAndAgain(moments: Moments, i: nat) {
    forall n: nat :: WorkerMovesLater(moments, i, n)
  }

  predicate IsStepOf(a: Option<Action>, c: nat) {
    a.Some? && a.value.CallerStep? && a.value.caller == c
  }

  ghost predicate CallMovesLater(moments: Moments, c: nat, n: nat) {
    exists m: nat :: n <= m && IsStepOf(moments(m), c)
  }

  /** A worker that can move again and again does move; a call inside the lock goes on. */
  ghost predicate Fair(f: nat -> State, moments: Moments) {
    && (forall i: nat :: EnabledAgainAndAgain(f, i) ==> MovesAgainAndAgain(moments, i))
    && (forall n: nat, c: nat :: f(n).lock == ByCaller(c) ==> CallMovesLater(moments, c, n))
  }

  lemma {:induction false} RunInv(size: nat, f: nat -> State, moments: Moments, n: nat)
    requires IsRun(size, f, moments)
    ensures PoolInv(f(n)) && |f(n).workers| == size
  {
    if n == 0 {
      InitialInv(size);
    } else {
      RunInv(size, f, moments, n - 1);
      assert Moves(f(n - 1), moments(n - 1), f(n));
      if moments(n - 1).Some? {
        InvKept(f(n - 1), moments(n - 1).value, f(n));
        WorkersStay(f(n - 1), moments(n - 1).value, f(n));
      }
    }
  }

  // ---------- while no worker moves ----------

  /** No worker moves from `n` on. */
  ghost predicate Stuck(moments: Moments, n: nat) {
    forall m: nat :: n <= m ==> !(moments(m).Some? && moments(m).value.WorkerStep?)
  }

  lemma StuckNeverMoves(moments: Moments, n: nat, i: nat)
    requires Stuck(moments, n)
    ensures !MovesAgainAndAgain(moments, i)
  {
    assert !WorkerMovesLater(moments, i, n);
  }

  lemma OthersKeepWorkers(s: State, a: Action, t: State)
    requires Draining(s) && Next(s, a) == Some(t) && !a.WorkerStep?
    ensures t.workers == s.workers && Draining(t)
  {
    DrainingKept(s, a, t);
    if a.CallerStep? {
      CallerWakes(s, a.caller, a.sleeper, t);
      SleepersOnlyWake(s.workers, a.sleeper, t.workers);
    }
  }

  /** So from then on the workers stand still, and the pool stays sealed and awake. */
  lemma {:induction false} WorkersStandStill(size: nat, f: nat -> State, moments: Moments, n: nat, m: nat)
    requires IsRun(size, f, moments) && Draining(f(n)) && Stuck(moments, n) && n <= m
    ensures f(m).workers == f(n).workers && Draining(f(m))
    decreases m
  {
    if n < m {
      WorkersStandStill(size, f, moments, n, m - 1);
      assert Moves(f(m - 1), moments(m - 1), f(m));
      if moments(m - 1).Some? {
        OthersKeepWorkers(f(m - 1), moments(m - 1).value, f(m));
      }
    }
  }

  // ---------- the lock comes free ----------

  /** A call inside the lock of a sealed pool gives it back with its next step. */
  lemma CallReleases(s: State, c: nat, w: nat, t: State)
    requires PoolInv(s) && Draining(s) && s.lock == ByCaller(c) && c < |s.callers| && StepCaller(s, c, w) == Some(t)
    ensures t.lock.Free?
  {
    assert CallerHoldsLock(s.callers[c]);
  }

  lemma OthersKeepLock(s: State, c: nat, a: Action, t: State)
    requires PoolInv(s) && s.lock == ByCaller(c) && Next(s, a) == Some(t) && !IsStepOf(Some(a), c)
    ensures t.lock == ByCaller(c)
  {
    match a
    case Call(_) =>
    case WorkerStep(i) => assert !HoldsLock(s.workers[i]);
    case CallerStep(d, w) => CallerMoves(s, d, w, t);
    case Spurious(i) =>
  }

  /** Somewhere between `n` and the step of call `c` at `m` the lock comes free. */
  lemma {:induction false} FreeByThen(size: nat, f: nat -> State, moments: Moments, n: nat, c: nat, m: nat)
    returns (r: nat)
    requires IsRun(size, f, moments) && Draining(f(n)) && Stuck(moments, n)
    requires f(n).lock == ByCaller(c) && n <= m && IsStepOf(moments(m), c)
    ensures n <= r && f(r).lock.Free?
    decreases m - n
  {
    RunInv(size, f, moments, n);
    assert Moves(f(n), moments(n), f(n + 1));
    if IsStepOf(moments(n), c) {
      CallReleases(f(n), c, moments(n).value.sleeper, f(n + 1));
      r := n + 1;
    } else {
      if moments(n).Some? {
        OthersKeepLock(f(n), c, moments(n).value, f(n + 1));
      }
      WorkersStandStill(size, f, moments, n, n + 1);
      r := FreeByThen(size, f, moments, n + 1, c, m);
    }
  }

  lemma LockComesFree(size: nat, f: nat -> State, moments: Moments, n: nat) returns (r: nat)
    requires IsRun(size, f, moments) && Fair(f, moments) && Draining(f(n)) && Stuck(moments, n)
    requires !f(n).lock.ByWorker?
    ensures n <= r && f(r).lock.Free?
  {
    if f(n).lock.Free? {
      r := n;
    } else {
      var c := f(n).lock.c;
      assert CallMovesLater(moments, c, n);
      var m: nat :| n <= m && IsStepOf(moments(m), c);
      r := FreeByThen(size, f, moments, n, c, m);
    }
  }

  // ---------- some worker moves ----------

  /** In a sealed and awake pool a worker that has not returned can move, with the lock in hand or free. */
  lemma CanMove(s: State, i: nat)
    requires Draining(s) && i < |s.workers| && !s.workers[i].Returned?
    requires s.lock.Free? || HoldsLock(s.workers[i])
    ensures Enabled(s, i)
  {
  }

  /** Which worker to look at: the holder of the lock, or else any that has not returned. */
  lemma Candidate(s: State) returns (i: nat)
    requires PoolInv(s) && Draining(s) && !AllReturned(s)
    ensures i < |s.workers| && !s.workers[i].Returned?
    ensures s.lock.ByWorker? <==> HoldsLock(s.workers[i])
  {
    if s.lock.ByWorker? {
      i := s.lock.w;
    } else {
      i :| 0 <= i < |s.workers| && !s.workers[i].Returned?;
    }
  }

  lemma CandidateEnabled(size: nat, f: nat -> State, moments: Moments, n: nat, i: nat, m: nat)
    requires IsRun(size, f, moments) && Fair(f, moments) && Draining(f(n)) && Stuck(moments, n) && n <= m
    requires i < |f(n).workers| && !f(n).workers[i].Returned?
    requires f(n).lock.ByWorker? <==> HoldsLock(f(n).workers[i])
    ensures EnabledLater(f, i, m)
  {
    RunInv(size, f, moments, n);
    RunInv(size, f, moments, m);
    WorkersStandStill(size, f, moments, n, m);
    if HoldsLock(f(n).workers[i]) {
      CanMove(f(m), i);
    } else {
      assert !f(m).lock.ByWorker?;
      var r := LockComesFree(size, f, moments, m);
      WorkersStandStill(size, f, moments, n, r);
      CanMove(f(r), i);
    }
  }

  /** Until all have returned, some worker moves. */
  lemma SomeWorkerMoves(size: nat, f: nat -> State, moments: Moments, n: nat) returns (m: nat)
    requires IsRun(size, f, moments) && Fair(f, moments) && Draining(f(n)) && !AllReturned(f(n))
    ensures n <= m && moments(m).Some? && moments(m).value.WorkerStep?
  {
    if Stuck(moments, n) {
      RunInv(size, f, moments, n);
      var i := Candidate(f(n));
      forall k: nat
        ensures EnabledLater(f, i, k)
      {
        CandidateEnabled(size, f, moments, n, i, if k >= n then k else n);
      }
      StuckNeverMoves(moments, n, i);
      assert false;
    }
    m :| n <= m && moments(m).Some? && moments(m).value.WorkerStep?;
  }

  // ---------- termination ----------

  /** Nothing but worker steps spends the measure. */
  lemma {:induction false} MeasureAlong(size: nat, f: nat -> State, moments: Moments, n: nat, m: nat)
    requires IsRun(size, f, moments) && Draining(f(n)) && n <= m
    ensures Draining(f(m)) && Measure(f(m)) <= Measure(f(n))
    decreases m
  {
    if n < m {
      MeasureAlong(size, f, moments, n, m - 1);
      assert Moves(f(m - 1), moments(m - 1), f(m));
      if moments(m - 1).Some? {
        var a := moments(m - 1).value;
        DrainingKept(f(m - 1), a, f(m));
        if a.WorkerStep? {
          WorkerStepCounts(f(m - 1), a.worker, f(m));
        } else {
          OthersDoNotCount(f(m - 1), a, f(m));
        }
      }
    }
  }

  lemma {:induction false} Terminates(size: nat, f: nat -> State, moments: Moments, n: nat) returns (m: nat)
    requires IsRun(size, f, moments) && Fair(f, moments) && Draining(f(n))
    ensures n <= m && AllReturned(f(m))
    decreases Measure(f(n))
  {
    if AllReturned(f(n)) {
      m := n;
    } else {
      var k := SomeWorkerMoves(size, f, moments, n);
      MeasureAlong(size, f, moments, n, k);
      assert Moves(f(k), moments(k), f(k + 1));
      WorkerStepCounts(f(k), moments(k).value.worker, f(k + 1));
      MeasureAlong(size, f, moments, k, k + 1);
      m := Terminates(size, f, moments, k + 1);
    }
  }

  /**
   * Once a destructor has called `notify_all`, every fair run comes to a moment at which all workers have
   * returned, and every task that was ever accepted has then been executed exactly once.
   */
  lemma DestructorTerminates(size: nat, f: nat -> State, moments: Moments, n: nat, c: nat) returns (m: nat)
    requires size > 0 && IsRun(size, f, moments) && Fair(f, moments)
    requires c < |f(n).callers| && DestructorNotified(f(n).callers[c])
    ensures n <= m && AllReturned(f(m)) && Drained(f(m))
  {
    RunInv(size, f, moments, n);
    m := Terminates(size, f, moments, n);
    RunInv(size, f, moments, m);
    AllReturnedDrained(f(m));
  }

  // ---------- fair runs exist ----------

  /** The moments of a finite schedule, after which nothing happens any more. */
  function MomentsOf(schedule: seq<Action>): Moments {
    (n: nat) => if n < |schedule| then Some(schedule[n]) else None
  }

  /** The state after `n` moments. */
  function StateAt(size: nat, schedule: seq<Action>, n: nat): State {
    var part := if n < |schedule| then schedule[..n] else schedule;
    match Exec(Initial(size), part)
    case Some(s) => s
    case None => Initial(size)
  }

  lemma {:induction false} PrefixRuns(s: State, schedule: seq<Action>, n: nat)
    requires n < |schedule| && Exec(s, schedule).Some?
    ensures Exec(s, schedule[..n]).Some?
    ensures Next(Exec(s, schedule[..n]).value, schedule[n]) == Exec(s, schedule[..n + 1])
    ensures Exec(s, schedule[..n + 1]).Some?
    decreases n
  {
    var u := Next(s, schedule[0]).value;
    if n == 0 {
      assert schedule[..1] == [schedule[0]] + [];
      ExecStep(s, schedule[0], []);
      assert Exec(u, []) == Some(u);
    } else {
      PrefixRuns(u, schedule[1..], n - 1);
      assert schedule[..n] == [schedule[0]] + schedule[1..][..n - 1];
      assert schedule[..n + 1] == [schedule[0]] + schedule[1..][..n];
      ExecStep(s, schedule[0], schedule[1..][..n - 1]);
      ExecStep(s, schedule[0], schedule[1..][..n]);
    }
  }

  lemma ScheduleMoves(size: nat, schedule: seq<Action>, n: nat)
    requires Exec(Initial(size), schedule).Some?
    ensures Moves(StateAt(size, schedule, n), MomentsOf(schedule)(n), StateAt(size, schedule, n + 1))
  {
    if n < |schedule| {
      PrefixRuns(Initial(size), schedule, n);
      assert n + 1 == |schedule| ==> schedule[..n + 1] == schedule;
    }
  }

  /** A call that has the lock has let it go by a moment at which it is free, so it has moved. */
  lemma {:induction false} MovedBefore(size: nat, f: nat -> State, moments: Moments, n: nat, c: nat, m: nat)
    requires IsRun(size, f, moments) && n <= m && f(n).lock == ByCaller(c) && f(m).lock.Free?
    ensures CallMovesLater(moments, c, n)
    decreases m - n
  {
    RunInv(size, f, moments, n);
    assert Moves(f(n), moments(n), f(n + 1));
    if !IsStepOf(moments(n), c) {
      if moments(n).Some? {
        OthersKeepLock(f(n), c, moments(n).value, f(n + 1));
      }
      MovedBefore(size, f, moments, n + 1, c, m);
      var k: nat :| n + 1 <= k && IsStepOf(moments(k), c);
      assert n <= k;
    }
  }

  /** Every schedule that ends with all workers returned and the lock free is the beginning of a fair run. */
  lemma ScheduleIsFair(size: nat, schedule: seq<Action>, f: nat -> State)
    requires Exec(Initial(size), schedule).Some? && f == ((n: nat) => StateAt(size, schedule, n))
    requires var e := Exec(Initial(size), schedule).value; AllReturned(e) && e.lock.Free?
    ensures IsRun(size, f, MomentsOf(schedule)) && Fair(f, MomentsOf(schedule))
  {
    var moments := MomentsOf(schedule);
    forall n: nat
      ensures Moves(f(n), moments(n), f(n + 1))
    {
      ScheduleMoves(size, schedule, n);
    }
    assert Exec(Initial(size), []) == Some(Initial(size));
    assert |schedule| > 0 ==> schedule[..0] == [];
    assert IsRun(size, f, moments);
    forall i: nat
      ensures !EnabledAgainAndAgain(f, i)
    {
      assert !EnabledLater(f, i, |schedule|);
    }
    forall n: nat, c: nat | f(n).lock == ByCaller(c)
      ensures CallMovesLater(moments, c, n)
    {
      MovedBefore(size, f, moments, n, c, if n < |schedule| then |schedule| else n);
    }
  }

  /** So the fairness asked for can be had: a pool that is destroyed at once is one such run. */
  lemma FairRunExists(size: nat) returns (schedule: seq<Action>)
    requires size > 0
    ensures var f := (n: nat) => StateAt(size, schedule, n);
      IsRun(size, f, MomentsOf(schedule)) && Fair(f, MomentsOf(schedule)) && f(4).callers == [DestroyJoining]
  {
    var d := CallerStep(0, 0);
    var start := [Call(DestroyStart)] + ([d] + ([d] + ([d] + [])));
    var s0 := Initial(size);
    var s4 := s0.(callers := [DestroyJoining], stop := true);
    DestroyAlone(s0, d);
    InitialInv(size);
    InvAlways(s0, start, s4);
    assert s4.callers[0].DestroyJoining?;
    var rest := CanDrain(s4);
    schedule := start + rest;
    ExecAppend(s0, start, rest);
    ScheduleIsFair(size, schedule, (n: nat) => StateAt(size, schedule, n));
    assert schedule[..4] == start;
    assert rest == [] ==> schedule == start;
  }

  lemma DestroyAlone(s: State, d: Action)
    requires s == Initial(|s.workers|) && d == CallerStep(0, 0)
    ensures Exec(s, [Call(DestroyStart)] + ([d] + ([d] + ([d] + []))))
         == Some(s.(callers := [DestroyJoining], stop := true))
  {
    var s1 := Next(s, Call(DestroyStart)).value;
    var s2 := Next(s1, d).value;
    var s3 := Next(s2, d).value;
    ExecStep(s, Call(DestroyStart), [d] + ([d] + ([d] + [])));
    ExecStep(s1, d, [d] + ([d] + []));
    ExecStep(s2, d, [d] + []);
    ExecStep(s3, d, []);
    var s4 := Next(s3, d).value;
    assert s4.workers == s.workers && s4.callers == [DestroyJoining];
  }
}

/** The pool's promises over all interleavings. */
module PoolTheorems {
  import opened Common
  import opened ThreadPool
  import opened PoolSafety
  import opened PoolLiveness

  // ---------- the invariant of all runs ----------

  ghost predicate PoolInv(s: State) {
    && LockInv(s) && StopInv(s) && HistoryInv(s) && AcceptedInv(s) && WakeInv(s) && DestructorInv(s)
  }

  lemma {:induction false} NobodyRuns(ws: seq<Worker>)
    requires forall i :: 0 <= i < |ws| ==> !ws[i].Running?
    ensures RunningTasks(ws) == multiset{}
  {
    if ws != [] {
      NobodyRuns(ws[1..]);
    }
  }

  lemma InitialInv(size: nat)
    ensures PoolInv(Initial(size))
  {
    NobodyRuns(Initial(size).workers);
  }

  lemma InvKept(s: State, a: Action, t: State)
    requires PoolInv(s) && Next(s, a) == Some(t)
    ensures PoolInv(t)
  {
    LockKept(s, a, t);
    StopKept(s, a, t);
    HistoryKept(s, a, t);
    AcceptedKept(s, a, t);
    WakeKept(s, a, t);
    DestructorKept(s, a, t);
  }

  lemma WorkersStay(s: State, a: Action, t: State)
    requires Next(s, a) == Some(t)
    ensures |t.workers| == |s.workers|
  {
    match a
    case Call(_) =>
    case WorkerStep(i) => WorkerWakes(s, i, t);
    case CallerStep(c, w) => CallerWakes(s, c, w, t);
    case Spurious(i) =>
  }

  lemma {:induction false} InvAlways(s: State, schedule: seq<Action>, t: State)
    requires PoolInv(s) && Exec(s, schedule) == Some(t)
    ensures PoolInv(t) && |t.workers| == |s.workers|
    decreases |schedule|
  {
    if schedule != [] {
      var u := Next(s, schedule[0]).value;
      InvKept(s, schedule[0], u);
      WorkersStay(s, schedule[0], u);
      InvAlways(u, schedule[1..], t);
    }
  }

  lemma ReachableInv(size: nat, s: State)
    requires Reachable(size, s)
    ensures PoolInv(s) && |s.workers| == size
  {
    var schedule :| Exec(Initial(size), schedule) == Some(s);
    InitialInv(size);
    InvAlways(Initial(size), schedule, s);
  }

  // ---------- exactly-once draining ----------

  /** Every accepted task has been popped in push order and finished exactly once, and none is waiting. */
  ghost predicate Drained(s: State) {
    && s.tasks == [] && s.taken == s.accepted
    && multiset(s.finished) == multiset(s.accepted) && Distinct(s.accepted)
    && forall c: nat :: c in s.accepted <==> c < |s.callers| && Pushed(s.callers[c])
  }

  lemma AllReturnedDrained(s: State)
    requires PoolInv(s) && |s.workers| > 0 && AllReturned(s)
    ensures Drained(s)
  {
    assert s.workers[0].Returned?;
    assert Closed(s);
    NobodyRuns(s.workers);
    assert s.taken + [] == s.taken;
  }

  /**
   * When all workers have returned, every accepted task was popped in push order and finished exactly once,
   * although `shutdown` may have set the flag between an `enqueue`'s test and its push.
   */
  lemma DrainedExactlyOnce(size: nat, s: State)
    requires size > 0 && Reachable(size, s) && AllReturned(s)
    ensures Drained(s)
  {
    ReachableInv(size, s);
    AllReturnedDrained(s);
  }

  /** The same on a pool object: run any interleaving on it; if all its workers have returned, it is drained. */
  method RunPool(size: nat, schedule: seq<Action>) returns (pool: Pool)
    requires size > 0 && Exec(Initial(size), schedule).Some?
    ensures fresh(pool) && Exec(Initial(size), schedule) == Some(pool.View())
    ensures AllReturned(pool.View()) ==> Drained(pool.View())
  {
    pool := new Pool(size);
    pool.Run(schedule);
    assert Reachable(size, pool.View());
    if AllReturned(pool.View()) {
      DrainedExactlyOnce(size, pool.View());
    }
  }

  /** No worker ever pops from an empty queue. */
  lemma PopIsSafe(size: nat, s: State, i: nat)
    requires Reachable(size, s) && i < |s.workers| && s.workers[i].Ready?
    ensures StepWorker(s, i).Some?
  {
    ReachableInv(size, s);
  }

  // ---------- no lost wakeup ----------

  lemma {:induction false} SomeAwake(ws: seq<Worker>) returns (i: nat)
    requires Total(Awake, ws) > 0
    ensures i < |ws| && Awake(ws[i]) == 1
  {
    if Awake(ws[0]) == 1 {
      i := 0;
    } else {
      var k := SomeAwake(ws[1..]);
      i := k + 1;
    }
  }

  lemma {:induction false} SomeOwes(cs: seq<Caller>) returns (c: nat)
    requires Total(Owes, cs) > 0
    ensures c < |cs| && cs[c].EnqueuePushed?
  {
    if cs[0].EnqueuePushed? {
      c := 0;
    } else {
      var k := SomeOwes(cs[1..]);
      c := k + 1;
    }
  }

  /** While a task waits, some worker is awake or an `enqueue` still owes its notification. */
  lemma NoLostWakeup(size: nat, s: State)
    requires size > 0 && Reachable(size, s) && s.tasks != []
    ensures (exists i :: 0 <= i < |s.workers| && Awake(s.workers[i]) == 1)
         || (exists c :: 0 <= c < |s.callers| && s.callers[c].EnqueuePushed?)
    ensures AnyAsleep(s.workers) ==> |s.tasks| <= Total(Owes, s.callers) + Total(Awake, s.workers)
  {
    ReachableInv(size, s);
    if AnyAsleep(s.workers) {
      if Total(Awake, s.workers) > 0 {
        var i := SomeAwake(s.workers);
      } else {
        var c := SomeOwes(s.callers);
      }
    } else {
      assert !s.workers[0].Returned?;
      assert Awake(s.workers[0]) == 1;
    }
  }

  // ---------- termination after the destructor ----------

  /** After the destructor's `notify_all` nobody sleeps, nobody will, and nothing more is pushed. */
  lemma DestructorDrains(size: nat, s: State, c: nat)
    requires Reachable(size, s) && c < |s.callers| && DestructorNotified(s.callers[c])
    ensures Draining(s)
  {
    ReachableInv(size, s);
  }

  /** How many steps a worker still takes before it returns, apart from the tasks it has yet to pop. */
  function Rank(w: Worker): nat {
    match w
    case Returned => 0
    case Asleep => 0
    case Ready => 1
    case SawRunning => 2
    case Locked => 2
    case Idle => 3
    case Woken => 3
    case Running(_) => 4
  }

  /** The steps that the workers together still take: four for every waiting task. */
  function Measure(s: State): nat {
    4 * |s.tasks| + Total(Rank, s.workers)
  }

  lemma WorkerRank(s: State, i: nat, t: State)
    requires Draining(s) && i < |s.workers| && StepWorker(s, i) == Some(t)
    ensures t.workers == s.workers[i := t.workers[i]] && t.callers == s.callers
    ensures 4 * |t.tasks| + Rank(t.workers[i]) == 4 * |s.tasks| + Rank(s.workers[i]) - 1
  {
  }

  lemma WorkerStepCounts(s: State, i: nat, t: State)
    requires Draining(s) && i < |s.workers| && StepWorker(s, i) == Some(t)
    ensures Measure(t) == Measure(s) - 1
  {
    WorkerRank(s, i, t);
    TotalUpdate(Rank, s.workers, i, t.workers[i]);
  }

  lemma OthersDoNotCount(s: State, a: Action, t: State)
    requires Draining(s) && Next(s, a) == Some(t) && !a.WorkerStep?
    ensures Measure(t) == Measure(s)
  {
    match a
    case Call(_) =>
    case CallerStep(c, w) =>
      CallerStops(s, c, w, t);
      CallerWakes(s, c, w, t);
      SleepersOnlyWake(s.workers, w, t.workers);
    case Spurious(i) =>
  }

  function WorkerSteps(schedule: seq<Action>): nat {
    if schedule == [] then 0 else (if schedule[0].WorkerStep? then 1 else 0) + WorkerSteps(schedule[1..])
  }

  /** Every interleaving spends the measure one worker step at a time; so no run has more of them than that. */
  lemma {:induction false} MeasureCountsDown(s: State, schedule: seq<Action>, t: State)
    requires Draining(s) && Exec(s, schedule) == Some(t)
    ensures Draining(t) && Measure(t) + WorkerSteps(schedule) == Measure(s)
    decreases |schedule|
  {
    if schedule != [] {
      var u := Next(s, schedule[0]).value;
      DrainingKept(s, schedule[0], u);
      if schedule[0].WorkerStep? {
        WorkerStepCounts(s, schedule[0].worker, u);
      } else {
        OthersDoNotCount(s, schedule[0], u);
      }
      MeasureCountsDown(u, schedule[1..], t);
    }
  }

  lemma {:induction false} RankZero(ws: seq<Worker>)
    requires !AnyAsleep(ws)
    ensures Total(Rank, ws) == 0 <==> forall i :: 0 <= i < |ws| ==> ws[i].Returned?
  {
    if ws != [] {
      assert forall i :: 0 <= i < |ws[1..]| ==> ws[1..][i] == ws[i + 1];
      RankZero(ws[1..]);
    }
  }

  /** The measure is spent exactly when all workers have returned. */
  lemma MeasureZero(size: nat, s: State)
    requires size > 0 && Reachable(size, s) && Draining(s)
    ensures Measure(s) == 0 <==> AllReturned(s)
  {
    ReachableInv(size, s);
    RankZero(s.workers);
    if AllReturned(s) {
      assert s.workers[0].Returned?;
    }
  }

  /** Somebody can always move: the call that holds the lock, which then releases it, or else some worker. */
  lemma Progress(s: State) returns (a: Action)
    requires PoolInv(s) && Draining(s) && (!AllReturned(s) || s.lock.ByCaller?)
    ensures Next(s, a).Some?
    ensures if s.lock.ByCaller? then a == CallerStep(s.lock.c, 0) && Next(s, a).value.lock.Free? else a.WorkerStep?
  {
    if s.lock.ByCaller? {
      a := CallerStep(s.lock.c, 0);
      assert CallerHoldsLock(s.callers[s.lock.c]);
    } else if s.lock.ByWorker? {
      a := WorkerStep(s.lock.w);
      assert HoldsLock(s.workers[s.lock.w]);
    } else {
      var i :| 0 <= i < |s.workers| && !s.workers[i].Returned?;
      a := WorkerStep(i);
    }
  }

  /** From every such state the pool can run until all workers have returned and the lock is free. */
  lemma {:induction false} CanDrain(s: State) returns (schedule: seq<Action>)
    requires PoolInv(s) && Draining(s)
    ensures Exec(s, schedule).Some? && AllReturned(Exec(s, schedule).value) && Exec(s, schedule).value.lock.Free?
    decreases Measure(s), s.lock.ByCaller?
  {
    schedule := [];
    if AllReturned(s) && !s.lock.ByCaller? {
      assert s.lock.Free?;
    } else {
      var a := Progress(s);
      var t := Next(s, a).value;
      InvKept(s, a, t);
      DrainingKept(s, a, t);
      if a.WorkerStep? {
        WorkerStepCounts(s, a.worker, t);
      } else {
        OthersDoNotCount(s, a, t);
      }
      var rest := CanDrain(t);
      schedule := [a] + rest;
      assert schedule[1..] == rest;
    }
  }

  lemma ExecStep(s: State, a: Action, rest: seq<Action>)
    requires Next(s, a).Some?
    ensures Exec(s, [a] + rest) == Exec(Next(s, a).value, rest)
  {
    assert ([a] + rest)[1..] == rest;
  }

  // ---------- waitForCompletion ----------

  /** When `waitForCompletion` sees the queue empty, all accepted tasks are finished exactly if no worker runs one. */
  lemma WaitSeesCompletion(size: nat, s: State, c: nat)
    requires Reachable(size, s) && c < |s.callers| && s.callers[c].WaitLocked?
    requires StepCaller(s, c, 0).value.callers[c].WaitDone?
    ensures multiset(s.finished) == multiset(s.accepted)
       <==> forall i :: 0 <= i < |s.workers| ==> !s.workers[i].Running?
  {
    ReachableInv(size, s);
    assert s.taken + [] == s.taken;
    if forall i :: 0 <= i < |s.workers| ==> !s.workers[i].Running? {
      NobodyRuns(s.workers);
    } else {
      var i :| 0 <= i < |s.workers| && s.workers[i].Running?;
      RunningRemove(s.workers, i);
      assert s.workers[i].task in RunningTasks(s.workers);
    }
  }

  /** The call can return while the only task is still running. */
  lemma WaitCanReturnEarly() returns (s: State)
    ensures Reachable(1, s) && s.callers == [EnqueueDone, WaitDone]
    ensures s.workers == [Running(0)] && s.finished == [] != s.accepted
  {
    var e, w, r := CallerStep(0, 0), CallerStep(1, 0), WorkerStep(0);
    var enqueue := [Call(EnqueueStart), e, e, e, e];
    var work := [r, r, r, r];
    var wait := [Call(WaitStart), w, w];
    var queued := State([Idle], [EnqueueDone], [0], false, Free, [0], [], []);
    var running := State([Running(0)], [EnqueueDone], [], false, Free, [0], [0], []);
    s := running.(callers := [EnqueueDone, WaitDone]);
    EnqueueAlone(e);
    WorkAlone(queued, r);
    WaitAlone(running, w);
    ExecAppend(Initial(1), enqueue, work);
    ExecAppend(Initial(1), enqueue + work, wait);
  }

  lemma EnqueueAlone(e: Action)
    requires e == CallerStep(0, 0)
    ensures Exec(Initial(1), [Call(EnqueueStart), e, e, e, e])
         == Some(State([Idle], [EnqueueDone], [0], false, Free, [0], [], []))
  {
    var s0 := Initial(1);
    var s1 := Next(s0, Call(EnqueueStart)).value;
    var s2 := Next(s1, e).value;
    var s3 := Next(s2, e).value;
    var s4 := Next(s3, e).value;
    ExecStep(s0, Call(EnqueueStart), [e, e, e, e]);
    ExecStep(s1, e, [e, e, e]);
    ExecStep(s2, e, [e, e]);
    ExecStep(s3, e, [e]);
    ExecStep(s4, e, []);
    assert !AnyAsleep(s4.workers);
    var s5 := Next(s4, e).value;
    assert s5.workers == [Idle] && s5.callers == [EnqueueDone] && s5.tasks == [0] == s5.accepted;
    assert Exec(s5, []) == Some(s5);
    assert [Call(EnqueueStart), e, e, e, e] == [Call(EnqueueStart)] + [e, e, e, e];
    assert [e, e, e, e] == [e] + [e, e, e] && [e, e, e] == [e] + [e, e] && [e, e] == [e] + [e] && [e] == [e] + [];
  }

  lemma WorkAlone(s: State, r: Action)
    requires r == WorkerStep(0) && s == State([Idle], [EnqueueDone], [0], false, Free, [0], [], [])
    ensures Exec(s, [r, r, r, r]) == Some(State([Running(0)], [EnqueueDone], [], false, Free, [0], [0], []))
  {
    var s1 := Next(s, r).value;
    var s2 := Next(s1, r).value;
    var s3 := Next(s2, r).value;
    ExecStep(s, r, [r, r, r]);
    ExecStep(s1, r, [r, r]);
    ExecStep(s2, r, [r]);
    ExecStep(s3, r, []);
    var s4 := Next(s3, r).value;
    assert s4.workers == [Running(0)] && s4.tasks == [] && s4.taken == [0];
    assert Exec(s4, []) == Some(s4);
    assert [r, r, r, r] == [r] + [r, r, r] && [r, r, r] == [r] + [r, r] && [r, r] == [r] + [r] && [r] == [r] + [];
  }

  lemma WaitAlone(s: State, w: Action)
    requires w == CallerStep(1, 0) && s == State([Running(0)], [EnqueueDone], [], false, Free, [0], [0], [])
    ensures Exec(s, [Call(WaitStart), w, w]) == Some(s.(callers := [EnqueueDone, WaitDone]))
  {
    var s1 := Next(s, Call(WaitStart)).value;
    var s2 := Next(s1, w).value;
    ExecStep(s, Call(WaitStart), [w, w]);
    ExecStep(s1, w, [w]);
    ExecStep(s2, w, []);
    var s3 := Next(s2, w).value;
    assert s3.callers == [EnqueueDone, WaitDone];
    assert Exec(s3, []) == Some(s3);
    assert [Call(WaitStart), w, w] == [Call(WaitStart)] + [w, w] && [w, w] == [w] + [w] && [w] == [w] + [];
  }
}

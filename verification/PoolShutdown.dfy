/** What `shutdown` achieves although it stores `stop` without the lock. */
module PoolShutdown {
  import opened Common
  import opened ThreadPool
  import opened PoolSafety
  import opened PoolLiveness
  import opened PoolTheorems

  /** A worker has seen the flag unset and no task, and will go to sleep whatever happens to the flag. */
  ghost predicate AboutToSleep(s: State) {
    s.tasks == [] && exists i :: 0 <= i < |s.workers| && s.workers[i].SawRunning?
  }

  ghost predicate StaysAwake(s: State) {
    s.stop && !AnyAsleep(s.workers) && !AboutToSleep(s)
  }

  lemma WorkerStaysAwake(s: State, i: nat, t: State)
    requires LockInv(s) && StaysAwake(s) && i < |s.workers| && StepWorker(s, i) == Some(t)
    ensures StaysAwake(t)
  {
  }

  lemma CallerStaysAwake(s: State, c: nat, w: nat, t: State)
    requires LockInv(s) && StaysAwake(s) && c < |s.callers| && StepCaller(s, c, w) == Some(t)
    ensures StaysAwake(t)
  {
    CallerStops(s, c, w, t);
    CallerWakes(s, c, w, t);
    SleepersOnlyWake(s.workers, w, t.workers);
  }

  lemma {:induction false} StaysAwakeForever(s: State, schedule: seq<Action>, t: State)
    requires PoolInv(s) && StaysAwake(s) && Exec(s, schedule) == Some(t)
    ensures StaysAwake(t)
    decreases |schedule|
  {
    if schedule != [] {
      var a, u := schedule[0], Next(s, schedule[0]).value;
      InvKept(s, a, u);
      match a {
        case Call(_) =>
        case WorkerStep(i) => WorkerStaysAwake(s, i, u);
        case CallerStep(c, w) => CallerStaysAwake(s, c, w, u);
        case Spurious(i) =>
      }
      StaysAwakeForever(u, schedule[1..], t);
    }
  }

  // ---------- after the notification ----------

  ghost predicate NobodySleepsLater(s: State) {
    forall schedule :: Exec(s, schedule).Some? ==> !AnyAsleep(Exec(s, schedule).value.workers)
  }

  /** With the flag set and everybody just notified, no worker ever sleeps again exactly when none is about to. */
  lemma NotifiedStayAwake(s: State)
    requires PoolInv(s) && s.stop && !AnyAsleep(s.workers)
    ensures NobodySleepsLater(s) <==> !AboutToSleep(s)
  {
    if AboutToSleep(s) {
      var i :| 0 <= i < |s.workers| && s.workers[i].SawRunning?;
      var schedule := [WorkerStep(i)] + [];
      ExecStep(s, WorkerStep(i), []);
      assert StepWorker(s, i).value.workers[i].Asleep?;
      assert AnyAsleep(Exec(s, schedule).value.workers);
    } else {
      forall schedule | Exec(s, schedule).Some?
        ensures !AnyAsleep(Exec(s, schedule).value.workers)
      {
        StaysAwakeForever(s, schedule, Exec(s, schedule).value);
      }
    }
  }

  // ---------- from the store on ----------

  /** Call `c` has set the flag while nobody was about to sleep; once it has notified, nobody sleeps. */
  ghost predicate StoredInTime(s: State, c: nat) {
    && s.stop && !AboutToSleep(s) && c < |s.callers|
    && (s.callers[c].ShutdownStored? || (s.callers[c].ShutdownDone? && !AnyAsleep(s.workers)))
  }

  /** With the flag set, no worker comes to be about to sleep. */
  lemma WorkerNotAboutToSleep(s: State, i: nat, t: State)
    requires LockInv(s) && s.stop && !AboutToSleep(s) && i < |s.workers| && StepWorker(s, i) == Some(t)
    ensures t.stop && !AboutToSleep(t) && t.callers == s.callers
    ensures AnyAsleep(t.workers) ==> AnyAsleep(s.workers)
  {
    WorkerWakes(s, i, t);
    if AnyAsleep(t.workers) {
      var k :| 0 <= k < |t.workers| && t.workers[k].Asleep?;
      assert k != i && s.workers[k].Asleep?;
    }
  }

  /** Nor does a call make it so; and only a shutdown call's own notification completes it. */
  lemma CallerNotAboutToSleep(s: State, c: nat, w: nat, t: State)
    requires s.stop && !AboutToSleep(s) && c < |s.callers| && StepCaller(s, c, w) == Some(t)
    ensures t.stop && !AboutToSleep(t)
    ensures AnyAsleep(t.workers) ==> AnyAsleep(s.workers)
    ensures |t.callers| == |s.callers| && t.callers == s.callers[c := t.callers[c]]
  {
    CallerStops(s, c, w, t);
    CallerWakes(s, c, w, t);
    if AnyAsleep(t.workers) {
      NobodyFallsAsleep(s.workers, w, t.workers);
    }
  }

  lemma StoredThenDone(s: State, c: nat, w: nat, t: State)
    requires c < |s.callers| && s.callers[c].ShutdownStored? && StepCaller(s, c, w) == Some(t)
    ensures t.callers == s.callers[c := ShutdownDone] && !AnyAsleep(t.workers)
  {
    NobodyAsleepAfterWakeAll(s.workers);
  }

  lemma CallerStoredInTime(s: State, c: nat, d: nat, w: nat, t: State)
    requires StoredInTime(s, c) && d < |s.callers| && StepCaller(s, d, w) == Some(t)
    ensures StoredInTime(t, c)
  {
    CallerNotAboutToSleep(s, d, w, t);
    if d == c {
      StoredThenDone(s, c, w, t);
    }
  }

  lemma StoredInTimeKept(s: State, c: nat, a: Action, t: State)
    requires LockInv(s) && StoredInTime(s, c) && Next(s, a) == Some(t)
    ensures StoredInTime(t, c)
  {
    match a
    case Call(_) =>
    case WorkerStep(i) => WorkerNotAboutToSleep(s, i, t);
    case CallerStep(d, w) => CallerStoredInTime(s, c, d, w, t);
    case Spurious(i) =>
      assert AnyAsleep(s.workers);
  }

  lemma {:induction false} StoredInTimeForever(s: State, c: nat, schedule: seq<Action>, t: State)
    requires PoolInv(s) && StoredInTime(s, c) && Exec(s, schedule) == Some(t)
    ensures StoredInTime(t, c)
    decreases |schedule|
  {
    if schedule != [] {
      var u := Next(s, schedule[0]).value;
      InvKept(s, schedule[0], u);
      StoredInTimeKept(s, c, schedule[0], u);
      StoredInTimeForever(u, c, schedule[1..], t);
    }
  }

  /** In every state in which call `c` to `shutdown` has returned, no worker sleeps. */
  ghost predicate NobodySleepsOnceDone(s: State, c: nat) {
    forall schedule :: Exec(s, schedule).Some? ==>
      var e := Exec(s, schedule).value;
      c < |e.callers| && e.callers[c].ShutdownDone? ==> !AnyAsleep(e.workers)
  }

  /** The call notifies and returns, and only then does the worker go to sleep. */
  lemma SleeperIsMissed(s: State, c: nat, i: nat)
    requires c < |s.callers| && s.callers[c].ShutdownStored?
    requires i < |s.workers| && s.workers[i].SawRunning? && s.tasks == []
    ensures !NobodySleepsOnceDone(s, c)
  {
    var t := Next(s, CallerStep(c, 0)).value;
    assert t.workers[i].SawRunning? && t.callers[c].ShutdownDone?;
    var u := Next(t, WorkerStep(i)).value;
    assert u.workers[i].Asleep? && u.callers == t.callers;
    var schedule := [CallerStep(c, 0)] + ([WorkerStep(i)] + []);
    ExecStep(s, CallerStep(c, 0), [WorkerStep(i)] + []);
    ExecStep(t, WorkerStep(i), []);
    assert Exec(s, schedule) == Some(u);
  }

  /**
   * When `shutdown` stores the flag: no worker sleeps once the call has returned, in any continuation,
   * exactly if at the moment of the store no worker had seen the flag unset and no task.
   */
  lemma ShutdownWakesAll(s: State, c: nat, t: State)
    requires PoolInv(s) && c < |s.callers| && s.callers[c].ShutdownStart? && StepCaller(s, c, 0) == Some(t)
    ensures NobodySleepsOnceDone(t, c) <==> !AboutToSleep(s)
  {
    InvKept(s, CallerStep(c, 0), t);
    if AboutToSleep(s) {
      var i :| 0 <= i < |s.workers| && s.workers[i].SawRunning?;
      SleeperIsMissed(t, c, i);
    } else {
      assert t.workers == s.workers && t.tasks == s.tasks;
      forall schedule | Exec(t, schedule).Some?
        ensures var e := Exec(t, schedule).value;
          c < |e.callers| && e.callers[c].ShutdownDone? ==> !AnyAsleep(e.workers)
      {
        StoredInTimeForever(t, c, schedule, Exec(t, schedule).value);
      }
    }
  }

  /**
   * Such a run exists: one worker sleeps on although `shutdown` has completed. Nothing in that call will wake
   * it: that takes a spurious wakeup, another `shutdown`, or the destructor.
   */
  lemma ShutdownCanMissAWorker() returns (schedule: seq<Action>)
    ensures Exec(Initial(1), schedule).Some?
    ensures var s := Exec(Initial(1), schedule).value;
      s.stop && s.callers == [ShutdownDone] && s.workers == [Asleep]
  {
    var a, b := WorkerStep(0), CallerStep(0, 0);
    var s0 := Initial(1);
    var s1 := Next(s0, a).value;
    var s2 := Next(s1, a).value;
    var s3 := Next(s2, Call(ShutdownStart)).value;
    var s4 := Next(s3, b).value;
    var s5 := Next(s4, b).value;
    assert s5.workers == [SawRunning];
    schedule := [a] + ([a] + ([Call(ShutdownStart)] + ([b] + ([b] + ([a] + [])))));
    ExecStep(s0, a, [a] + ([Call(ShutdownStart)] + ([b] + ([b] + ([a] + [])))));
    ExecStep(s1, a, [Call(ShutdownStart)] + ([b] + ([b] + ([a] + []))));
    ExecStep(s2, Call(ShutdownStart), [b] + ([b] + ([a] + [])));
    ExecStep(s3, b, [b] + ([a] + []));
    ExecStep(s4, b, [a] + []);
    ExecStep(s5, a, []);
  }
}

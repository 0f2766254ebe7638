/** Enough wakeups, and the pool that its destructor has sealed: what every interleaving keeps of them. */
module PoolLiveness {
  import opened Common
  import opened ThreadPool
  import opened PoolSafety

  // ---------- enough wakeups ----------

  /** Neither waiting for a notification nor gone. */
  function Awake(w: Worker): nat {
    if w.Asleep? || w.Returned? then 0 else 1
  }

  /** An `enqueue` that has pushed but not yet called `notify_one`. */
  function Owes(c: Caller): nat {
    if c.EnqueuePushed? then 1 else 0
  }

  /** While any worker sleeps, every waiting task has an awake worker or an outstanding notification of its own. */
  ghost predicate WakeInv(s: State) {
    AnyAsleep(s.workers) ==> |s.tasks| <= Total(Owes, s.callers) + Total(Awake, s.workers)
  }

  lemma WorkerWakes(s: State, i: nat, t: State)
    requires i < |s.workers| && StepWorker(s, i) == Some(t)
    ensures |t.workers| == |s.workers| && t.workers == s.workers[i := t.workers[i]]
    ensures t.callers == s.callers && |t.tasks| <= |s.tasks|
    ensures !s.workers[i].Asleep? && !s.workers[i].Returned?
    ensures t.workers[i].Asleep? || t.workers[i].Returned? ==> t.tasks == []
  {
  }

  lemma WakeWorker(s: State, i: nat, t: State)
    requires WakeInv(s) && i < |s.workers| && StepWorker(s, i) == Some(t)
    ensures WakeInv(t)
  {
    WorkerWakes(s, i, t);
    TotalUpdate(Awake, s.workers, i, t.workers[i]);
    if AnyAsleep(t.workers) && t.tasks != [] {
      var k :| 0 <= k < |t.workers| && t.workers[k].Asleep?;
      assert s.workers[k].Asleep?;
    }
  }

  lemma NobodyAsleepAfterWakeAll(ws: seq<Worker>)
    ensures !AnyAsleep(WakeAll(ws))
  {
  }

  /** What a call does to the queue and to its own debt. */
  lemma CallerOwes(s: State, c: nat, w: nat, t: State)
    requires c < |s.callers| && StepCaller(s, c, w) == Some(t)
    ensures |t.callers| == |s.callers| && t.callers == s.callers[c := t.callers[c]]
    ensures if s.callers[c].EnqueuePushed? then t.tasks == s.tasks
            else |t.tasks| - |s.tasks| <= Owes(t.callers[c]) - Owes(s.callers[c])
  {
  }

  /** A notification wakes somebody, unless nobody sleeps. */
  lemma CallerNotifies(s: State, c: nat, w: nat, t: State)
    requires c < |s.callers| && s.callers[c].EnqueuePushed? && StepCaller(s, c, w) == Some(t)
    ensures !AnyAsleep(s.workers) || (w < |s.workers| && s.workers[w].Asleep? && t.workers == s.workers[w := Woken])
  {
  }

  lemma NobodyFallsAsleep(ws: seq<Worker>, w: nat, after: seq<Worker>)
    requires WakeEffect(ws, w, after) && AnyAsleep(after)
    ensures AnyAsleep(ws) && Total(Awake, after) >= Total(Awake, ws)
    ensures after != ws ==> Total(Awake, after) == Total(Awake, ws) + 1
  {
    NobodyAsleepAfterWakeAll(ws);
    if w < |ws| && ws[w].Asleep? {
      TotalUpdate(Awake, ws, w, Woken);
    }
    var k :| 0 <= k < |after| && after[k].Asleep?;
    assert ws[k].Asleep?;
  }

  lemma WakeCaller(s: State, c: nat, w: nat, t: State)
    requires WakeInv(s) && c < |s.callers| && StepCaller(s, c, w) == Some(t)
    ensures WakeInv(t)
  {
    CallerOwes(s, c, w, t);
    CallerWakes(s, c, w, t);
    TotalUpdate(Owes, s.callers, c, t.callers[c]);
    if AnyAsleep(t.workers) {
      NobodyFallsAsleep(s.workers, w, t.workers);
      if s.callers[c].EnqueuePushed? {
        CallerNotifies(s, c, w, t);
        assert s.workers[w] != t.workers[w];
      }
    }
  }

  lemma WakeKept(s: State, a: Action, t: State)
    requires WakeInv(s) && Next(s, a) == Some(t)
    ensures WakeInv(t)
  {
    match a
    case Call(c) => TotalExtend(Owes, s.callers, c);
    case WorkerStep(i) => WakeWorker(s, i, t);
    case CallerStep(c, w) => WakeCaller(s, c, w, t);
    case Spurious(i) =>
      TotalUpdate(Awake, s.workers, i, Woken);
      assert AnyAsleep(s.workers);
  }

  // ---------- the sealed pool ----------

  /** The stop flag is set and nobody is past a test that saw it unset. */
  ghost predicate Sealed(s: State) {
    && s.stop
    && (forall i :: 0 <= i < |s.workers| ==> !s.workers[i].SawRunning?)
    && (forall c :: 0 <= c < |s.callers| ==> !s.callers[c].EnqueueChecked?)
  }

  /** Sealed, and every worker has been woken: from here on nobody sleeps and nothing is pushed. */
  ghost predicate Draining(s: State) {
    Sealed(s) && !AnyAsleep(s.workers)
  }

  predicate DestructorStored(c: Caller) {
    c.DestroyUnlocked? || c.DestroyJoining? || c.DestroyDone?
  }

  predicate DestructorNotified(c: Caller) {
    c.DestroyJoining? || c.DestroyDone?
  }

  /** The destructor stores `stop` under the lock, so its store seals the pool and its `notify_all` misses nobody. */
  ghost predicate DestructorInv(s: State) {
    forall c :: 0 <= c < |s.callers| ==>
      && (DestructorStored(s.callers[c]) ==> Sealed(s))
      && (DestructorNotified(s.callers[c]) ==> Draining(s))
  }

  lemma WorkerSealed(s: State, i: nat, t: State)
    requires Sealed(s) && i < |s.workers| && StepWorker(s, i) == Some(t)
    ensures Sealed(t) && (t.workers[i].Asleep? ==> s.workers[i].SawRunning?)
    ensures t.workers == s.workers[i := t.workers[i]] && t.callers == s.callers
  {
  }

  lemma CallerSealed(s: State, c: nat, w: nat, t: State)
    requires Sealed(s) && c < |s.callers| && StepCaller(s, c, w) == Some(t)
    ensures Sealed(t)
  {
    CallerStops(s, c, w, t);
    CallerWakes(s, c, w, t);
  }

  lemma SealedKept(s: State, a: Action, t: State)
    requires Sealed(s) && Next(s, a) == Some(t)
    ensures Sealed(t)
  {
    match a
    case Call(_) =>
    case WorkerStep(i) => WorkerSealed(s, i, t);
    case CallerStep(c, w) => CallerSealed(s, c, w, t);
    case Spurious(i) =>
  }

  lemma SleepersOnlyWake(ws: seq<Worker>, w: nat, after: seq<Worker>)
    requires WakeEffect(ws, w, after) && !AnyAsleep(ws)
    ensures after == ws
  {
    if after == WakeAll(ws) {
      assert forall i :: 0 <= i < |ws| ==> after[i] == ws[i];
    }
  }

  lemma DrainingKept(s: State, a: Action, t: State)
    requires Draining(s) && Next(s, a) == Some(t)
    ensures Draining(t)
  {
    SealedKept(s, a, t);
    match a
    case Call(_) =>
    case WorkerStep(i) =>
      WorkerSealed(s, i, t);
      assert forall k :: 0 <= k < |t.workers| && k != i ==> t.workers[k] == s.workers[k];
    case CallerStep(c, w) =>
      CallerWakes(s, c, w, t);
      SleepersOnlyWake(s.workers, w, t.workers);
    case Spurious(i) =>
  }

  /** Where a destructor call can come from. */
  lemma CallerDestroys(s: State, c: nat, w: nat, t: State)
    requires c < |s.callers| && StepCaller(s, c, w) == Some(t)
    ensures |t.callers| == |s.callers| && t.callers == s.callers[c := t.callers[c]]
    ensures DestructorStored(t.callers[c]) ==>
      DestructorStored(s.callers[c]) || (s.callers[c].DestroyLocked? && t.stop && t.workers == s.workers)
    ensures DestructorNotified(t.callers[c]) ==>
      DestructorNotified(s.callers[c]) || (s.callers[c].DestroyUnlocked? && t.workers == WakeAll(s.workers))
  {
  }

  lemma DestructorCaller(s: State, c: nat, w: nat, t: State)
    requires LockInv(s) && DestructorInv(s) && c < |s.callers| && StepCaller(s, c, w) == Some(t)
    ensures DestructorInv(t)
  {
    CallerDestroys(s, c, w, t);
    NobodyAsleepAfterWakeAll(s.workers);
    if Sealed(s) {
      CallerSealed(s, c, w, t);
    }
    if Draining(s) {
      DrainingKept(s, CallerStep(c, w), t);
    }
    if s.callers[c].DestroyLocked? {
      assert s.lock == ByCaller(c);
    }
  }

  lemma DestructorKept(s: State, a: Action, t: State)
    requires LockInv(s) && DestructorInv(s) && Next(s, a) == Some(t)
    ensures DestructorInv(t)
  {
    if Sealed(s) {
      SealedKept(s, a, t);
    }
    if Draining(s) {
      DrainingKept(s, a, t);
    }
    match a
    case Call(_) =>
    case WorkerStep(i) => WorkerWakes(s, i, t);
    case CallerStep(c, w) => DestructorCaller(s, c, w, t);
    case Spurious(i) =>
  }
}

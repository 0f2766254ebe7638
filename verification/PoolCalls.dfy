/** What the calls on the pool promise to their callers: a destructor that has returned, an `enqueue` that throws. */
module PoolCalls {
  import opened Common
  import opened ThreadPool
  import opened PoolSafety
  import opened PoolLiveness
  import opened PoolTheorems

  // ---------- the destructor joins ----------

  /** A destructor that has returned leaves no worker behind. */
  ghost predicate JoinInv(s: State) {
    forall c :: 0 <= c < |s.callers| && s.callers[c].DestroyDone? ==> AllReturned(s)
  }

  lemma ReturnedStay(ws: seq<Worker>, w: nat, after: seq<Worker>)
    requires WakeEffect(ws, w, after) && forall i :: 0 <= i < |ws| ==> ws[i].Returned?
    ensures after == ws
  {
    SleepersOnlyWake(ws, w, after);
  }

  lemma JoinedBefore(s: State, c: nat, w: nat, t: State)
    requires c < |s.callers| && StepCaller(s, c, w) == Some(t) && t.callers[c].DestroyDone?
    ensures s.callers[c].DestroyJoining? && AllReturned(s)
  {
  }

  lemma JoinCaller(s: State, c: nat, w: nat, t: State)
    requires JoinInv(s) && c < |s.callers| && StepCaller(s, c, w) == Some(t)
    ensures JoinInv(t)
  {
    CallerMoves(s, c, w, t);
    CallerWakes(s, c, w, t);
    forall d | 0 <= d < |t.callers| && t.callers[d].DestroyDone?
      ensures AllReturned(t)
    {
      if d == c {
        JoinedBefore(s, c, w, t);
      }
      ReturnedStay(s.workers, w, t.workers);
    }
  }

  lemma JoinKept(s: State, a: Action, t: State)
    requires JoinInv(s) && Next(s, a) == Some(t)
    ensures JoinInv(t)
  {
    match a
    case Call(_) =>
    case WorkerStep(i) => WorkerWakes(s, i, t);
    case CallerStep(c, w) => JoinCaller(s, c, w, t);
    case Spurious(i) =>
  }

  lemma {:induction false} JoinAlways(s: State, schedule: seq<Action>, t: State)
    requires JoinInv(s) && Exec(s, schedule) == Some(t)
    ensures JoinInv(t)
    decreases |schedule|
  {
    if schedule != [] {
      var u := Next(s, schedule[0]).value;
      JoinKept(s, schedule[0], u);
      JoinAlways(u, schedule[1..], t);
    }
  }

  /**
   * In every reachable state in which a destructor has returned, all workers have returned, and every accepted
   * task has been executed exactly once.
   */
  lemma DestructorJoins(size: nat, s: State, c: nat)
    requires Reachable(size, s) && c < |s.callers| && s.callers[c].DestroyDone?
    ensures AllReturned(s) && (size > 0 ==> Drained(s))
  {
    var schedule :| Exec(Initial(size), schedule) == Some(s);
    JoinAlways(Initial(size), schedule, s);
    if size > 0 {
      DrainedExactlyOnce(size, s);
    }
  }

  // ---------- an enqueue that throws ----------

  /** Only a stopped pool refuses a task. */
  ghost predicate ThrowInv(s: State) {
    forall c :: 0 <= c < |s.callers| && s.callers[c].EnqueueThrown? ==> s.stop
  }

  lemma ThrownBefore(s: State, c: nat, w: nat, t: State)
    requires c < |s.callers| && StepCaller(s, c, w) == Some(t)
    ensures t.callers[c].EnqueueThrown? ==> s.stop
  {
  }

  lemma ThrowKept(s: State, a: Action, t: State)
    requires ThrowInv(s) && Next(s, a) == Some(t)
    ensures ThrowInv(t)
  {
    match a
    case Call(_) =>
    case WorkerStep(i) => WorkerWakes(s, i, t); WorkerKeepsStop(s, i, t);
    case CallerStep(c, w) =>
      CallerStops(s, c, w, t);
      ThrownBefore(s, c, w, t);
    case Spurious(i) =>
  }

  lemma WorkerKeepsStop(s: State, i: nat, t: State)
    requires i < |s.workers| && StepWorker(s, i) == Some(t)
    ensures t.stop == s.stop
  {
  }

  lemma {:induction false} ThrowAlways(s: State, schedule: seq<Action>, t: State)
    requires ThrowInv(s) && Exec(s, schedule) == Some(t)
    ensures ThrowInv(t)
    decreases |schedule|
  {
    if schedule != [] {
      var u := Next(s, schedule[0]).value;
      ThrowKept(s, schedule[0], u);
      ThrowAlways(u, schedule[1..], t);
    }
  }

  /** A call that has thrown found the pool stopped, and its task was not accepted. */
  lemma ThrownMeansStopped(size: nat, s: State, c: nat)
    requires Reachable(size, s) && c < |s.callers| && s.callers[c].EnqueueThrown?
    ensures s.stop && c !in s.accepted
  {
    var schedule :| Exec(Initial(size), schedule) == Some(s);
    ThrowAlways(Initial(size), schedule, s);
    ReachableInv(size, s);
  }

  /** The pool is stopped, and call `c` to `enqueue` has not yet passed the test, or has thrown. */
  ghost predicate Refusing(s: State, c: nat) {
    && s.stop && c < |s.callers|
    && (s.callers[c].EnqueueStart? || s.callers[c].EnqueueLocked? || s.callers[c].EnqueueThrown?)
  }

  lemma RefusingCaller(s: State, c: nat, d: nat, w: nat, t: State)
    requires Refusing(s, c) && d < |s.callers| && StepCaller(s, d, w) == Some(t)
    ensures Refusing(t, c)
  {
    CallerStops(s, d, w, t);
    if d == c {
      RefusedStep(s, c, w, t);
    }
  }

  lemma RefusedStep(s: State, c: nat, w: nat, t: State)
    requires Refusing(s, c) && StepCaller(s, c, w) == Some(t)
    ensures t.callers[c].EnqueueLocked? || t.callers[c].EnqueueThrown?
    ensures s.callers[c].EnqueueLocked? ==> t.callers[c].EnqueueThrown? && t.lock.Free?
  {
  }

  lemma {:induction false} RefusingForever(s: State, c: nat, schedule: seq<Action>, t: State)
    requires Refusing(s, c) && Exec(s, schedule) == Some(t)
    ensures Refusing(t, c)
    decreases |schedule|
  {
    if schedule != [] {
      var a, u := schedule[0], Next(s, schedule[0]).value;
      match a {
        case Call(_) =>
        case WorkerStep(i) =>
          WorkerWakes(s, i, u);
          WorkerKeepsStop(s, i, u);
        case CallerStep(d, w) => RefusingCaller(s, c, d, w, u);
        case Spurious(i) =>
      }
      RefusingForever(u, c, schedule[1..], t);
    }
  }

  /**
   * Once the pool is stopped, an `enqueue` that has not yet passed its test is refused for good: whatever happens,
   * it does not push, and if it gets as far as leaving the lock it throws.
   */
  lemma StoppedPoolRefuses(size: nat, s: State, c: nat, schedule: seq<Action>, t: State)
    requires Reachable(size, s) && Refusing(s, c) && Exec(s, schedule) == Some(t)
    ensures Refusing(t, c) && c !in t.accepted
  {
    ReachableInv(size, s);
    InvAlways(s, schedule, t);
    RefusingForever(s, c, schedule, t);
  }
}

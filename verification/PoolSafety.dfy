/** What every interleaving of the pool keeps: the lock, exactly-once execution in push order, and enough wakeups. */
module PoolSafety {
  import opened Common
  import opened ThreadPool

  // ---------- the lock ----------

  predicate HoldsLock(w: Worker) {
    w.Locked? || w.SawRunning? || w.Ready?
  }

  predicate CallerHoldsLock(c: Caller) {
    c.EnqueueLocked? || c.EnqueueChecked? || c.WaitLocked? || c.DestroyLocked?
  }

  /** Exactly the recorded holder is inside the locked region. */
  ghost predicate LockInv(s: State) {
    && (forall i :: 0 <= i < |s.workers| ==> (HoldsLock(s.workers[i]) <==> s.lock == ByWorker(i)))
    && (forall c :: 0 <= c < |s.callers| ==> (CallerHoldsLock(s.callers[c]) <==> s.lock == ByCaller(c)))
    && (s.lock.ByWorker? ==> s.lock.w < |s.workers|)
    && (s.lock.ByCaller? ==> s.lock.c < |s.callers|)
  }

  lemma LockWorker(s: State, i: nat, t: State)
    requires LockInv(s) && i < |s.workers| && StepWorker(s, i) == Some(t)
    ensures LockInv(t)
  {
  }

  /** A call wakes all sleepers, or one, or none. */
  ghost predicate WakeEffect(ws: seq<Worker>, w: nat, after: seq<Worker>) {
    || after == ws
    || after == WakeAll(ws)
    || (w < |ws| && ws[w].Asleep? && after == ws[w := Woken])
  }

  /** A step takes the free lock, gives it back, or leaves it alone. */
  ghost predicate LockMove(before: bool, after: bool, lock: Holder, lock': Holder, me: Holder) {
    || (!before && after && lock.Free? && lock' == me)
    || (before && !after && lock' == Free)
    || (before == after && lock' == lock)
  }

  lemma CallerMoves(s: State, c: nat, w: nat, t: State)
    requires c < |s.callers| && StepCaller(s, c, w) == Some(t)
    ensures |t.callers| == |s.callers| && t.callers == s.callers[c := t.callers[c]]
    ensures LockMove(CallerHoldsLock(s.callers[c]), CallerHoldsLock(t.callers[c]), s.lock, t.lock, ByCaller(c))
  {
  }

  lemma CallerWakes(s: State, c: nat, w: nat, t: State)
    requires c < |s.callers| && StepCaller(s, c, w) == Some(t)
    ensures WakeEffect(s.workers, w, t.workers)
  {
    match s.callers[c]
    case EnqueuePushed =>
    case ShutdownStored =>
    case DestroyUnlocked =>
    case _ => assert t.workers == s.workers;
  }

  lemma LockCaller(s: State, c: nat, w: nat, t: State)
    requires LockInv(s) && c < |s.callers| && StepCaller(s, c, w) == Some(t)
    ensures LockInv(t)
  {
    CallerMoves(s, c, w, t);
    CallerWakes(s, c, w, t);
  }

  lemma LockKept(s: State, a: Action, t: State)
    requires LockInv(s) && Next(s, a) == Some(t)
    ensures LockInv(t)
  {
    match a
    case Call(_) =>
    case WorkerStep(i) => LockWorker(s, i, t);
    case CallerStep(c, w) => LockCaller(s, c, w, t);
    case Spurious(i) =>
  }

  // ---------- stopping ----------

  /** A worker that is past its wait finds a task or the stop flag; a worker that has left saw both stop and no task. */
  ghost predicate StopInv(s: State) {
    && (forall i :: 0 <= i < |s.workers| && s.workers[i].Ready? && s.tasks == [] ==> s.stop)
    && (forall i :: 0 <= i < |s.workers| && s.workers[i].Returned? ==> Closed(s))
  }

  /** No task is waiting, and none can still arrive. */
  ghost predicate Closed(s: State) {
    s.stop && s.tasks == [] && forall c :: 0 <= c < |s.callers| ==> !s.callers[c].EnqueueChecked?
  }

  lemma StopWorker(s: State, i: nat, t: State)
    requires LockInv(s) && StopInv(s) && i < |s.workers| && StepWorker(s, i) == Some(t)
    ensures StopInv(t)
  {
  }

  /** `stop` is never cleared, only a checked `enqueue` pushes, and only an unset flag lets a call pass the check. */
  lemma CallerStops(s: State, c: nat, w: nat, t: State)
    requires c < |s.callers| && StepCaller(s, c, w) == Some(t)
    ensures s.stop ==> t.stop
    ensures t.tasks == (if s.callers[c].EnqueueChecked? then s.tasks + [c] else s.tasks)
    ensures |t.callers| == |s.callers| && t.callers == s.callers[c := t.callers[c]]
    ensures t.callers[c].EnqueueChecked? ==> !s.stop
  {
  }

  lemma StopCaller(s: State, c: nat, w: nat, t: State)
    requires LockInv(s) && StopInv(s) && c < |s.callers| && StepCaller(s, c, w) == Some(t)
    ensures StopInv(t)
  {
    CallerStops(s, c, w, t);
    CallerWakes(s, c, w, t);
  }

  lemma StopKept(s: State, a: Action, t: State)
    requires LockInv(s) && StopInv(s) && Next(s, a) == Some(t)
    ensures StopInv(t)
  {
    match a
    case Call(_) =>
    case WorkerStep(i) => StopWorker(s, i, t);
    case CallerStep(c, w) => StopCaller(s, c, w, t);
    case Spurious(i) =>
  }

  // ---------- history ----------

  function TaskOf(w: Worker): multiset<nat> {
    if w.Running? then multiset{w.task} else multiset{}
  }

  /** The tasks being executed. */
  function RunningTasks(ws: seq<Worker>): multiset<nat> {
    if ws == [] then multiset{} else TaskOf(ws[0]) + RunningTasks(ws[1..])
  }

  lemma {:induction false} RunningAdd(ws: seq<Worker>, i: nat, w: Worker)
    requires i < |ws| && !ws[i].Running?
    ensures RunningTasks(ws[i := w]) == RunningTasks(ws) + TaskOf(w)
  {
    if i == 0 {
      assert ws[i := w][1..] == ws[1..];
    } else {
      assert ws[i := w][1..] == ws[1..][i - 1 := w];
      RunningAdd(ws[1..], i - 1, w);
    }
  }

  lemma RunningSame(ws: seq<Worker>, i: nat, w: Worker)
    requires i < |ws| && !ws[i].Running? && !w.Running?
    ensures RunningTasks(ws[i := w]) == RunningTasks(ws)
  {
    RunningAdd(ws, i, w);
  }

  lemma RunningRemove(ws: seq<Worker>, i: nat)
    requires i < |ws| && ws[i].Running?
    ensures RunningTasks(ws) == RunningTasks(ws[i := Idle]) + multiset{ws[i].task}
  {
    RunningAdd(ws[i := Idle], i, ws[i]);
    assert ws[i := Idle][i := ws[i]] == ws;
  }

  lemma {:induction false} RunningWakeAll(ws: seq<Worker>)
    ensures RunningTasks(WakeAll(ws)) == RunningTasks(ws)
  {
    if ws != [] {
      RunningWakeAll(ws[1..]);
    }
  }

  predicate Pushed(c: Caller) {
    c.EnqueuePushed? || c.EnqueueDone?
  }

  /** Tasks are popped in the order they were pushed, and each popped task is running once or finished once. */
  ghost predicate History(accepted: seq<nat>, taken: seq<nat>, tasks: seq<nat>,
                          finished: seq<nat>, running: multiset<nat>)
  {
    && accepted == taken + tasks
    && multiset(taken) == multiset(finished) + running
  }

  lemma HistoryPush(accepted: seq<nat>, taken: seq<nat>, tasks: seq<nat>,
                    finished: seq<nat>, running: multiset<nat>, n: nat)
    requires History(accepted, taken, tasks, finished, running)
    ensures History(accepted + [n], taken, tasks + [n], finished, running)
  {
  }

  lemma HistoryPop(accepted: seq<nat>, taken: seq<nat>, tasks: seq<nat>, finished: seq<nat>, running: multiset<nat>)
    requires History(accepted, taken, tasks, finished, running) && tasks != []
    ensures History(accepted, taken + [tasks[0]], tasks[1..], finished, running + multiset{tasks[0]})
  {
    assert tasks == [tasks[0]] + tasks[1..];
  }

  lemma HistoryFinish(accepted: seq<nat>, taken: seq<nat>, tasks: seq<nat>,
                      finished: seq<nat>, running: multiset<nat>, n: nat)
    requires History(accepted, taken, tasks, finished, running + multiset{n})
    ensures History(accepted, taken, tasks, finished + [n], running)
  {
  }

  ghost predicate HistoryInv(s: State) {
    History(s.accepted, s.taken, s.tasks, s.finished, RunningTasks(s.workers))
  }

  /** The accepted tasks are those of the calls that got past their push, each once. */
  ghost predicate AcceptedInv(s: State) {
    && Distinct(s.accepted)
    && (forall c: nat :: c in s.accepted <==> c < |s.callers| && Pushed(s.callers[c]))
  }

  lemma CallerAccepts(s: State, c: nat, w: nat, t: State)
    requires c < |s.callers| && StepCaller(s, c, w) == Some(t)
    ensures |t.callers| == |s.callers| && t.callers == s.callers[c := t.callers[c]]
    ensures t.accepted == (if s.callers[c].EnqueueChecked? then s.accepted + [c] else s.accepted)
    ensures Pushed(t.callers[c]) <==> s.callers[c].EnqueueChecked? || Pushed(s.callers[c])
  {
  }

  lemma AcceptedCaller(s: State, c: nat, w: nat, t: State)
    requires AcceptedInv(s) && c < |s.callers| && StepCaller(s, c, w) == Some(t)
    ensures AcceptedInv(t)
  {
    CallerAccepts(s, c, w, t);
  }

  lemma AcceptedKept(s: State, a: Action, t: State)
    requires AcceptedInv(s) && Next(s, a) == Some(t)
    ensures AcceptedInv(t)
  {
    match a
    case Call(_) =>
    case WorkerStep(i) => WorkerHasEffect(s, i, t);
    case CallerStep(c, w) => AcceptedCaller(s, c, w, t);
    case Spurious(i) =>
  }

  /** A worker step finishes a task, pops one, or leaves the history alone. */
  ghost predicate WorkerEffect(s: State, i: nat, t: State)
    requires i < |s.workers|
  {
    t.accepted == s.accepted &&
    if s.workers[i].Running? then
      && t.workers == s.workers[i := Idle] && t.finished == s.finished + [s.workers[i].task]
      && t.tasks == s.tasks && t.taken == s.taken
    else if s.workers[i].Ready? && s.tasks != [] then
      && t.workers == s.workers[i := Running(s.tasks[0])] && t.finished == s.finished
      && t.tasks == s.tasks[1..] && t.taken == s.taken + [s.tasks[0]]
    else
      && |t.workers| == |s.workers| && !t.workers[i].Running? && t.workers == s.workers[i := t.workers[i]]
      && t.finished == s.finished && t.tasks == s.tasks && t.taken == s.taken
  }

  lemma WorkerHasEffect(s: State, i: nat, t: State)
    requires i < |s.workers| && StepWorker(s, i) == Some(t)
    ensures WorkerEffect(s, i, t)
  {
  }

  lemma HistoryWorker(s: State, i: nat, t: State)
    requires HistoryInv(s) && i < |s.workers| && WorkerEffect(s, i, t)
    ensures HistoryInv(t)
  {
    var w := s.workers[i];
    if w.Running? {
      RunningRemove(s.workers, i);
      HistoryFinish(s.accepted, s.taken, s.tasks, s.finished, RunningTasks(t.workers), w.task);
    } else if w.Ready? && s.tasks != [] {
      RunningAdd(s.workers, i, Running(s.tasks[0]));
      HistoryPop(s.accepted, s.taken, s.tasks, s.finished, RunningTasks(s.workers));
    } else {
      RunningSame(s.workers, i, t.workers[i]);
    }
  }

  lemma WakeKeepsRunning(ws: seq<Worker>, w: nat, after: seq<Worker>)
    requires WakeEffect(ws, w, after)
    ensures RunningTasks(after) == RunningTasks(ws)
  {
    RunningWakeAll(ws);
    if w < |ws| && ws[w].Asleep? {
      RunningSame(ws, w, Woken);
    }
  }

  lemma CallerHistory(s: State, c: nat, w: nat, t: State)
    requires c < |s.callers| && StepCaller(s, c, w) == Some(t)
    ensures t.taken == s.taken && t.finished == s.finished
    ensures if s.callers[c].EnqueueChecked? then t.accepted == s.accepted + [c] && t.tasks == s.tasks + [c]
            else t.accepted == s.accepted && t.tasks == s.tasks
  {
  }

  lemma HistoryCaller(s: State, c: nat, w: nat, t: State)
    requires HistoryInv(s) && c < |s.callers| && StepCaller(s, c, w) == Some(t)
    ensures HistoryInv(t)
  {
    CallerHistory(s, c, w, t);
    CallerWakes(s, c, w, t);
    WakeKeepsRunning(s.workers, w, t.workers);
    HistoryPush(s.accepted, s.taken, s.tasks, s.finished, RunningTasks(s.workers), c);
  }

  lemma HistoryKept(s: State, a: Action, t: State)
    requires HistoryInv(s) && Next(s, a) == Some(t)
    ensures HistoryInv(t)
  {
    match a
    case Call(_) =>
    case WorkerStep(i) =>
      WorkerHasEffect(s, i, t);
      HistoryWorker(s, i, t);
    case CallerStep(c, w) => HistoryCaller(s, c, w, t);
    case Spurious(i) => RunningSame(s.workers, i, Woken);
  }
}

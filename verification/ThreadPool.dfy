/**
 * The draining thread pool as an interleaving of atomic steps: worker threads, and any number of
 * concurrent calls to `enqueue`, `shutdown`, `waitForCompletion` and the destructor.
 */
module ThreadPool {
  import opened Common

  /** Where a worker thread stands in its loop. */
  datatype Worker =
    | Idle                // about to lock, at the head of the loop
    | Woken               // notified or spuriously woken inside `wait`, about to lock again
    | Locked              // holds the lock, about to load `stop` in the wait predicate
    | SawRunning          // holds the lock, loaded `stop` as false, about to test the queue
    | Asleep              // waiting on the condition, lock released
    | Ready               // holds the lock, predicate true
    | Running(task: nat)  // executing a task, lock released
    | Returned

  /** Where a call on the pool stands. */
  datatype Caller =
    | EnqueueStart | EnqueueLocked | EnqueueChecked | EnqueuePushed | EnqueueDone | EnqueueThrown
    | ShutdownStart | ShutdownStored | ShutdownDone
    | WaitStart | WaitLocked | WaitDone
    | DestroyStart | DestroyLocked | DestroyUnlocked | DestroyJoining | DestroyDone

  datatype Holder = Free | ByWorker(w: nat) | ByCaller(c: nat)

  /** The pool's fields, the threads, and what was pushed, popped and finished. A task is named by its call. */
  datatype State = State(
    workers: seq<Worker>,
    callers: seq<Caller>,
    tasks: seq<nat>,
    stop: bool,
    lock: Holder,
    accepted: seq<nat>,
    taken: seq<nat>,
    finished: seq<nat>)

  datatype Action =
    | Call(start: Caller)                   // a new call begins
    | WorkerStep(worker: nat)
    | CallerStep(caller: nat, sleeper: nat) // `notify_one` wakes `sleeper`
    | Spurious(worker: nat)                 // a wait returns without notification

  predicate IsStart(c: Caller) {
    c.EnqueueStart? || c.ShutdownStart? || c.WaitStart? || c.DestroyStart?
  }

  function Initial(size: nat): State {
    State(seq(size, _ => Idle), [], [], false, Free, [], [], [])
  }

  function WakeAll(ws: seq<Worker>): (r: seq<Worker>)
    ensures |r| == |ws|
    ensures forall i :: 0 <= i < |ws| ==> r[i] == if ws[i].Asleep? then Woken else ws[i]
  {
    if ws == [] then [] else [if ws[0].Asleep? then Woken else ws[0]] + WakeAll(ws[1..])
  }

  /** One atomic step of worker `i`; `None` when it is blocked, or would pop from an empty queue. */
  function StepWorker(s: State, i: nat): Option<State>
    requires i < |s.workers|
  {
    match s.workers[i]
    case Idle =>
      if s.lock.Free? then Some(s.(workers := s.workers[i := Locked], lock := ByWorker(i))) else None
    case Woken =>
      if s.lock.Free? then Some(s.(workers := s.workers[i := Locked], lock := ByWorker(i))) else None
    case Locked =>
      Some(s.(workers := s.workers[i := if s.stop then Ready else SawRunning]))
    case SawRunning =>
      if s.tasks == [] then Some(s.(workers := s.workers[i := Asleep], lock := Free))
      else Some(s.(workers := s.workers[i := Ready]))
    case Asleep => None
    case Ready =>
      if s.stop && s.tasks == [] then Some(s.(workers := s.workers[i := Returned], lock := Free))
      else if s.tasks == [] then None
      else Some(s.(workers := s.workers[i := Running(s.tasks[0])], lock := Free,
                   tasks := s.tasks[1..], taken := s.taken + [s.tasks[0]]))
    case Running(t) =>
      Some(s.(workers := s.workers[i := Idle], finished := s.finished + [t]))
    case Returned => None
  }

  predicate AnyAsleep(ws: seq<Worker>) {
    exists i :: 0 <= i < |ws| && ws[i].Asleep?
  }

  /** One atomic step of call `c`. */
  function StepCaller(s: State, c: nat, sleeper: nat): Option<State>
    requires c < |s.callers|
  {
    match s.callers[c]
    case EnqueueStart =>
      if s.lock.Free? then Some(s.(callers := s.callers[c := EnqueueLocked], lock := ByCaller(c))) else None
    case EnqueueLocked =>
      if s.stop then Some(s.(callers := s.callers[c := EnqueueThrown], lock := Free))
      else Some(s.(callers := s.callers[c := EnqueueChecked]))
    case EnqueueChecked =>
      Some(s.(callers := s.callers[c := EnqueuePushed], lock := Free,
              tasks := s.tasks + [c], accepted := s.accepted + [c]))
    case EnqueuePushed =>
      if !AnyAsleep(s.workers) then Some(s.(callers := s.callers[c := EnqueueDone]))
      else if sleeper < |s.workers| && s.workers[sleeper].Asleep? then
        Some(s.(callers := s.callers[c := EnqueueDone], workers := s.workers[sleeper := Woken]))
      else None
    case ShutdownStart =>
      Some(s.(callers := s.callers[c := ShutdownStored], stop := true))
    case ShutdownStored =>
      Some(s.(callers := s.callers[c := ShutdownDone], workers := WakeAll(s.workers)))
    case WaitStart =>
      if s.lock.Free? then Some(s.(callers := s.callers[c := WaitLocked], lock := ByCaller(c))) else None
    case WaitLocked =>
      Some(s.(callers := s.callers[c := if s.tasks == [] then WaitDone else WaitStart], lock := Free))
    case DestroyStart =>
      if s.lock.Free? then Some(s.(callers := s.callers[c := DestroyLocked], lock := ByCaller(c))) else None
    case DestroyLocked =>
      Some(s.(callers := s.callers[c := DestroyUnlocked], lock := Free, stop := true))
    case DestroyUnlocked =>
      Some(s.(callers := s.callers[c := DestroyJoining], workers := WakeAll(s.workers)))
    case DestroyJoining =>
      if AllReturned(s) then Some(s.(callers := s.callers[c := DestroyDone])) else None
    case _ => None
  }

  predicate AllReturned(s: State) {
    forall i :: 0 <= i < |s.workers| ==> s.workers[i].Returned?
  }

  function Next(s: State, a: Action): Option<State> {
    match a
    case Call(c) => if IsStart(c) then Some(s.(callers := s.callers + [c])) else None
    case WorkerStep(i) => if i < |s.workers| then StepWorker(s, i) else None
    case CallerStep(c, w) => if c < |s.callers| then StepCaller(s, c, w) else None
    case Spurious(i) =>
      if i < |s.workers| && s.workers[i].Asleep? then Some(s.(workers := s.workers[i := Woken])) else None
  }

  /** The state after a whole schedule, if every step of it was possible. */
  function Exec(s: State, schedule: seq<Action>): Option<State>
    decreases |schedule|
  {
    if schedule == [] then Some(s)
    else
      match Next(s, schedule[0])
      case None => None
      case Some(s') => Exec(s', schedule[1..])
  }

  lemma {:induction false} ExecAppend(s: State, a: seq<Action>, b: seq<Action>)
    requires Exec(s, a).Some?
    ensures Exec(s, a + b) == Exec(Exec(s, a).value, b)
    decreases |a|
  {
    if a == [] {
      assert a + b == b;
    } else {
      assert (a + b)[1..] == a[1..] + b;
      ExecAppend(Next(s, a[0]).value, a[1..], b);
    }
  }

  ghost predicate Reachable(size: nat, s: State) {
    exists schedule :: Exec(Initial(size), schedule) == Some(s)
  }

  // ---------- sums over threads ----------

  function Total<T>(f: T -> nat, s: seq<T>): nat {
    if s == [] then 0 else f(s[0]) + Total(f, s[1..])
  }

  lemma TotalUpdate<T>(f: T -> nat, s: seq<T>, i: nat, x: T)
    requires i < |s|
    ensures Total(f, s[i := x]) == Total(f, s) - f(s[i]) + f(x)
  {
    if i == 0 {
      assert s[i := x][1..] == s[1..];
    } else {
      assert s[i := x][1..] == s[1..][i - 1 := x];
      TotalUpdate(f, s[1..], i - 1, x);
    }
  }

  lemma TotalExtend<T>(f: T -> nat, s: seq<T>, x: T)
    ensures Total(f, s + [x]) == Total(f, s) + f(x)
  {
    if s == [] {
      assert s + [x] == [x] && [x][1..] == [];
    } else {
      assert (s + [x])[1..] == s[1..] + [x];
      TotalExtend(f, s[1..], x);
    }
  }

  // ---------- the class ----------

  /** The pool object with its threads; every method is one atomic step in place. */
  class Pool {
    var workers: seq<Worker>
    var callers: seq<Caller>
    var tasks: seq<nat>
    var stop: bool
    var lock: Holder
    ghost var accepted: seq<nat>
    ghost var taken: seq<nat>
    ghost var finished: seq<nat>

    ghost function View(): State
      reads this
    {
      State(workers, callers, tasks, stop, lock, accepted, taken, finished)
    }

    constructor (size: nat)
      ensures View() == Initial(size)
    {
      workers, callers, tasks, stop, lock := seq(size, _ => Idle), [], [], false, Free;
      accepted, taken, finished := [], [], [];
    }

    method Begin(start: Caller)
      requires IsStart(start)
      modifies this
      ensures Next(old(View()), Call(start)) == Some(View())
    {
      callers := callers + [start];
    }

    /** Worker `i` tries to lock `tasksMutex`. */
    method Acquire(i: nat) returns (locked: bool)
      requires i < |workers|
      modifies this
      ensures locked == old(lock.Free?)
      ensures View() ==
        if locked then old(View()).(workers := old(workers)[i := Locked], lock := ByWorker(i)) else old(View())
    {
      locked := lock.Free?;
      if locked {
        workers, lock := workers[i := Locked], ByWorker(i);
      }
    }

    /** One step of the worker loop; false when it is blocked. */
    method StepOfWorker(i: nat) returns (moved: bool)
      requires i < |workers|
      requires workers[i].Ready? && tasks == [] ==> stop
      modifies this
      ensures moved ==> StepWorker(old(View()), i) == Some(View())
      ensures !moved ==> StepWorker(old(View()), i) == None && View() == old(View())
    {
      moved := true;
      match workers[i] {
        case Locked =>
          workers := workers[i := if stop then Ready else SawRunning];
        case SawRunning =>
          if tasks == [] {
            workers, lock := workers[i := Asleep], Free;
          } else {
            workers := workers[i := Ready];
          }
        case Ready =>
          if stop && tasks == [] {
            workers, lock := workers[i := Returned], Free;
          } else {
            var task := tasks[0];
            tasks, taken := tasks[1..], taken + [task];
            workers, lock := workers[i := Running(task)], Free;
          }
        case Running(t) =>
          finished := finished + [t];
          workers := workers[i := Idle];
        case Idle =>
          moved := Acquire(i);
        case Woken =>
          moved := Acquire(i);
        case Asleep =>
          moved := false;
        case Returned =>
          moved := false;
      }
    }

    /** One step of `enqueue`, whose task is named by the call. */
    method StepOfEnqueue(c: nat, sleeper: nat) returns (moved: bool)
      requires c < |callers|
      requires callers[c].EnqueueStart? || callers[c].EnqueueLocked?
            || callers[c].EnqueueChecked? || callers[c].EnqueuePushed?
      requires callers[c].EnqueuePushed? && AnyAsleep(workers) ==> sleeper < |workers| && workers[sleeper].Asleep?
      modifies this
      ensures moved ==> StepCaller(old(View()), c, sleeper) == Some(View())
      ensures !moved ==> StepCaller(old(View()), c, sleeper) == None && View() == old(View())
    {
      moved := true;
      match callers[c] {
        case EnqueueStart =>
          moved := lock.Free?;
          if moved {
            callers, lock := callers[c := EnqueueLocked], ByCaller(c);
          }
        case EnqueueLocked =>
          if stop {
            callers, lock := callers[c := EnqueueThrown], Free;
          } else {
            callers := callers[c := EnqueueChecked];
          }
        case EnqueueChecked =>
          tasks, accepted := tasks + [c], accepted + [c];
          callers, lock := callers[c := EnqueuePushed], Free;
        case EnqueuePushed =>
          if AnyAsleep(workers) {
            workers := workers[sleeper := Woken];
          }
          callers := callers[c := EnqueueDone];
      }
    }

    /** One step of `shutdown`: the store needs no lock. */
    method StepOfShutdown(c: nat)
      requires c < |callers| && (callers[c].ShutdownStart? || callers[c].ShutdownStored?)
      modifies this
      ensures StepCaller(old(View()), c, 0) == Some(View())
    {
      if callers[c].ShutdownStart? {
        callers, stop := callers[c := ShutdownStored], true;
      } else {
        callers, workers := callers[c := ShutdownDone], WakeAll(workers);
      }
    }

    /** One step of `waitForCompletion`. */
    method StepOfWait(c: nat) returns (moved: bool)
      requires c < |callers| && (callers[c].WaitStart? || callers[c].WaitLocked?)
      modifies this
      ensures moved ==> StepCaller(old(View()), c, 0) == Some(View())
      ensures !moved ==> StepCaller(old(View()), c, 0) == None && View() == old(View())
    {
      moved := callers[c].WaitLocked? || lock.Free?;
      if callers[c].WaitLocked? {
        callers, lock := callers[c := if tasks == [] then WaitDone else WaitStart], Free;
      } else if moved {
        callers, lock := callers[c := WaitLocked], ByCaller(c);
      }
    }

    /** One step of the destructor. */
    method StepOfDestructor(c: nat) returns (moved: bool)
      requires c < |callers|
      requires callers[c].DestroyStart? || callers[c].DestroyLocked?
            || callers[c].DestroyUnlocked? || callers[c].DestroyJoining?
      modifies this
      ensures moved ==> StepCaller(old(View()), c, 0) == Some(View())
      ensures !moved ==> StepCaller(old(View()), c, 0) == None && View() == old(View())
    {
      moved := true;
      match callers[c] {
        case DestroyStart =>
          moved := lock.Free?;
          if moved {
            callers, lock := callers[c := DestroyLocked], ByCaller(c);
          }
        case DestroyLocked =>
          callers, lock, stop := callers[c := DestroyUnlocked], Free, true;
        case DestroyUnlocked =>
          callers, workers := callers[c := DestroyJoining], WakeAll(workers);
        case DestroyJoining =>
          moved := forall i :: 0 <= i < |workers| ==> workers[i].Returned?;
          if moved {
            callers := callers[c := DestroyDone];
          }
      }
    }

    /** One step of whatever call `c` is. */
    method StepOfCall(c: nat, sleeper: nat)
      requires c < |callers| && StepCaller(View(), c, sleeper).Some?
      modifies this
      ensures StepCaller(old(View()), c, sleeper) == Some(View())
    {
      var moved := true;
      match callers[c] {
        case EnqueueStart => moved := StepOfEnqueue(c, sleeper);
        case EnqueueLocked => moved := StepOfEnqueue(c, sleeper);
        case EnqueueChecked => moved := StepOfEnqueue(c, sleeper);
        case EnqueuePushed => moved := StepOfEnqueue(c, sleeper);
        case ShutdownStart => StepOfShutdown(c);
        case ShutdownStored => StepOfShutdown(c);
        case WaitStart => moved := StepOfWait(c);
        case WaitLocked => moved := StepOfWait(c);
        case DestroyStart => moved := StepOfDestructor(c);
        case DestroyLocked => moved := StepOfDestructor(c);
        case DestroyUnlocked => moved := StepOfDestructor(c);
        case DestroyJoining => moved := StepOfDestructor(c);
      }
    }

    method Perform(a: Action)
      requires Next(View(), a).Some?
      modifies this
      ensures Next(old(View()), a) == Some(View())
    {
      match a {
        case Call(start) =>
          Begin(start);
        case WorkerStep(i) =>
          var moved := StepOfWorker(i);
        case CallerStep(c, sleeper) =>
          StepOfCall(c, sleeper);
        case Spurious(i) =>
          workers := workers[i := Woken];
      }
    }

    /** A whole interleaving, in place. */
    method Run(schedule: seq<Action>)
      requires Exec(View(), schedule).Some?
      modifies this
      ensures Exec(old(View()), schedule) == Some(View())
    {
      for n := 0 to |schedule|
        invariant Exec(View(), schedule[n..]) == Exec(old(View()), schedule)
      {
        assert schedule[n..][0] == schedule[n] && schedule[n..][1..] == schedule[n + 1..];
        Perform(schedule[n]);
      }
    }
  }
}

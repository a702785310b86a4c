/**
 The worker pool as a concurrent system: any number of workers, submitters and idle waiters, one
 mutex, three condition variables. Every step is one acquisition of the mutex (or a return to
 user code), so the interleavings of the threads are the sequences of steps.
 */
module PoolProtocol {
  import opened Counting
  import opened WorkerPools

  /** `Awake` wants the mutex; `Asleep` waits on `not_empty`; `Busy` runs its task unlocked. */
  datatype Worker = Awake | Asleep | Busy(task: Task) | Exited

  /** `Outside` is in user code; `Wanting` wants the mutex; `Sleeping` waits on `not_full`. */
  datatype Submitter = Outside | Wanting(task: Task) | Sleeping(task: Task)

  /** A client of `wait_idle`; `Dozing` waits on `is_idle`. */
  datatype Waiter = Away | Checking | Dozing

  /** Threads, pool, and five logs: tasks in the order in which submission was called for, was refused, was
      granted, in which they were started, and completed. */
  datatype System = System(
    pool: Pool,
    workers: seq<Worker>,
    submitters: seq<Submitter>,
    waiters: seq<Waiter>,
    submitted: seq<Task>,
    refused: seq<Task>,
    accepted: seq<Task>,
    started: seq<Task>,
    completed: seq<Task>)

  /** `wake` is the scheduler's choice of the thread that a signal wakes. */
  datatype Step =
    | WorkerSleeps(w: nat)
    | WorkerTakes(w: nat, wake: nat)
    | WorkerExits(w: nat)
    | WorkerCompletes(w: nat, wake: nat)
    | SubmitCalled(s: nat, task: Task)
    | SubmitSleeps(s: nat)
    | SubmitAccepted(s: nat, wake: nat)
    | SubmitRefused(s: nat)
    | WaitCalled(k: nat)
    | WaitSleeps(k: nat)
    | WaitReturns(k: nat)
    | Destroyed
    | SpuriousWorker(w: nat)
    | SpuriousSubmitter(s: nat)
    | SpuriousWaiter(k: nat)

  predicate IsAwake(w: Worker) { w.Awake? }
  predicate IsAsleep(w: Worker) { w.Asleep? }
  predicate IsBusy(w: Worker) { w.Busy? }
  predicate IsLive(w: Worker) { !w.Exited? }
  predicate IsWanting(s: Submitter) { s.Wanting? }
  predicate IsSleeping(s: Submitter) { s.Sleeping? }
  predicate IsDozing(k: Waiter) { k.Dozing? }

  // ---------- signals ----------

  /** A signal must wake a sleeper when there is one. */
  ghost predicate Chosen<T(!new)>(threads: seq<T>, asleep: T -> bool, k: nat) {
    (exists i :: 0 <= i < |threads| && asleep(threads[i])) ==> k < |threads| && asleep(threads[k])
  }

  function SignalWorker(ws: seq<Worker>, k: nat): (r: seq<Worker>)
    ensures |r| == |ws|
  {
    if k < |ws| && ws[k].Asleep? then ws[k := Awake] else ws
  }

  function SignalSubmitter(ss: seq<Submitter>, k: nat): (r: seq<Submitter>)
    ensures |r| == |ss|
  {
    if k < |ss| && ss[k].Sleeping? then ss[k := Wanting(ss[k].task)] else ss
  }

  function SignalWaiter(ks: seq<Waiter>, k: nat): (r: seq<Waiter>)
    ensures |r| == |ks|
  {
    if k < |ks| && ks[k].Dozing? then ks[k := Checking] else ks
  }

  function BroadcastWorkers(ws: seq<Worker>): (r: seq<Worker>)
    ensures |r| == |ws|
    ensures forall i :: 0 <= i < |ws| ==> r[i] == if ws[i].Asleep? then Awake else ws[i]
  {
    seq(|ws|, i requires 0 <= i < |ws| => if ws[i].Asleep? then Awake else ws[i])
  }

  // ---------- steps ----------

  ghost predicate Initial(s: System) {
    && s.pool.capacity > 0 && s.pool == Pool(s.pool.capacity, [], 0, false)
    && |s.workers| > 0
    && (forall i :: 0 <= i < |s.workers| ==> s.workers[i] == Awake)
    && (forall i :: 0 <= i < |s.submitters| ==> s.submitters[i] == Outside)
    && (forall i :: 0 <= i < |s.waiters| ==> s.waiters[i] == Away)
    && s.submitted == s.refused == s.accepted == s.started == s.completed == []
  }

  ghost predicate Enabled(s: System, step: Step) {
    match step
    case WorkerSleeps(w) => w < |s.workers| && s.workers[w].Awake? && Acquire(s.pool).0.Sleeps?
    case WorkerTakes(w, wake) =>
      w < |s.workers| && s.workers[w].Awake? && Acquire(s.pool).0.Takes? && Chosen(s.submitters, IsSleeping, wake)
    case WorkerExits(w) => w < |s.workers| && s.workers[w].Awake? && Acquire(s.pool).0.Exits?
    case WorkerCompletes(w, wake) =>
      w < |s.workers| && s.workers[w].Busy? && s.pool.active > 0 && Chosen(s.waiters, IsDozing, wake)
    case SubmitCalled(c, task) => c < |s.submitters| && s.submitters[c].Outside? && task.fn != 0
    case SubmitSleeps(c) =>
      c < |s.submitters| && s.submitters[c].Wanting? && Submit(s.pool, s.submitters[c].task).0.Blocks?
    case SubmitAccepted(c, wake) =>
      && c < |s.submitters| && s.submitters[c].Wanting? && Submit(s.pool, s.submitters[c].task).0.Accepted?
      && Chosen(s.workers, IsAsleep, wake)
    case SubmitRefused(c) =>
      c < |s.submitters| && s.submitters[c].Wanting? && Submit(s.pool, s.submitters[c].task).0.Refused?
    case WaitCalled(k) => k < |s.waiters| && s.waiters[k].Away?
    case WaitSleeps(k) => k < |s.waiters| && s.waiters[k].Checking? && !Idle(s.pool)
    case WaitReturns(k) => k < |s.waiters| && s.waiters[k].Checking? && Idle(s.pool)
    case Destroyed => !s.pool.shutdown
    case SpuriousWorker(w) => w < |s.workers| && s.workers[w].Asleep?
    case SpuriousSubmitter(c) => c < |s.submitters| && s.submitters[c].Sleeping?
    case SpuriousWaiter(k) => k < |s.waiters| && s.waiters[k].Dozing?
  }

  ghost function Apply(s: System, step: Step): System
    requires Enabled(s, step)
  {
    match step
    case WorkerSleeps(w) => s.(workers := s.workers[w := Asleep])
    case WorkerTakes(w, wake) =>
      var (what, pool) := Acquire(s.pool);
      s.(pool := pool, workers := s.workers[w := Busy(what.task)],
         submitters := SignalSubmitter(s.submitters, wake), started := s.started + [what.task])
    case WorkerExits(w) => s.(workers := s.workers[w := Exited])
    case WorkerCompletes(w, wake) =>
      var (signal, pool) := Complete(s.pool);
      s.(pool := pool, workers := s.workers[w := Awake],
         waiters := if signal then SignalWaiter(s.waiters, wake) else s.waiters,
         completed := s.completed + [s.workers[w].task])
    case SubmitCalled(c, task) =>
      s.(submitters := s.submitters[c := Wanting(task)], submitted := s.submitted + [task])
    case SubmitSleeps(c) => s.(submitters := s.submitters[c := Sleeping(s.submitters[c].task)])
    case SubmitAccepted(c, wake) =>
      var task := s.submitters[c].task;
      s.(pool := Submit(s.pool, task).1, submitters := s.submitters[c := Outside],
         workers := SignalWorker(s.workers, wake), accepted := s.accepted + [task])
    case SubmitRefused(c) =>
      s.(submitters := s.submitters[c := Outside], refused := s.refused + [s.submitters[c].task])
    case WaitCalled(k) => s.(waiters := s.waiters[k := Checking])
    case WaitSleeps(k) => s.(waiters := s.waiters[k := Dozing])
    case WaitReturns(k) => s.(waiters := s.waiters[k := Away])
    case Destroyed => s.(pool := s.pool.(shutdown := true), workers := BroadcastWorkers(s.workers))
    case SpuriousWorker(w) => s.(workers := SignalWorker(s.workers, w))
    case SpuriousSubmitter(c) => s.(submitters := SignalSubmitter(s.submitters, c))
    case SpuriousWaiter(k) => s.(waiters := SignalWaiter(s.waiters, k))
  }

  ghost predicate Legal(s: System, run: seq<Step>)
    decreases |run|
  {
    run == [] || (Enabled(s, run[0]) && Legal(Apply(s, run[0]), run[1..]))
  }

  ghost function After(s: System, run: seq<Step>): System
    requires Legal(s, run)
    decreases |run|
  {
    if run == [] then s else After(Apply(s, run[0]), run[1..])
  }

  // ---------- the invariant ----------

  ghost function InHand(w: Worker): multiset<Task> {
    if w.Busy? then multiset{w.task} else multiset{}
  }

  ghost function TasksInHand(ws: seq<Worker>): multiset<Task> {
    if ws == [] then multiset{} else InHand(ws[0]) + TasksInHand(ws[1..])
  }

  /** No task is lost, invented, duplicated or reordered. */
  ghost predicate Bookkeeping(s: System) {
    && s.pool.capacity > 0 && |s.pool.pending| <= s.pool.capacity
    && s.started + s.pool.pending == s.accepted
    && s.pool.active == Count(s.workers, IsBusy)
    && multiset(s.started) == multiset(s.completed) + TasksInHand(s.workers)
  }

  /** A sleeping worker means enough awake workers for the queue; likewise for submitters and space. */
  ghost predicate NoLostWakeup(s: System) {
    && (Count(s.workers, IsAsleep) > 0 ==> Count(s.workers, IsAwake) >= |s.pool.pending|)
    && (Count(s.submitters, IsSleeping) > 0 ==>
          Count(s.submitters, IsWanting) >= s.pool.capacity - |s.pool.pending|)
  }

  /** Workers only leave when there is nothing to do and nothing will come. */
  ghost predicate Shutdown(s: System) {
    && (s.pool.shutdown ==> Count(s.workers, IsAsleep) == 0)
    && ((exists w :: 0 <= w < |s.workers| && s.workers[w].Exited?) ==> s.pool.shutdown && s.pool.pending == [])
  }

  ghost predicate NoIdleSleeper(s: System) {
    Idle(s.pool) ==> Count(s.waiters, IsDozing) == 0
  }

  ghost predicate Inv(s: System) {
    && |s.workers| > 0
    && Bookkeeping(s)
    && (!s.pool.shutdown ==> NoLostWakeup(s))
    && Shutdown(s)
    && (|s.waiters| <= 1 ==> NoIdleSleeper(s))
  }

  lemma {:induction false} Exchange<T>(e: multiset<T>, a: multiset<T>, b: multiset<T>, c: multiset<T>, d: multiset<T>)
    requires a + b == c + d
    ensures (e + a) + b == (e + c) + d
  {
    assert (e + a) + b == e + (a + b);
    assert (e + c) + d == e + (c + d);
  }

  lemma {:induction false} InHandCons(ws: seq<Worker>)
    requires ws != []
    ensures TasksInHand(ws) == InHand(ws[0]) + TasksInHand(ws[1..])
  {
  }

  lemma {:induction false} InHandUpdate(ws: seq<Worker>, w: nat, x: Worker)
    requires w < |ws|
    ensures TasksInHand(ws[w := x]) + InHand(ws[w]) == TasksInHand(ws) + InHand(x)
  {
    hide TasksInHand, InHand;
    InHandCons(ws);
    InHandCons(ws[w := x]);
    if w == 0 {
      assert ws[w := x][1..] == ws[1..];
    } else {
      assert ws[w := x][1..] == ws[1..][w - 1 := x];
      InHandUpdate(ws[1..], w - 1, x);
      Exchange(InHand(ws[0]), TasksInHand(ws[1..][w - 1 := x]), InHand(ws[w]), TasksInHand(ws[1..]), InHand(x));
    }
  }

  /** All the counts of the workers after one of them changes phase. */
  lemma {:induction false} WorkerChange(ws: seq<Worker>, w: nat, x: Worker)
    requires w < |ws|
    ensures Count(ws[w := x], IsAwake) + (if ws[w].Awake? then 1 else 0)
        == Count(ws, IsAwake) + (if x.Awake? then 1 else 0)
    ensures Count(ws[w := x], IsAsleep) + (if ws[w].Asleep? then 1 else 0)
        == Count(ws, IsAsleep) + (if x.Asleep? then 1 else 0)
    ensures Count(ws[w := x], IsBusy) + (if ws[w].Busy? then 1 else 0) == Count(ws, IsBusy) + (if x.Busy? then 1 else 0)
    ensures Count(ws[w := x], IsLive) + (if ws[w].Exited? then 0 else 1)
        == Count(ws, IsLive) + (if x.Exited? then 0 else 1)
    ensures TasksInHand(ws[w := x]) + InHand(ws[w]) == TasksInHand(ws) + InHand(x)
    ensures !ws[w].Busy? && !x.Busy? ==> TasksInHand(ws[w := x]) == TasksInHand(ws)
  {
    CountUpdate(ws, w, x, IsAwake);
    CountUpdate(ws, w, x, IsAsleep);
    CountUpdate(ws, w, x, IsBusy);
    CountUpdate(ws, w, x, IsLive);
    InHandUpdate(ws, w, x);
    if !ws[w].Busy? && !x.Busy? {
      var before, after, none := TasksInHand(ws), TasksInHand(ws[w := x]), multiset{};
      assert after + none == after && before + none == before;
    }
  }

  lemma {:induction false} SubmitterChange(ss: seq<Submitter>, c: nat, x: Submitter)
    requires c < |ss|
    ensures Count(ss[c := x], IsWanting) + (if ss[c].Wanting? then 1 else 0)
        == Count(ss, IsWanting) + (if x.Wanting? then 1 else 0)
    ensures Count(ss[c := x], IsSleeping) + (if ss[c].Sleeping? then 1 else 0)
        == Count(ss, IsSleeping) + (if x.Sleeping? then 1 else 0)
  {
    CountUpdate(ss, c, x, IsWanting);
    CountUpdate(ss, c, x, IsSleeping);
  }

  /** A signal to the workers turns one sleeper, if any, into an awake worker. */
  lemma {:induction false} WorkerSignalled(ws: seq<Worker>, k: nat)
    ensures var r := SignalWorker(ws, k);
      && Count(r, IsBusy) == Count(ws, IsBusy) && Count(r, IsLive) == Count(ws, IsLive)
      && TasksInHand(r) == TasksInHand(ws)
      && Count(r, IsAwake) + Count(r, IsAsleep) == Count(ws, IsAwake) + Count(ws, IsAsleep)
      && Count(r, IsAwake) >= Count(ws, IsAwake)
      && (Chosen(ws, IsAsleep, k) && Count(ws, IsAsleep) > 0 ==> Count(r, IsAwake) == Count(ws, IsAwake) + 1)
  {
    CountPositive(ws, IsAsleep);
    if k < |ws| && ws[k].Asleep? {
      WorkerChange(ws, k, Awake);
    }
  }

  lemma {:induction false} SubmitterSignalled(ss: seq<Submitter>, k: nat)
    ensures var r := SignalSubmitter(ss, k);
      && Count(r, IsWanting) + Count(r, IsSleeping) == Count(ss, IsWanting) + Count(ss, IsSleeping)
      && Count(r, IsWanting) >= Count(ss, IsWanting)
      && (Chosen(ss, IsSleeping, k) && Count(ss, IsSleeping) > 0 ==> Count(r, IsWanting) == Count(ss, IsWanting) + 1)
      && Count(r, IsWanting) <= Count(ss, IsWanting) + 1
  {
    CountPositive(ss, IsSleeping);
    if k < |ss| && ss[k].Sleeping? {
      SubmitterChange(ss, k, Wanting(ss[k].task));
    }
  }

  lemma {:induction false} BroadcastCounts(ws: seq<Worker>)
    ensures var r := BroadcastWorkers(ws);
      && Count(r, IsAsleep) == 0 && Count(r, IsBusy) == Count(ws, IsBusy)
      && Count(r, IsLive) == Count(ws, IsLive) && TasksInHand(r) == TasksInHand(ws)
  {
    if ws != [] {
      assert BroadcastWorkers(ws)[1..] == BroadcastWorkers(ws[1..]);
      BroadcastCounts(ws[1..]);
    }
  }

  // ---------- every step keeps the invariant ----------

  lemma {:induction false} BooksOnTake(started: seq<Task>, completed: seq<Task>, ws: seq<Worker>, w: nat, task: Task)
    requires w < |ws| && !ws[w].Busy?
    requires multiset(started) == multiset(completed) + TasksInHand(ws)
    ensures multiset(started + [task]) == multiset(completed) + TasksInHand(ws[w := Busy(task)])
  {
    InHandUpdate(ws, w, Busy(task));
    assert TasksInHand(ws[w := Busy(task)]) + multiset{} == TasksInHand(ws[w := Busy(task)]);
  }

  lemma {:induction false} BooksOnComplete(started: seq<Task>, completed: seq<Task>, ws: seq<Worker>, w: nat)
    requires w < |ws| && ws[w].Busy?
    requires multiset(started) == multiset(completed) + TasksInHand(ws)
    ensures multiset(started) == multiset(completed + [ws[w].task]) + TasksInHand(ws[w := Awake])
  {
    InHandUpdate(ws, w, Awake);
    assert TasksInHand(ws) + multiset{} == TasksInHand(ws);
  }

  lemma {:induction false} TakeKeepsBooks(s: System, w: nat, wake: nat)
    requires Inv(s) && Enabled(s, WorkerTakes(w, wake))
    ensures Bookkeeping(Apply(s, WorkerTakes(w, wake)))
  {
    var task := s.pool.pending[0];
    BooksOnTake(s.started, s.completed, s.workers, w, task);
    CountUpdate(s.workers, w, Busy(task), IsBusy);
    assert s.pool.pending == [task] + s.pool.pending[1..];
    assert s.started + ([task] + s.pool.pending[1..]) == (s.started + [task]) + s.pool.pending[1..];
  }

  lemma {:induction false} TakeKeepsInv(s: System, w: nat, wake: nat)
    requires Inv(s) && Enabled(s, WorkerTakes(w, wake))
    ensures Inv(Apply(s, WorkerTakes(w, wake)))
  {
    TakeKeepsBooks(s, w, wake);
    var task := s.pool.pending[0];
    CountUpdate(s.workers, w, Busy(task), IsAwake);
    CountUpdate(s.workers, w, Busy(task), IsAsleep);
    SubmitterSignalled(s.submitters, wake);
    var t := Apply(s, WorkerTakes(w, wake));
    assert Shutdown(t);
    assert !t.pool.shutdown ==> NoLostWakeup(t);
  }

  lemma {:induction false} CompleteKeepsInv(s: System, w: nat, wake: nat)
    requires Inv(s) && Enabled(s, WorkerCompletes(w, wake))
    ensures Inv(Apply(s, WorkerCompletes(w, wake)))
  {
    hide Count, TasksInHand;
    BooksOnComplete(s.started, s.completed, s.workers, w);
    WorkerChange(s.workers, w, Awake);
    WaiterSignalled(s.waiters, wake);
  }

  lemma {:induction false} WorkerStepKeepsInv(s: System, step: Step)
    requires Inv(s) && Enabled(s, step)
    requires step.WorkerSleeps? || step.WorkerExits? || step.SpuriousWorker?
    ensures Inv(Apply(s, step))
  {
    hide Count, TasksInHand;
    var t := Apply(s, step);
    match step {
      case WorkerSleeps(w) =>
        WorkerChange(s.workers, w, Asleep);
      case WorkerExits(w) =>
        WorkerChange(s.workers, w, Exited);
      case SpuriousWorker(w) =>
        WorkerSignalled(s.workers, w);
    }
  }

  /** Waking one dozer of at most one leaves none. */
  lemma {:induction false} WaiterSignalled(ks: seq<Waiter>, k: nat)
    ensures |ks| <= 1 && Chosen(ks, IsDozing, k) ==> Count(SignalWaiter(ks, k), IsDozing) == 0
    ensures Count(SignalWaiter(ks, k), IsDozing) <= Count(ks, IsDozing)
  {
    CountPositive(ks, IsDozing);
    CountPositive(SignalWaiter(ks, k), IsDozing);
    if k < |ks| && ks[k].Dozing? {
      CountUpdate(ks, k, Checking, IsDozing);
    }
  }

  predicate SubmitterMove(step: Step) {
    || step.SubmitCalled? || step.SubmitSleeps? || step.SubmitAccepted? || step.SubmitRefused?
    || step.SpuriousSubmitter?
  }

  lemma {:induction false} SubmitStepKeepsInv(s: System, step: Step)
    requires Inv(s) && Enabled(s, step)
    requires SubmitterMove(step)
    ensures Inv(Apply(s, step))
  {
    hide Count, TasksInHand;
    var t := Apply(s, step);
    match step {
      case SubmitCalled(c, _) =>
        SubmitterChange(s.submitters, c, t.submitters[c]);
      case SubmitSleeps(c) =>
        SubmitterChange(s.submitters, c, t.submitters[c]);
      case SubmitAccepted(c, wake) =>
        SubmitterChange(s.submitters, c, Outside);
        WorkerSignalled(s.workers, wake);
        assert s.started + t.pool.pending == t.accepted;
      case SubmitRefused(c) =>
        SubmitterChange(s.submitters, c, Outside);
      case SpuriousSubmitter(c) =>
        SubmitterSignalled(s.submitters, c);
    }
  }

  lemma {:induction false} OtherStepKeepsInv(s: System, step: Step)
    requires Inv(s) && Enabled(s, step)
    requires step.WaitCalled? || step.WaitSleeps? || step.WaitReturns? || step.Destroyed? || step.SpuriousWaiter?
    ensures Inv(Apply(s, step))
  {
    var t := Apply(s, step);
    match step {
      case WaitCalled(k) => CountUpdate(s.waiters, k, Checking, IsDozing);
      case WaitSleeps(k) =>
      case WaitReturns(k) => CountUpdate(s.waiters, k, Away, IsDozing);
      case Destroyed => BroadcastCounts(s.workers);
      case SpuriousWaiter(k) => WaiterSignalled(s.waiters, k);
    }
  }

  lemma {:induction false} StepKeepsInv(s: System, step: Step)
    requires Inv(s) && Enabled(s, step)
    ensures Inv(Apply(s, step))
  {
    if step.WaitCalled? || step.WaitSleeps? || step.WaitReturns? || step.Destroyed? || step.SpuriousWaiter? {
      OtherStepKeepsInv(s, step);
    } else if SubmitterMove(step) {
      SubmitStepKeepsInv(s, step);
    } else if step.WorkerTakes? {
      TakeKeepsInv(s, step.w, step.wake);
    } else if step.WorkerCompletes? {
      CompleteKeepsInv(s, step.w, step.wake);
    } else {
      WorkerStepKeepsInv(s, step);
    }
  }

  // ---------- theorems over all runs ----------

  lemma {:induction false} InitialInv(s: System)
    requires Initial(s)
    ensures Inv(s)
  {
    CountPositive(s.workers, IsAsleep);
    CountPositive(s.workers, IsBusy);
    CountPositive(s.submitters, IsSleeping);
    CountPositive(s.waiters, IsDozing);
    NothingInHand(s.workers);
  }

  lemma {:induction false} NothingInHand(ws: seq<Worker>)
    requires forall i :: 0 <= i < |ws| ==> !ws[i].Busy?
    ensures TasksInHand(ws) == multiset{}
  {
    if ws != [] {
      NothingInHand(ws[1..]);
    }
  }

  lemma {:induction false} InvAlong(s: System, run: seq<Step>)
    requires Inv(s) && Legal(s, run)
    ensures Inv(After(s, run))
    decreases |run|
  {
    if run != [] {
      StepKeepsInv(s, run[0]);
      InvAlong(Apply(s, run[0]), run[1..]);
    }
  }

  lemma {:induction false} InvOnRuns(init: System, run: seq<Step>)
    requires Initial(init) && Legal(init, run)
    ensures Inv(After(init, run))
  {
    InitialInv(init);
    InvAlong(init, run);
  }

  /** Exactly once, first in first out: on every run, what was started is a prefix of what was
      accepted, the rest is exactly the queue, and started tasks are finished or in one worker's hand. */
  lemma {:induction false} ExactlyOnceFifo(init: System, run: seq<Step>)
    requires Initial(init) && Legal(init, run)
    ensures var s := After(init, run);
      && s.accepted == s.started + s.pool.pending
      && multiset(s.accepted) == multiset(s.completed) + TasksInHand(s.workers) + multiset(s.pool.pending)
      && s.pool.active == Count(s.workers, IsBusy)
  {
    InvOnRuns(init, run);
    var s := After(init, run);
    assert multiset(s.started + s.pool.pending) == multiset(s.started) + multiset(s.pool.pending);
  }

  /** Before shutdown the workers are never all asleep with work queued, and the submitters are never
      all asleep with space free. */
  lemma {:induction false} NeverAllAsleep(init: System, run: seq<Step>)
    requires Initial(init) && Legal(init, run)
    requires !After(init, run).pool.shutdown
    ensures var s := After(init, run);
      && (s.pool.pending != [] ==> exists w :: 0 <= w < |s.workers| && (s.workers[w].Awake? || s.workers[w].Busy?))
      && ((|s.pool.pending| < s.pool.capacity && Count(s.submitters, IsSleeping) > 0) ==>
            exists c :: 0 <= c < |s.submitters| && s.submitters[c].Wanting?)
      && NoLostWakeup(s)
  {
    InvOnRuns(init, run);
    var s := After(init, run);
    CountPositive(s.workers, IsAsleep);
    CountPositive(s.workers, IsAwake);
    CountPositive(s.submitters, IsWanting);
    if s.pool.pending != [] && !s.workers[0].Awake? && !s.workers[0].Busy? {
      assert s.workers[0].Asleep?;
      assert Count(s.workers, IsAwake) > 0;
    }
  }

  /** `wait_idle` returns only when every task accepted so far has completed. */
  lemma {:induction false} IdleBarrier(init: System, run: seq<Step>, k: nat)
    requires Initial(init) && Legal(init, run)
    requires Enabled(After(init, run), WaitReturns(k))
    ensures multiset(After(init, run).completed) == multiset(After(init, run).accepted)
    ensures forall w :: 0 <= w < |After(init, run).workers| ==> !After(init, run).workers[w].Busy?
  {
    ExactlyOnceFifo(init, run);
    var s := After(init, run);
    CountPositive(s.workers, IsBusy);
    NothingInHand(s.workers);
  }

  // ---------- every submission is answered ----------

  ghost function OnOffer(c: Submitter): multiset<Task> {
    if c.Outside? then multiset{} else multiset{c.task}
  }

  ghost function TasksOnOffer(cs: seq<Submitter>): multiset<Task> {
    if cs == [] then multiset{} else OnOffer(cs[0]) + TasksOnOffer(cs[1..])
  }

  lemma {:induction false} OnOfferUpdate(cs: seq<Submitter>, c: nat, x: Submitter)
    requires c < |cs|
    ensures TasksOnOffer(cs[c := x]) + OnOffer(cs[c]) == TasksOnOffer(cs) + OnOffer(x)
  {
    hide TasksOnOffer, OnOffer;
    OnOfferCons(cs);
    OnOfferCons(cs[c := x]);
    if c == 0 {
      assert cs[c := x][1..] == cs[1..];
    } else {
      assert cs[c := x][1..] == cs[1..][c - 1 := x];
      OnOfferUpdate(cs[1..], c - 1, x);
      Exchange(OnOffer(cs[0]), TasksOnOffer(cs[1..][c - 1 := x]), OnOffer(cs[c]), TasksOnOffer(cs[1..]), OnOffer(x));
    }
  }

  lemma {:induction false} OnOfferCons(cs: seq<Submitter>)
    requires cs != []
    ensures TasksOnOffer(cs) == OnOffer(cs[0]) + TasksOnOffer(cs[1..])
  {
  }

  lemma {:induction false} NothingOnOffer(cs: seq<Submitter>)
    requires forall i :: 0 <= i < |cs| ==> cs[i].Outside?
    ensures TasksOnOffer(cs) == multiset{}
  {
    if cs != [] {
      NothingOnOffer(cs[1..]);
    }
  }

  /** Every task submitted was accepted, was refused, or is in its submitter's hands; and before shutdown none
      was refused. */
  ghost predicate Answered(s: System) {
    && multiset(s.submitted) == multiset(s.accepted) + TasksOnOffer(s.submitters) + multiset(s.refused)
    && (s.refused != [] ==> s.pool.shutdown)
  }

  /** The submitter `c` stays with its task, comes with one, or goes without. */
  lemma {:induction false} OfferChange(cs: seq<Submitter>, c: nat, x: Submitter)
    requires c < |cs|
    ensures !cs[c].Outside? && !x.Outside? && cs[c].task == x.task ==> TasksOnOffer(cs[c := x]) == TasksOnOffer(cs)
    ensures cs[c].Outside? && !x.Outside? ==> TasksOnOffer(cs[c := x]) == TasksOnOffer(cs) + multiset{x.task}
    ensures !cs[c].Outside? && x.Outside? ==> TasksOnOffer(cs[c := x]) + multiset{cs[c].task} == TasksOnOffer(cs)
  {
    hide TasksOnOffer;
    OnOfferUpdate(cs, c, x);
    var before, after, none := TasksOnOffer(cs), TasksOnOffer(cs[c := x]), multiset{};
    assert before + none == before && after + none == after;
    if !cs[c].Outside? && !x.Outside? && cs[c].task == x.task {
      Cancel(after, before, multiset{x.task});
    }
  }

  lemma {:induction false} Cancel<T>(a: multiset<T>, b: multiset<T>, c: multiset<T>)
    requires a + c == b + c
    ensures a == b
  {
    assert (a + c) - c == a && (b + c) - c == b;
  }

  lemma {:induction false} Regroup<T>(a: seq<T>, x: T, b: multiset<T>, c: multiset<T>)
    ensures multiset(a + [x]) + b + c == multiset(a) + (b + multiset{x}) + c
    ensures multiset(a) + b + (c + multiset{x}) == multiset(a) + (b + multiset{x}) + c
  {
  }

  lemma {:induction false} CallKeepsAnswered(s: System, c: nat, task: Task)
    requires Answered(s) && Enabled(s, SubmitCalled(c, task))
    ensures Answered(Apply(s, SubmitCalled(c, task)))
  {
    hide TasksOnOffer;
    OfferChange(s.submitters, c, Wanting(task));
  }

  lemma {:induction false} AcceptKeepsAnswered(s: System, c: nat, wake: nat)
    requires Answered(s) && Enabled(s, SubmitAccepted(c, wake))
    ensures Answered(Apply(s, SubmitAccepted(c, wake)))
  {
    hide TasksOnOffer, SignalWorker;
    OfferChange(s.submitters, c, Outside);
    Regroup(s.accepted, s.submitters[c].task, TasksOnOffer(s.submitters[c := Outside]), multiset(s.refused));
  }

  lemma {:induction false} RefuseKeepsAnswered(s: System, c: nat)
    requires Answered(s) && Enabled(s, SubmitRefused(c))
    ensures Answered(Apply(s, SubmitRefused(c)))
  {
    hide TasksOnOffer;
    OfferChange(s.submitters, c, Outside);
    Regroup(s.accepted, s.submitters[c].task, TasksOnOffer(s.submitters[c := Outside]), multiset(s.refused));
  }

  /** Any other step leaves the tasks on offer as they are. */
  lemma {:induction false} OtherStepKeepsAnswered(s: System, step: Step)
    requires Answered(s) && Enabled(s, step) && !step.SubmitCalled? && !step.SubmitAccepted? && !step.SubmitRefused?
    ensures Answered(Apply(s, step))
  {
    hide TasksOnOffer;
    if step.SubmitSleeps? {
      OfferChange(s.submitters, step.s, Sleeping(s.submitters[step.s].task));
    } else if step.SpuriousSubmitter? {
      OfferChange(s.submitters, step.s, Wanting(s.submitters[step.s].task));
    } else if step.WorkerTakes? && step.wake < |s.submitters| && s.submitters[step.wake].Sleeping? {
      OfferChange(s.submitters, step.wake, Wanting(s.submitters[step.wake].task));
    }
  }

  lemma {:induction false} StepKeepsAnswered(s: System, step: Step)
    requires Answered(s) && Enabled(s, step)
    ensures Answered(Apply(s, step))
  {
    hide Answered, Enabled, Apply;
    match step {
      case SubmitCalled(c, task) => CallKeepsAnswered(s, c, task);
      case SubmitAccepted(c, wake) => AcceptKeepsAnswered(s, c, wake);
      case SubmitRefused(c) => RefuseKeepsAnswered(s, c);
      case _ => OtherStepKeepsAnswered(s, step);
    }
  }

  lemma {:induction false} AnsweredAlong(s: System, run: seq<Step>)
    requires Answered(s) && Legal(s, run)
    ensures Answered(After(s, run))
    decreases |run|
  {
    hide Answered;
    if run != [] {
      StepKeepsAnswered(s, run[0]);
      AnsweredAlong(Apply(s, run[0]), run[1..]);
    }
  }

  /** On every run each task submitted was accepted, refused, or is still in its submitter's hands, none twice;
      none is refused before shutdown, and none that an open pool has room for is left sleeping. */
  lemma {:induction false} EverySubmissionAnswered(init: System, run: seq<Step>)
    requires Initial(init) && Legal(init, run)
    ensures var s := After(init, run);
      && multiset(s.submitted) == multiset(s.accepted) + TasksOnOffer(s.submitters) + multiset(s.refused)
      && (!s.pool.shutdown ==> s.refused == [])
  {
    NothingOnOffer(init.submitters);
    AnsweredAlong(init, run);
  }

  /** A worker that finishes signals the idle waiters exactly when no task is queued and no worker is busy then:
      no waiter is woken for nothing. */
  lemma {:induction false} CompletionChoices(s: System, w: nat, wake: nat)
    requires Inv(s) && Enabled(s, WorkerCompletes(w, wake))
    ensures var t := Apply(s, WorkerCompletes(w, wake));
      && (t.pool.pending == [] && (forall v :: 0 <= v < |t.workers| ==> !t.workers[v].Busy?) ==>
            t.waiters == SignalWaiter(s.waiters, wake))
      && (!(t.pool.pending == [] && forall v :: 0 <= v < |t.workers| ==> !t.workers[v].Busy?) ==>
            t.waiters == s.waiters)
      && t.completed == s.completed + [s.workers[w].task] && t.workers == s.workers[w := Awake]
  {
    var t := Apply(s, WorkerCompletes(w, wake));
    CompleteKeepsInv(s, w, wake);
    CountPositive(t.workers, IsBusy);
  }

  /** A submitter with the lock: refused exactly after shutdown, put to sleep exactly by an open pool whose queue
      is full, and otherwise its task is the queue's new last. */
  lemma {:induction false} SubmitterChoices(s: System, c: nat, wake: nat)
    requires c < |s.submitters| && s.submitters[c].Wanting? && Chosen(s.workers, IsAsleep, wake)
    ensures Enabled(s, SubmitRefused(c)) <==> s.pool.shutdown
    ensures Enabled(s, SubmitSleeps(c)) <==> !s.pool.shutdown && |s.pool.pending| == s.pool.capacity
    ensures Enabled(s, SubmitAccepted(c, wake)) <==> !s.pool.shutdown && |s.pool.pending| != s.pool.capacity
    ensures Enabled(s, SubmitAccepted(c, wake)) ==>
      Apply(s, SubmitAccepted(c, wake)).pool == s.pool.(pending := s.pool.pending + [s.submitters[c].task])
  {
  }

  /** A worker with the lock: asleep exactly in an open pool without work, gone exactly in a closed one without
      work, and otherwise it takes the queue's first. */
  lemma {:induction false} WorkerChoices(s: System, w: nat, wake: nat)
    requires w < |s.workers| && s.workers[w].Awake? && Chosen(s.submitters, IsSleeping, wake)
    ensures Enabled(s, WorkerSleeps(w)) <==> s.pool.pending == [] && !s.pool.shutdown
    ensures Enabled(s, WorkerExits(w)) <==> s.pool.pending == [] && s.pool.shutdown
    ensures Enabled(s, WorkerTakes(w, wake)) <==> s.pool.pending != []
    ensures Enabled(s, WorkerTakes(w, wake)) ==>
      Apply(s, WorkerTakes(w, wake)).workers[w] == Busy(s.pool.pending[0])
  {
  }

  // ---------- draining after shutdown ----------

  /** What is left to do: two moves for each queued task, one for each running task and live worker. */
  ghost function Remaining(s: System): nat {
    2 * |s.pool.pending| + Count(s.workers, IsBusy) + Count(s.workers, IsLive)
  }

  predicate WorkerMove(step: Step) {
    step.WorkerTakes? || step.WorkerExits? || step.WorkerCompletes?
  }

  /** After shutdown each worker move brings the drain one closer to its end and no other step
      takes it further away. */
  lemma {:induction false} DrainStep(s: System, step: Step)
    requires Inv(s) && s.pool.shutdown && Enabled(s, step)
    ensures Apply(s, step).pool.shutdown
    ensures Remaining(Apply(s, step)) == Remaining(s) - (if WorkerMove(step) then 1 else 0)
  {
    hide TasksInHand;
    var t := Apply(s, step);
    match step {
      case WorkerTakes(w, _) => WorkerChange(s.workers, w, t.workers[w]);
      case WorkerExits(w) => WorkerChange(s.workers, w, Exited);
      case WorkerCompletes(w, _) => WorkerChange(s.workers, w, Awake);
      case SpuriousWorker(w) => CountPositive(s.workers, IsAsleep);
      case _ =>
    }
  }

  ghost function WorkerMoves(run: seq<Step>): nat {
    if run == [] then 0 else (if WorkerMove(run[0]) then 1 else 0) + WorkerMoves(run[1..])
  }

  lemma {:induction false} DrainAlong(s: System, run: seq<Step>)
    requires Inv(s) && s.pool.shutdown && Legal(s, run)
    ensures After(s, run).pool.shutdown && Inv(After(s, run))
    ensures Remaining(After(s, run)) + WorkerMoves(run) == Remaining(s)
    decreases |run|
  {
    if run != [] {
      DrainStep(s, run[0]);
      StepKeepsInv(s, run[0]);
      DrainAlong(Apply(s, run[0]), run[1..]);
    }
  }

  /** While a worker is alive after shutdown, a worker move is possible. */
  lemma {:induction false} DrainProgress(s: System)
    requires Inv(s) && s.pool.shutdown && Count(s.workers, IsLive) > 0
    ensures exists step :: WorkerMove(step) && Enabled(s, step)
  {
    CountPositive(s.workers, IsLive);
    CountPositive(s.workers, IsAsleep);
    CountPositive(s.workers, IsBusy);
    var w :| 0 <= w < |s.workers| && IsLive(s.workers[w]);
    if s.workers[w].Busy? {
      var wake := if exists k :: 0 <= k < |s.waiters| && s.waiters[k].Dozing?
                  then (var k :| 0 <= k < |s.waiters| && s.waiters[k].Dozing?; k) else 0;
      assert Enabled(s, WorkerCompletes(w, wake)) && WorkerMove(WorkerCompletes(w, wake));
    } else if s.pool.pending == [] {
      assert Enabled(s, WorkerExits(w)) && WorkerMove(WorkerExits(w));
    } else {
      var wake := if exists c :: 0 <= c < |s.submitters| && s.submitters[c].Sleeping?
                  then (var c :| 0 <= c < |s.submitters| && s.submitters[c].Sleeping?; c) else 0;
      assert Enabled(s, WorkerTakes(w, wake)) && WorkerMove(WorkerTakes(w, wake));
    }
  }

  /** The drain: after a shutdown at any point of any run, the workers make at most `Remaining`
      further moves; as long as fewer were made some worker can move; and once they were all made,
      every worker has left and every accepted task has run exactly once, in the order accepted. */
  lemma {:induction false} ShutdownDrains(init: System, run: seq<Step>, drain: seq<Step>)
    requires Initial(init) && Legal(init, run) && After(init, run).pool.shutdown
    requires Legal(After(init, run), drain)
    ensures WorkerMoves(drain) <= Remaining(After(init, run))
    ensures var s := After(After(init, run), drain);
      && s.pool.shutdown
      && (Count(s.workers, IsLive) > 0 ==> exists step :: WorkerMove(step) && Enabled(s, step))
      && (WorkerMoves(drain) == Remaining(After(init, run)) ==> Count(s.workers, IsLive) == 0)
      && (Count(s.workers, IsLive) == 0 ==>
            s.started == s.accepted && multiset(s.completed) == multiset(s.accepted))
  {
    InvOnRuns(init, run);
    DrainAlong(After(init, run), drain);
    var s := After(After(init, run), drain);
    if Count(s.workers, IsLive) > 0 {
      DrainProgress(s);
    } else {
      CountPositive(s.workers, IsLive);
      assert s.workers[0].Exited?;
      NothingInHand(s.workers);
      assert s.started + s.pool.pending == s.started;
    }
  }

  // ---------- sleeping submitters at shutdown ----------

  /** Submitters that the remaining dequeues will not reach. */
  ghost function Stranded(s: System): nat {
    var sleeping := Count(s.submitters, IsSleeping);
    if sleeping > |s.pool.pending| then sleeping - |s.pool.pending| else 0
  }

  predicate NoSpuriousSubmitter(run: seq<Step>) {
    forall i :: 0 <= i < |run| ==> !run[i].SpuriousSubmitter?
  }

  lemma {:induction false} StrandedStep(s: System, step: Step)
    requires Inv(s) && s.pool.shutdown && Enabled(s, step)
    ensures Stranded(Apply(s, step)) <= Stranded(s)
    ensures !step.SpuriousSubmitter? ==> Stranded(Apply(s, step)) == Stranded(s)
  {
    var t := Apply(s, step);
    match step {
      case WorkerTakes(w, wake) => SubmitterSignalled(s.submitters, wake);
        if Count(s.submitters, IsSleeping) == 0 {
          CountPositive(s.submitters, IsSleeping);
          assert t.submitters == s.submitters;
        }
      case SubmitCalled(c, _) => SubmitterChange(s.submitters, c, t.submitters[c]);
      case SubmitRefused(c) => SubmitterChange(s.submitters, c, Outside);
      case SpuriousSubmitter(c) => SubmitterSignalled(s.submitters, c);
      case _ =>
    }
  }

  lemma {:induction false} StrandedAlong(s: System, run: seq<Step>)
    requires Inv(s) && s.pool.shutdown && Legal(s, run)
    ensures Stranded(After(s, run)) <= Stranded(s)
    ensures NoSpuriousSubmitter(run) ==> Stranded(After(s, run)) == Stranded(s)
    decreases |run|
  {
    if run != [] {
      StrandedStep(s, run[0]);
      DrainStep(s, run[0]);
      StepKeepsInv(s, run[0]);
      StrandedAlong(Apply(s, run[0]), run[1..]);
    }
  }

  /** Shutdown signals the workers only. When the last worker has left, the submitters still asleep are at
      most those that outnumbered the queue at shutdown, and exactly those unless some woke spuriously. */
  lemma {:induction false} SleepersAfterDrain(init: System, run: seq<Step>, drain: seq<Step>)
    requires Initial(init) && Legal(init, run) && After(init, run).pool.shutdown
    requires Legal(After(init, run), drain)
    requires Count(After(After(init, run), drain).workers, IsLive) == 0
    ensures var sleepers := Count(After(After(init, run), drain).submitters, IsSleeping);
      && sleepers <= Stranded(After(init, run))
      && (NoSpuriousSubmitter(drain) ==> sleepers == Stranded(After(init, run)))
  {
    InvOnRuns(init, run);
    StrandedAlong(After(init, run), drain);
    ShutdownDrains(init, run, drain);
    var end := After(After(init, run), drain);
    assert |end.accepted| == |end.started| + |end.pool.pending|
      by { DrainAlong(After(init, run), drain); }
  }

  /** However the drain goes, no submitter is asleep when the last worker has left. */
  ghost predicate AlwaysReleased(s: System) {
    forall drain :: Legal(s, drain) && Count(After(s, drain).workers, IsLive) == 0
      ==> Count(After(s, drain).submitters, IsSleeping) == 0
  }

  /** There is a drain, and one in which nobody wakes spuriously. */
  lemma {:induction false} QuietDrain(s: System) returns (drain: seq<Step>)
    requires Inv(s) && s.pool.shutdown
    ensures Legal(s, drain) && NoSpuriousSubmitter(drain) && Count(After(s, drain).workers, IsLive) == 0
    decreases Remaining(s)
  {
    hide Inv, Enabled, Apply, IsLive;
    drain := [];
    if Count(s.workers, IsLive) > 0 {
      DrainProgress(s);
      var step :| WorkerMove(step) && Enabled(s, step);
      DrainStep(s, step);
      StepKeepsInv(s, step);
      var rest := QuietDrain(Apply(s, step));
      drain := [step] + rest;
      assert drain[1..] == rest;
    }
  }

  /** Every drain releases every submitter, if and only if at shutdown the sleepers were no more than the
      queued tasks. */
  lemma {:induction false} ReleasedIffFewSleepers(init: System, run: seq<Step>)
    requires Initial(init) && Legal(init, run) && After(init, run).pool.shutdown
    ensures var s := After(init, run);
      AlwaysReleased(s) <==> Count(s.submitters, IsSleeping) <= |s.pool.pending|
  {
    hide Initial, Inv, IsLive, IsSleeping;
    var s := After(init, run);
    InvOnRuns(init, run);
    if Stranded(s) == 0 {
      forall drain | Legal(s, drain) && Count(After(s, drain).workers, IsLive) == 0
        ensures Count(After(s, drain).submitters, IsSleeping) == 0
      {
        SleepersAfterDrain(init, run, drain);
      }
    } else {
      var drain := QuietDrain(s);
      SleepersAfterDrain(init, run, drain);
    }
  }

  // ---------- concrete runs ----------

  lemma {:induction false} Extend(s: System, run: seq<Step>, step: Step)
    requires Legal(s, run) && Enabled(After(s, run), step)
    ensures Legal(s, run + [step]) && After(s, run + [step]) == Apply(After(s, run), step)
    decreases |run|
  {
    if run == [] {
      assert [step][1..] == [];
      assert Legal(Apply(s, step), []);
      assert [] + [step] == [step];
    } else {
      assert (run + [step])[1..] == run[1..] + [step];
      Extend(Apply(s, run[0]), run[1..], step);
    }
  }

  lemma {:induction false} Go(init: System, run: seq<Step>, s: System, step: Step) returns (run': seq<Step>, s': System)
    requires Legal(init, run) && After(init, run) == s && Enabled(s, step)
    ensures Legal(init, run') && After(init, run') == s' == Apply(s, step)
  {
    Extend(init, run, step);
    run', s' := run + [step], Apply(s, step);
  }

  lemma {:induction false} SameWaiters(s: System, run: seq<Step>)
    requires Legal(s, run)
    ensures |After(s, run).waiters| == |s.waiters|
    decreases |run|
  {
    if run != [] {
      SameWaiters(Apply(s, run[0]), run[1..]);
    }
  }

  ghost predicate IdleIsAlwaysNoticed(waiters: nat) {
    forall init, run :: Initial(init) && |init.waiters| == waiters && Legal(init, run)
      ==> NoIdleSleeper(After(init, run))
  }

  /** A system with one worker and no space to spare, about to be driven by hand. */
  function OneWorker(pending: seq<Task>, worker: Worker, submitters: seq<Submitter>, waiters: seq<Waiter>,
                     submitted: seq<Task>, accepted: seq<Task>): System
  {
    System(Pool(1, pending, if worker.Busy? then 1 else 0, false), [worker], submitters, waiters, submitted, [],
           accepted, [], [])
  }

  lemma {:induction false} OneTaskQueued(submitters: seq<Submitter>, waiters: seq<Waiter>,
        task: Task) returns (run: seq<Step>)
    requires |submitters| > 0 && submitters[0] == Outside && task.fn != 0
    ensures var init := OneWorker([], Awake, submitters, waiters, [], []);
      Legal(init, run) && After(init, run) == OneWorker([task], Awake, submitters, waiters, [task], [task])
  {
    var init := OneWorker([], Awake, submitters, waiters, [], []);
    var s: System;
    run, s := Go(init, [], init, SubmitCalled(0, task));
    run, s := Go(init, run, s, SubmitAccepted(0, 0));
    assert s.submitters == submitters;
  }

  lemma {:induction false} TwoWaitersDoze(waiters: nat, task: Task) returns (run: seq<Step>, s: System)
    requires waiters >= 2 && task.fn != 0
    ensures var init := OneWorker([], Awake, [Outside], seq(waiters, _ => Away), [], []);
      Legal(init, run) && After(init, run) == s
    ensures |s.waiters| == waiters && s.waiters[0] == s.waiters[1] == Dozing
    ensures s == OneWorker([task], Awake, [Outside], s.waiters, [task], [task])
  {
    var init := OneWorker([], Awake, [Outside], seq(waiters, _ => Away), [], []);
    run := OneTaskQueued(init.submitters, init.waiters, task);
    s := After(init, run);
    run, s := Go(init, run, s, WaitCalled(0));
    run, s := Go(init, run, s, WaitCalled(1));
    run, s := Go(init, run, s, WaitSleeps(0));
    run, s := Go(init, run, s, WaitSleeps(1));
  }

  /** Two clients doze, one task finishes, one signal is sent: the second client sleeps on. */
  lemma {:induction false} SecondWaiterMissesIdle(waiters: nat)
    requires waiters >= 2
    ensures !IdleIsAlwaysNoticed(waiters)
  {
    var init := OneWorker([], Awake, [Outside], seq(waiters, _ => Away), [], []);
    var run, s := TwoWaitersDoze(waiters, Task(1, 0));
    run, s := Go(init, run, s, WorkerTakes(0, 0));
    run, s := Go(init, run, s, WorkerCompletes(0, 0));
    CountPositive(s.waiters, IsDozing);
    assert IsDozing(s.waiters[1]);
    assert !NoIdleSleeper(s);
  }

  /** "Waits for all submitted tasks to complete" includes being woken then: that holds on every run
      if and only if at most one client waits. */
  lemma {:induction false} IdleNoticedIffSoleWaiter(waiters: nat)
    ensures IdleIsAlwaysNoticed(waiters) <==> waiters <= 1
  {
    if waiters >= 2 {
      SecondWaiterMissesIdle(waiters);
    } else {
      forall init, run | Initial(init) && |init.waiters| == waiters && Legal(init, run)
        ensures NoIdleSleeper(After(init, run))
      {
        InvOnRuns(init, run);
        SameWaiters(init, run);
      }
    }
  }

  lemma {:induction false} TwoSubmittersSleep(task: Task) returns (run: seq<Step>, s: System)
    requires task.fn != 0
    ensures var init := OneWorker([], Awake, [Outside, Outside, Outside], [], [], []);
      Legal(init, run) && After(init, run) == s
    ensures s == OneWorker([task], Awake, [Outside, Sleeping(task), Sleeping(task)], [], [task, task, task], [task])
  {
    var init := OneWorker([], Awake, [Outside, Outside, Outside], [], [], []);
    run := OneTaskQueued(init.submitters, [], task);
    s := OneWorker([task], Awake, init.submitters, [], [task], [task]);
    run, s := Go(init, run, s, SubmitCalled(1, task));
    run, s := Go(init, run, s, SubmitSleeps(1));
    assert s.submitters == [Outside, Sleeping(task), Outside];
    run, s := Go(init, run, s, SubmitCalled(2, task));
    run, s := Go(init, run, s, SubmitSleeps(2));
    assert s.submitters == [Outside, Sleeping(task), Sleeping(task)];
  }

  /** Shutdown can find more sleeping submitters than queued tasks. */
  lemma {:induction false} StrandingHappens()
    ensures exists init, run :: Initial(init) && Legal(init, run) && After(init, run).pool.shutdown
                             && Stranded(After(init, run)) > 0
  {
    var task := Task(1, 0);
    var init := OneWorker([], Awake, [Outside, Outside, Outside], [], [], []);
    var run, s := TwoSubmittersSleep(task);
    CountUpdate(s.submitters, 1, Outside, IsSleeping);
    CountUpdate(s.submitters[1 := Outside], 2, Outside, IsSleeping);
    run, s := Go(init, run, s, Destroyed);
    assert Initial(init) && Stranded(s) > 0;
  }
}

/**
 The critical sections of the worker pool: what one acquisition of the pool's mutex does, as
 functions on an abstract pool value, and the ring buffer that implements them in place.
 */
module WorkerPools {

  /** A function pointer and its argument; the null function pointer is 0. */
  datatype Task = Task(fn: nat, arg: nat)

  /** The pool as its clients see it: the accepted tasks not yet started, in order. */
  datatype Pool = Pool(capacity: nat, pending: seq<Task>, active: nat, shutdown: bool)

  /** What a worker does with the lock held: go to sleep, leave, or carry a task away. */
  datatype Acquisition = Sleeps | Exits | Takes(task: Task)

  /** What a submitter does with the lock held. */
  datatype Submission = Blocks | Refused | Accepted

  function Acquire(p: Pool): (Acquisition, Pool) {
    if p.pending == [] then (if p.shutdown then Exits else Sleeps, p)
    else (Takes(p.pending[0]), p.(pending := p.pending[1..], active := p.active + 1))
  }

  function Submit(p: Pool, task: Task): (Submission, Pool) {
    if p.shutdown then (Refused, p)
    else if |p.pending| == p.capacity then (Blocks, p)
    else (Accepted, p.(pending := p.pending + [task]))
  }

  /** A finished task; the flag says whether the idle waiters are signalled. */
  function Complete(p: Pool): (bool, Pool)
    requires p.active > 0
  {
    (p.pending == [] && p.active == 1, p.(active := p.active - 1))
  }

  predicate Idle(p: Pool) {
    p.pending == [] && p.active == 0
  }

  // ---------- the ring ----------

  /** The slot `i` places after `head` in a ring of `n` slots. */
  function Slot(head: nat, i: nat, n: nat): (k: nat)
    requires head < n && i <= n
    ensures k < n
  {
    if head + i < n then head + i else head + i - n
  }

  /** That is the remainder which the code computes. */
  lemma {:induction false} SlotIsRemainder(head: nat, i: nat, n: nat)
    requires head < n && i <= n
    ensures Slot(head, i, n) == (head + i) % n
  {
    var x := head + i;
    var q := x / n;
    assert x == q * n + x % n;
    assert q >= 2 ==> q * n >= 2 * n;
    assert q == 0 || q == 1;
  }

  /** The `count` tasks read from `head` on, wrapping at the end of the array. */
  function RingContents(q: seq<Task>, head: nat, count: nat): (contents: seq<Task>)
    requires head < |q| && count <= |q|
    ensures |contents| == count
  {
    seq(count, i requires 0 <= i < count => q[Slot(head, i, |q|)])
  }

  lemma {:induction false} RingPush(q: seq<Task>, head: nat, count: nat, task: Task)
    requires head < |q| && count < |q|
    ensures RingContents(q[Slot(head, count, |q|) := task], head, count + 1)
         == RingContents(q, head, count) + [task]
  {
  }

  lemma {:induction false} RingPop(q: seq<Task>, head: nat, count: nat)
    requires head < |q| && 0 < count <= |q|
    ensures RingContents(q, Slot(head, 1, |q|), count - 1) == RingContents(q, head, count)[1..]
  {
    forall i | 0 <= i < count - 1
      ensures Slot(Slot(head, 1, |q|), i, |q|) == Slot(head, i + 1, |q|)
    {
    }
  }

  lemma {:induction false} SlotNext(head: nat, i: nat, n: nat)
    requires head < n && i < n
    ensures Slot(head, i + 1, n) == (Slot(head, i, n) + 1) % n
  {
    SlotIsRemainder(Slot(head, i, n), 1, n);
  }

  class WorkerPool {
    var queue: array<Task>
    var head: nat
    var tail: nat
    var count: nat
    var shutdown: bool
    var activeTasks: nat

    ghost predicate Valid()
      reads this
    {
      && head < queue.Length
      && count <= queue.Length
      && tail == Slot(head, count, queue.Length)
    }

    /** The abstract pool held by the fields. */
    ghost function State(): Pool
      requires Valid()
      reads this, queue
    {
      Pool(queue.Length, RingContents(queue[..], head, count), activeTasks, shutdown)
    }

    constructor (maxQueueSize: nat)
      requires maxQueueSize > 0
      ensures Valid() && fresh(queue)
      ensures State() == Pool(maxQueueSize, [], 0, false)
    {
      queue := new Task[maxQueueSize](_ => Task(0, 0));
      head, tail, count, activeTasks, shutdown := 0, 0, 0, 0, false;
    }

    /** `worker_pool_create`: no pool without threads or without space. */
    static method Create(numThreads: nat, maxQueueSize: nat) returns (pool: WorkerPool?)
      ensures pool == null <==> numThreads == 0 || maxQueueSize == 0
      ensures pool != null ==> fresh(pool) && pool.Valid() && fresh(pool.queue)
      ensures pool != null ==> pool.State() == Pool(maxQueueSize, [], 0, false)
    {
      if numThreads == 0 || maxQueueSize == 0 {
        return null;
      }
      pool := new WorkerPool(maxQueueSize);
    }

    /** One acquisition by a worker: the wait test, then exit or dequeue. */
    method AcquireTask() returns (what: Acquisition)
      requires Valid()
      modifies this
      ensures Valid() && queue == old(queue)
      ensures (what, State()) == Acquire(old(State()))
    {
      if count == 0 && !shutdown {
        return Sleeps;
      }
      if shutdown && count == 0 {
        return Exits;
      }
      RingPop(queue[..], head, count);
      SlotIsRemainder(head, 1, queue.Length);
      what := Takes(queue[head]);
      head := (head + 1) % queue.Length;
      count := count - 1;
      activeTasks := activeTasks + 1;
    }

    /** A worker reports a finished task; `signal` says that `is_idle` is signalled. */
    method CompleteTask() returns (signal: bool)
      requires Valid() && activeTasks > 0
      modifies this
      ensures Valid() && queue == old(queue)
      ensures (signal, State()) == Complete(old(State()))
      ensures signal <==> count == 0 && activeTasks == 0
    {
      activeTasks := activeTasks - 1;
      signal := count == 0 && activeTasks == 0;
    }

    /** One acquisition by a submitter that passed the argument check. */
    method SubmitTask(task: Task) returns (what: Submission)
      requires Valid()
      modifies this, queue
      ensures Valid() && queue == old(queue)
      ensures (what, State()) == Submit(old(State()), task)
    {
      if count == queue.Length && !shutdown {
        return Blocks;
      }
      if shutdown {
        return Refused;
      }
      ghost var before := queue[..];
      RingPush(before, head, count, task);
      SlotNext(head, count, queue.Length);
      queue[tail] := task;
      assert queue[..] == before[Slot(head, count, queue.Length) := task];
      tail := (tail + 1) % queue.Length;
      count := count + 1;
      return Accepted;
    }

    method WaitIdleCheck() returns (idle: bool)
      requires Valid()
      ensures idle == Idle(State())
    {
      idle := !(count > 0 || activeTasks > 0);
    }

    method Destroy()
      requires Valid()
      modifies this
      ensures Valid() && queue == old(queue)
      ensures State() == old(State()).(shutdown := true)
    {
      shutdown := true;
    }
  }
}

/**
 The promising queue under concurrency: any number of dequeuers blocking on `not_empty`, and
 enqueues, removals, re-prioritisations and the shutdown in any interleaving. One step is one
 acquisition of the queue's mutex; the queue itself is the heap of `PriorityHeap`.
 */
module QueueProtocol {
  import opened Counting
  import opened PriorityHeap

  type Entry = Ticket<nat>

  /** `Outside` is in user code, `Ready` wants the mutex, `Asleep` waits on `not_empty`. */
  datatype Dequeuer = Outside | Ready | Asleep

  /** The heap, the callers of `dequeue`, the candidates that came in and went out, and the uuid of each
      candidate, which never changes. */
  datatype System = System(
    held: seq<Entry>,
    shutdown: bool,
    dequeuers: seq<Dequeuer>,
    enqueued: multiset<nat>,
    dequeued: multiset<nat>,
    removed: multiset<nat>,
    uuids: nat -> string)

  datatype Step =
    | Enqueued(entry: Entry, wake: nat)
    | EnqueueRefused(entry: Entry)
    | DequeueCalled(d: nat)
    | DequeueSleeps(d: nat)
    | DequeueTakes(d: nat)
    | DequeueNotFound(d: nat)
    | Removed(uuid: string)
    | Updated(uuid: string, priority: nat)
    | ShutDown
    | Spurious(d: nat)

  predicate IsReady(d: Dequeuer) { d.Ready? }
  predicate IsAsleep(d: Dequeuer) { d.Asleep? }

  ghost predicate Chosen(ds: seq<Dequeuer>, k: nat) {
    (exists i :: 0 <= i < |ds| && ds[i].Asleep?) ==> k < |ds| && ds[k].Asleep?
  }

  function Signal(ds: seq<Dequeuer>, k: nat): (r: seq<Dequeuer>)
    ensures |r| == |ds|
  {
    if k < |ds| && ds[k].Asleep? then ds[k := Ready] else ds
  }

  function Broadcast(ds: seq<Dequeuer>): (r: seq<Dequeuer>)
    ensures |r| == |ds|
    ensures forall i :: 0 <= i < |ds| ==> r[i] == if ds[i].Asleep? then Ready else ds[i]
  {
    seq(|ds|, i requires 0 <= i < |ds| => if ds[i].Asleep? then Ready else ds[i])
  }

  ghost predicate Initial(s: System) {
    && s.held == [] && !s.shutdown
    && (forall i :: 0 <= i < |s.dequeuers| ==> s.dequeuers[i] == Outside)
    && s.enqueued == s.dequeued == s.removed == multiset{}
  }

  ghost predicate Enabled(s: System, step: Step) {
    match step
    case Enqueued(entry, wake) =>
      !s.shutdown && entry.uuid == s.uuids(entry.candidate) && Chosen(s.dequeuers, wake)
    case EnqueueRefused(_) => s.shutdown
    case DequeueCalled(d) => d < |s.dequeuers| && s.dequeuers[d].Outside?
    case DequeueSleeps(d) => d < |s.dequeuers| && s.dequeuers[d].Ready? && s.held == [] && !s.shutdown
    case DequeueTakes(d) => d < |s.dequeuers| && s.dequeuers[d].Ready? && s.held != []
    case DequeueNotFound(d) => d < |s.dequeuers| && s.dequeuers[d].Ready? && s.held == [] && s.shutdown
    case Removed(uuid) => true
    case Updated(_, _) => true
    case ShutDown => true
    case Spurious(d) => d < |s.dequeuers| && s.dequeuers[d].Asleep?
  }

  ghost function Apply(s: System, step: Step): System
    requires Enabled(s, step)
  {
    match step
    case Enqueued(entry, wake) =>
      s.(held := Push(s.held, entry), dequeuers := Signal(s.dequeuers, wake),
         enqueued := s.enqueued + multiset{entry.candidate})
    case EnqueueRefused(_) => s
    case DequeueCalled(d) => s.(dequeuers := s.dequeuers[d := Ready])
    case DequeueSleeps(d) => s.(dequeuers := s.dequeuers[d := Asleep])
    case DequeueTakes(d) =>
      s.(held := Pop(s.held), dequeuers := s.dequeuers[d := Outside],
         dequeued := s.dequeued + multiset{s.held[0].candidate})
    case DequeueNotFound(d) => s.(dequeuers := s.dequeuers[d := Outside])
    case Removed(uuid) =>
      var i := Find(s.held, uuid);
      if i < |s.held| then s.(held := RemoveAt(s.held, i), removed := s.removed + multiset{s.held[i].candidate}) else s
    case Updated(uuid, priority) =>
      var i := Find(s.held, uuid);
      if i < |s.held| then s.(held := UpdateAt(s.held, i, priority)) else s
    case ShutDown => s.(shutdown := true, dequeuers := Broadcast(s.dequeuers))
    case Spurious(d) => s.(dequeuers := Signal(s.dequeuers, d))
  }

  ghost predicate Legal(s: System, run: seq<Step>)
    decreases |run|
  {
    run == [] || (Enabled(s, run[0]) && Legal(Apply(s, run[0]), run[1..]))
  }

  ghost function After(s: System, run: seq<Step>): System
    requires Legal(s, run)
    decreases |run|
  {
    if run == [] then s else After(Apply(s, run[0]), run[1..])
  }

  // ---------- the candidates in the heap ----------

  /** How many slots hold the candidate. */
  ghost function Copies(v: seq<Entry>, c: nat): nat {
    Count(v, (t: Entry) => t.candidate == c)
  }

  lemma {:induction false} SwapKeeps(v: seq<Entry>, i: nat, j: nat, c: nat)
    requires i < |v| && j < |v|
    ensures Copies(Swap(v, i, j), c) == Copies(v, c)
  {
    var p := (t: Entry) => t.candidate == c;
    CountUpdate(v, i, v[j], p);
    CountUpdate(v[i := v[j]], j, v[i], p);
  }

  lemma {:induction false} SiftUpKeeps(v: seq<Entry>, i: nat, c: nat)
    requires i < |v|
    ensures Copies(SiftUp(v, i), c) == Copies(v, c)
    decreases i
  {
    if i > 0 && v[i].priority < v[Parent(i)].priority {
      SwapKeeps(v, i, Parent(i), c);
      SiftUpKeeps(Swap(v, i, Parent(i)), Parent(i), c);
    }
  }

  lemma {:induction false} SiftDownKeeps(v: seq<Entry>, i: nat, c: nat)
    requires i < |v|
    ensures Copies(SiftDown(v, i), c) == Copies(v, c)
    decreases |v| - i
  {
    var k := Smallest(v, i);
    if k != i {
      SwapKeeps(v, i, k, c);
      SiftDownKeeps(Swap(v, i, k), k, c);
    }
  }

  ghost function One(b: bool): nat { if b then 1 else 0 }

  /** The last slot moved over slot `i`. */
  lemma {:induction false} MoveKeeps(v: seq<Entry>, i: nat, c: nat)
    requires i < |v|
    ensures var w := v[i := v[|v| - 1]][..|v| - 1];
      Copies(v, c) == Copies(w, c) + One(v[i].candidate == c)
  {
    hide Count;
    var last := |v| - 1;
    var p := (t: Entry) => t.candidate == c;
    var w := v[i := v[last]];
    CountUpdate(v, i, v[last], p);
    CountSnoc(w, last, p);
    assert w[..last + 1] == w;
  }

  lemma {:induction false} PushKeeps(v: seq<Entry>, t: Entry, c: nat)
    ensures Copies(Push(v, t), c) == Copies(v, c) + One(t.candidate == c)
  {
    CountAppend(v, [t], (t: Entry) => t.candidate == c);
    SiftUpKeeps(v + [t], |v|, c);
  }

  lemma {:induction false} PopKeeps(v: seq<Entry>, c: nat)
    requires v != []
    ensures Copies(v, c) == Copies(Pop(v), c) + One(v[0].candidate == c)
  {
    MoveKeeps(v, 0, c);
    var w := v[0 := v[|v| - 1]][..|v| - 1];
    if w != [] {
      SiftDownKeeps(w, 0, c);
    }
  }

  lemma {:induction false} RemoveKeeps(v: seq<Entry>, i: nat, c: nat)
    requires i < |v|
    ensures Copies(v, c) == Copies(RemoveAt(v, i), c) + One(v[i].candidate == c)
  {
    MoveKeeps(v, i, c);
    var w := v[i := v[|v| - 1]][..|v| - 1];
    if i < |w| {
      SiftDownKeeps(w, i, c);
      SiftUpKeeps(SiftDown(w, i), i, c);
    }
  }

  lemma {:induction false} ReprioritiseKeeps(v: seq<Entry>, x: nat, priority: nat, c: nat)
    ensures Copies(Reprioritise(v, x, priority), c) == Copies(v, c)
  {
    if v != [] {
      assert Reprioritise(v, x, priority)[1..] == Reprioritise(v[1..], x, priority);
      ReprioritiseKeeps(v[1..], x, priority, c);
    }
  }

  lemma {:induction false} UpdateKeeps(v: seq<Entry>, i: nat, priority: nat, c: nat)
    requires i < |v|
    ensures Copies(UpdateAt(v, i, priority), c) == Copies(v, c)
  {
    hide SiftUp, SiftDown, Copies;
    var w := Reprioritise(v, v[i].candidate, priority);
    ReprioritiseKeeps(v, v[i].candidate, priority, c);
    SiftDownKeeps(w, i, c);
    SiftUpKeeps(SiftDown(w, i), i, c);
  }

  // ---------- the invariant ----------

  /** Every candidate that came in went out by `dequeue`, by `remove`, or is in the heap. */
  ghost predicate Conserved(s: System) {
    forall c :: ConservedFor(s, c)
  }

  ghost predicate ConservedFor(s: System, c: nat) {
    s.enqueued[c] == s.dequeued[c] + s.removed[c] + Copies(s.held, c)
  }

  ghost predicate Wakeups(s: System) {
    && (!s.shutdown && Count(s.dequeuers, IsAsleep) > 0 ==> Count(s.dequeuers, IsReady) >= |s.held|)
    && (s.shutdown ==> Count(s.dequeuers, IsAsleep) == 0)
  }

  // ---------- what each operation does to the contents ----------

  /** The first slot with the uuid. */
  ghost predicate FirstWith(v: seq<Entry>, uuid: string, i: nat) {
    i < |v| && v[i].uuid == uuid && forall j :: 0 <= j < i ==> v[j].uuid != uuid
  }

  ghost predicate HoldsUuid(v: seq<Entry>, uuid: string) {
    exists i :: 0 <= i < |v| && v[i].uuid == uuid
  }

  lemma {:induction false} FoundIffHeld(v: seq<Entry>, uuid: string)
    ensures Find(v, uuid) < |v| <==> HoldsUuid(v, uuid)
    ensures Find(v, uuid) < |v| ==> FirstWith(v, uuid, Find(v, uuid))
  {
  }

  /** An enqueue adds its entry, a dequeue takes the root, and no other operation but a removal or an update
      changes the contents. */
  lemma {:induction false} StepContents(s: System, step: Step)
    requires Enabled(s, step) && !step.Removed? && !step.Updated?
    ensures var t := Apply(s, step);
      && (step.Enqueued? ==>
            && multiset(t.held) == multiset(s.held) + multiset{step.entry}
            && t.enqueued == s.enqueued + multiset{step.entry.candidate})
      && (step.DequeueTakes? ==>
            && s.held != [] && multiset(t.held) == multiset(s.held) - multiset{s.held[0]}
            && t.dequeued == s.dequeued + multiset{s.held[0].candidate})
      && (!step.Enqueued? && !step.DequeueTakes? ==> t.held == s.held)
  {
    hide Push, Pop;
    if step.Enqueued? {
      PushContents(s.held, step.entry);
    } else if step.DequeueTakes? {
      PopContents(s.held);
    }
  }

  /** The entry in slot `i`, the first with the uuid, is gone, and its candidate logged. */
  ghost predicate TookOut(s: System, t: System, uuid: string, i: nat) {
    && FirstWith(s.held, uuid, i) && multiset(t.held) == multiset(s.held) - multiset{s.held[i]}
    && t.removed == s.removed + multiset{s.held[i].candidate}
  }

  /** A removal takes the first entry with the uuid and logs its candidate, or finds none and changes nothing. */
  lemma {:induction false} RemovalContents(s: System, uuid: string)
    ensures var t := Apply(s, Removed(uuid));
      if HoldsUuid(s.held, uuid) then exists i: nat :: TookOut(s, t, uuid, i) else t == s
  {
    hide RemoveAt, FirstWith, HoldsUuid, Find, Push, Pop, UpdateAt, Signal, Broadcast;
    var i, t := Find(s.held, uuid), Apply(s, Removed(uuid));
    FoundIffHeld(s.held, uuid);
    if HoldsUuid(s.held, uuid) {
      RemoveContents(s.held, i);
      assert TookOut(s, t, uuid, i);
    }
  }

  /** Every entry of the candidate in slot `i`, the first with the uuid, has the new priority. */
  ghost predicate Repriced(s: System, t: System, uuid: string, priority: nat, i: nat) {
    && FirstWith(s.held, uuid, i)
    && multiset(t.held) == multiset(Reprioritise(s.held, s.held[i].candidate, priority))
  }

  /** An update gives every entry of the candidate that is found the new priority, or finds none. */
  lemma {:induction false} UpdatedContents(s: System, uuid: string, priority: nat)
    ensures var t := Apply(s, Updated(uuid, priority));
      if HoldsUuid(s.held, uuid) then exists i: nat :: Repriced(s, t, uuid, priority, i) else t == s
  {
    hide UpdateAt, FirstWith, HoldsUuid, Reprioritise, Find, Push, Pop, RemoveAt, Signal, Broadcast;
    var i, t := Find(s.held, uuid), Apply(s, Updated(uuid, priority));
    FoundIffHeld(s.held, uuid);
    if HoldsUuid(s.held, uuid) {
      UpdateContents(s.held, i, priority);
      assert Repriced(s, t, uuid, priority, i);
    }
  }

  /** A uuid that is held: the removal lowers the copies of its candidate by one and raises its removals by one,
      and leaves every other candidate alone. */
  lemma {:induction false} RemovalTakesOne(s: System, uuid: string, c: nat)
    requires HoldsUuid(s.held, uuid)
    ensures var t := Apply(s, Removed(uuid));
      exists i: nat :: FirstWith(s.held, uuid, i)
        && Copies(s.held, c) - Copies(t.held, c) == t.removed[c] - s.removed[c] == One(c == s.held[i].candidate)
  {
    FoundIffHeld(s.held, uuid);
    RemoveKeeps(s.held, Find(s.held, uuid), c);
  }

  /** Every held ticket carries its candidate's uuid. */
  ghost predicate Named(s: System) {
    NamedBy(s.held, s.uuids)
  }

  ghost predicate NamedBy(v: seq<Entry>, uuids: nat -> string) {
    forall t :: t in v ==> t.uuid == uuids(t.candidate)
  }

  ghost predicate Inv(s: System) {
    Conserved(s) && Named(s) && Wakeups(s)
  }

  lemma {:induction false} FewerAreNamed(v: seq<Entry>, w: seq<Entry>, uuids: nat -> string)
    requires multiset(w) <= multiset(v) && NamedBy(v, uuids)
    ensures NamedBy(w, uuids)
  {
    forall t | t in w ensures t.uuid == uuids(t.candidate) {
      assert t in multiset(w);
    }
  }

  lemma {:induction false} StepKeepsConserved(s: System, step: Step)
    requires Conserved(s) && Enabled(s, step)
    ensures Conserved(Apply(s, step))
  {
    hide ConservedFor, Enabled, Apply;
    forall c ensures ConservedFor(Apply(s, step), c) {
      StepConserves(s, step, c);
    }
  }

  lemma {:induction false} StepConserves(s: System, step: Step, c: nat)
    requires ConservedFor(s, c) && Enabled(s, step)
    ensures ConservedFor(Apply(s, step), c)
  {
    hide Copies, Push, Pop, RemoveAt, UpdateAt, Signal, Broadcast, Chosen, Find;
    match step {
      case Enqueued(entry, _) => PushKeeps(s.held, entry, c);
      case DequeueTakes(_) => PopKeeps(s.held, c);
      case Removed(uuid) =>
        if Find(s.held, uuid) < |s.held| {
          RemoveKeeps(s.held, Find(s.held, uuid), c);
        }
      case Updated(uuid, priority) =>
        if Find(s.held, uuid) < |s.held| {
          UpdateKeeps(s.held, Find(s.held, uuid), priority, c);
        }
      case _ =>
    }
  }

  lemma {:induction false} StepKeepsNamed(s: System, step: Step)
    requires Named(s) && Enabled(s, step)
    ensures Named(Apply(s, step))
  {
    hide Push, Pop, RemoveAt, UpdateAt, NamedBy, Find, Signal, Broadcast, Chosen;
    match step {
      case Enqueued(entry, _) => PushedIsNamed(s, entry);
      case DequeueTakes(_) => PoppedIsNamed(s);
      case Removed(uuid) =>
        if Find(s.held, uuid) < |s.held| {
          RemovedIsNamed(s, Find(s.held, uuid));
        }
      case Updated(uuid, priority) =>
        if Find(s.held, uuid) < |s.held| {
          UpdatedIsNamed(s, Find(s.held, uuid), priority);
        }
      case _ =>
    }
  }

  lemma {:induction false} PoppedIsNamed(s: System)
    requires Named(s) && s.held != []
    ensures NamedBy(Pop(s.held), s.uuids)
  {
    hide Pop;
    PopContents(s.held);
    FewerAreNamed(s.held, Pop(s.held), s.uuids);
  }

  lemma {:induction false} RemovedIsNamed(s: System, i: nat)
    requires Named(s) && i < |s.held|
    ensures NamedBy(RemoveAt(s.held, i), s.uuids)
  {
    hide RemoveAt;
    RemoveContents(s.held, i);
    FewerAreNamed(s.held, RemoveAt(s.held, i), s.uuids);
  }

  lemma {:induction false} PushedIsNamed(s: System, entry: Entry)
    requires Named(s) && entry.uuid == s.uuids(entry.candidate)
    ensures NamedBy(Push(s.held, entry), s.uuids)
  {
    hide Push;
    PushContents(s.held, entry);
    FewerAreNamed(s.held + [entry], Push(s.held, entry), s.uuids);
  }

  lemma {:induction false} UpdatedIsNamed(s: System, i: nat, priority: nat)
    requires Named(s) && i < |s.held|
    ensures NamedBy(UpdateAt(s.held, i, priority), s.uuids)
  {
    hide UpdateAt;
    var w := Reprioritise(s.held, s.held[i].candidate, priority);
    forall t | t in w ensures t.uuid == s.uuids(t.candidate) {
      var k :| 0 <= k < |w| && w[k] == t;
      assert s.held[k] in s.held;
    }
    UpdateContents(s.held, i, priority);
    FewerAreNamed(w, UpdateAt(s.held, i, priority), s.uuids);
  }

  // ---------- the order of the heap ----------

  /** The update leaves the heap in order. */
  ghost predicate UpdateKept(v: seq<Entry>, uuid: string, priority: nat) {
    var i := Find(v, uuid);
    i < |v| ==> OtherSlotsKept(v, i, priority)
  }

  ghost predicate StepKept(s: System, step: Step) {
    step.Updated? ==> UpdateKept(s.held, step.uuid, step.priority)
  }

  /** Every priority update of the run keeps the order of the heap it meets. */
  ghost predicate OrderKept(s: System, run: seq<Step>)
    requires Legal(s, run)
    decreases |run|
  {
    run == [] || (StepKept(s, run[0]) && OrderKept(Apply(s, run[0]), run[1..]))
  }

  ghost predicate HeapThroughout(s: System, run: seq<Step>)
    requires Legal(s, run)
    decreases |run|
  {
    Heap(s.held) && (run == [] || HeapThroughout(Apply(s, run[0]), run[1..]))
  }

  /** The slot found is the first of its candidate: the slots before it have other uuids. */
  lemma {:induction false} FoundIsFirst(s: System, uuid: string)
    requires Named(s) && Find(s.held, uuid) < |s.held|
    ensures FirstOf(s.held, Find(s.held, uuid))
  {
    var i := Find(s.held, uuid);
    forall j | 0 <= j < i ensures s.held[j].candidate != s.held[i].candidate {
      assert s.held[j] in s.held && s.held[i] in s.held;
    }
  }

  /** Every locked operation keeps the heap, but for a priority update, which keeps it if and only if the
      candidate's other slots allow it. */
  lemma {:induction false} StepKeepsHeap(s: System, step: Step)
    requires Named(s) && Heap(s.held) && Enabled(s, step)
    ensures Heap(Apply(s, step).held) <==> StepKept(s, step)
  {
    hide Push, Pop, RemoveAt, UpdateAt, Heap, FirstOf, OtherSlotsKept, Named;
    match step {
      case Enqueued(entry, _) => PushKeepsHeap(s.held, entry);
      case DequeueTakes(_) => PopKeepsHeap(s.held);
      case Removed(uuid) =>
        if Find(s.held, uuid) < |s.held| {
          RemoveKeepsHeap(s.held, Find(s.held, uuid));
        }
      case Updated(uuid, priority) =>
        if Find(s.held, uuid) < |s.held| {
          FoundIsFirst(s, uuid);
          UpdateKeepsHeapIff(s.held, Find(s.held, uuid), priority);
        }
      case _ =>
    }
  }

  lemma {:induction false} HeapThroughoutIff(s: System, run: seq<Step>)
    requires Named(s) && Heap(s.held) && Legal(s, run)
    ensures HeapThroughout(s, run) <==> OrderKept(s, run)
    ensures OrderKept(s, run) ==> Heap(After(s, run).held)
    decreases |run|
  {
    hide Heap, Named, Enabled, Apply, StepKept;
    if run != [] {
      StepKeepsHeap(s, run[0]);
      StepKeepsNamed(s, run[0]);
      if StepKept(s, run[0]) {
        HeapThroughoutIff(Apply(s, run[0]), run[1..]);
      } else {
        NotThroughout(Apply(s, run[0]), run[1..]);
      }
    }
  }

  lemma {:induction false} NotThroughout(s: System, run: seq<Step>)
    requires Legal(s, run) && !Heap(s.held)
    ensures !HeapThroughout(s, run)
  {
  }

  lemma {:induction false} DequeuerChange(ds: seq<Dequeuer>, d: nat, x: Dequeuer)
    requires d < |ds|
    ensures Count(ds[d := x], IsReady) + One(ds[d].Ready?) == Count(ds, IsReady) + One(x.Ready?)
    ensures Count(ds[d := x], IsAsleep) + One(ds[d].Asleep?) == Count(ds, IsAsleep) + One(x.Asleep?)
  {
    CountUpdate(ds, d, x, IsReady);
    CountUpdate(ds, d, x, IsAsleep);
  }

  lemma {:induction false} Signalled(ds: seq<Dequeuer>, k: nat)
    ensures var r := Signal(ds, k);
      && Count(r, IsReady) + Count(r, IsAsleep) == Count(ds, IsReady) + Count(ds, IsAsleep)
      && Count(r, IsReady) >= Count(ds, IsReady)
      && (Chosen(ds, k) && Count(ds, IsAsleep) > 0 ==> Count(r, IsReady) == Count(ds, IsReady) + 1)
  {
    CountPositive(ds, IsAsleep);
    if k < |ds| && ds[k].Asleep? {
      DequeuerChange(ds, k, Ready);
    }
  }

  lemma {:induction false} StepKeepsWakeups(s: System, step: Step)
    requires Inv(s) && Enabled(s, step)
    ensures Wakeups(Apply(s, step))
  {
    match step {
      case Enqueued(entry, wake) => Signalled(s.dequeuers, wake);
      case DequeueCalled(d) => DequeuerChange(s.dequeuers, d, Ready);
      case DequeueSleeps(d) => DequeuerChange(s.dequeuers, d, Asleep);
      case DequeueTakes(d) =>
        PopContents(s.held);
        DequeuerChange(s.dequeuers, d, Outside);
      case DequeueNotFound(d) => DequeuerChange(s.dequeuers, d, Outside);
      case Removed(uuid) =>
        if Find(s.held, uuid) < |s.held| {
          RemoveContents(s.held, Find(s.held, uuid));
        }
      case ShutDown => CountPositive(Broadcast(s.dequeuers), IsAsleep);
      case Spurious(d) => Signalled(s.dequeuers, d);
      case _ =>
    }
  }

  lemma {:induction false} InvAlong(s: System, run: seq<Step>)
    requires Inv(s) && Legal(s, run)
    ensures Inv(After(s, run))
    decreases |run|
  {
    if run != [] {
      StepKeepsConserved(s, run[0]);
      StepKeepsNamed(s, run[0]);
      StepKeepsWakeups(s, run[0]);
      InvAlong(Apply(s, run[0]), run[1..]);
    }
  }

  lemma {:induction false} InvOnRuns(init: System, run: seq<Step>)
    requires Initial(init) && Legal(init, run)
    ensures Inv(After(init, run))
  {
    CountPositive(init.dequeuers, IsAsleep);
    InvAlong(init, run);
  }

  // ---------- theorems over all runs ----------

  /** In every interleaving nothing is lost or invented. The heap is in order after every step if and only
      if every priority update keeps the order it meets; and then the candidate a dequeue would return
      has the smallest priority of all that are held. */
  lemma {:induction false} QueueIsSafe(init: System, run: seq<Step>)
    requires Initial(init) && Legal(init, run)
    ensures var s := After(init, run);
      && (forall c :: s.enqueued[c] == s.dequeued[c] + s.removed[c] + Copies(s.held, c))
      && (HeapThroughout(init, run) <==> OrderKept(init, run))
      && (OrderKept(init, run) ==> Heap(s.held))
      && (OrderKept(init, run) && s.held != [] ==> forall t :: t in s.held ==> s.held[0].priority <= t.priority)
  {
    hide Copies, Enabled, Apply;
    InvOnRuns(init, run);
    HeapThroughoutIff(init, run);
    var s := After(init, run);
    forall c ensures s.enqueued[c] == s.dequeued[c] + s.removed[c] + Copies(s.held, c) {
      assert ConservedFor(s, c);
    }
    if OrderKept(init, run) && s.held != [] {
      RootBoundsAll(s.held);
    }
  }

  /** No candidate is enqueued while it is held. */
  ghost predicate NoReentry(s: System, run: seq<Step>)
    requires Legal(s, run)
    decreases |run|
  {
    run == [] || (
      && (run[0].Enqueued? ==> Copies(s.held, run[0].entry.candidate) == 0)
      && NoReentry(Apply(s, run[0]), run[1..]))
  }

  ghost predicate HeldOnce(v: seq<Entry>) {
    forall c :: Copies(v, c) <= 1
  }

  lemma {:induction false} TwoCopies(v: seq<Entry>, i: nat, j: nat)
    requires i < j < |v| && v[i].candidate == v[j].candidate
    ensures Copies(v, v[i].candidate) >= 2
  {
    var p := (t: Entry) => t.candidate == v[i].candidate;
    CountAppend(v[..j], v[j..], p);
    assert v == v[..j] + v[j..];
    CountPositive(v[..j], p);
    CountPositive(v[j..], p);
    assert p(v[..j][i]) && p(v[j..][0]);
  }

  lemma {:induction false} HeldOnceIsOnlyAt(v: seq<Entry>, i: nat)
    requires HeldOnce(v) && i < |v|
    ensures OnlyAt(v, i)
  {
    hide Copies;
    forall j | 0 <= j < |v| && j != i ensures v[j].candidate != v[i].candidate {
      if v[j].candidate == v[i].candidate {
        TwoCopies(v, if i < j then i else j, if i < j then j else i);
      }
    }
  }

  lemma {:induction false} StepKeepsHeldOnce(s: System, step: Step)
    requires HeldOnce(s.held) && Enabled(s, step)
    requires step.Enqueued? ==> Copies(s.held, step.entry.candidate) == 0
    ensures HeldOnce(Apply(s, step).held)
  {
    hide Copies, Push, Pop, RemoveAt, UpdateAt;
    forall c ensures Copies(Apply(s, step).held, c) <= 1 {
      match step {
        case Enqueued(entry, _) => PushKeeps(s.held, entry, c);
        case DequeueTakes(_) => PopKeeps(s.held, c);
        case Removed(uuid) =>
          if Find(s.held, uuid) < |s.held| {
            RemoveKeeps(s.held, Find(s.held, uuid), c);
          }
        case Updated(uuid, priority) =>
          if Find(s.held, uuid) < |s.held| {
            UpdateKeeps(s.held, Find(s.held, uuid), priority, c);
          }
        case _ =>
      }
    }
  }

  /** When no candidate is enqueued while it is held, every update keeps the order. */
  lemma {:induction false} NoReentryKeepsOrder(s: System, run: seq<Step>)
    requires HeldOnce(s.held) && Legal(s, run) && NoReentry(s, run)
    ensures OrderKept(s, run)
    decreases |run|
  {
    hide HeldOnce, Enabled, Apply, OtherSlotsKept, Copies;
    if run != [] {
      StepKeepsHeldOnce(s, run[0]);
      if run[0].Updated? && Find(s.held, run[0].uuid) < |s.held| {
        HeldOnceIsOnlyAt(s.held, Find(s.held, run[0].uuid));
        HeldOnceIsKept(s.held, Find(s.held, run[0].uuid), run[0].priority);
      }
      NoReentryKeepsOrder(Apply(s, run[0]), run[1..]);
    }
  }

  /** A dequeuer is never left asleep while candidates wait: each held candidate has an awake
      dequeuer; after the shutdown nobody sleeps, and a refused dequeuer left an empty queue. */
  lemma {:induction false} NoLostWakeup(init: System, run: seq<Step>)
    requires Initial(init) && Legal(init, run)
    ensures var s := After(init, run);
      && (!s.shutdown && (exists d :: 0 <= d < |s.dequeuers| && s.dequeuers[d].Asleep?) ==>
            Count(s.dequeuers, IsReady) >= |s.held|)
      && (s.shutdown ==> forall d :: 0 <= d < |s.dequeuers| ==> !s.dequeuers[d].Asleep?)
  {
    InvOnRuns(init, run);
    CountPositive(After(init, run).dequeuers, IsAsleep);
  }

  /** The dequeue calls of a run, in order, that handed out a candidate. */
  ghost function Taken(s: System, run: seq<Step>): seq<Entry>
    requires Legal(s, run)
    decreases |run|
  {
    if run == [] then []
    else (if run[0].DequeueTakes? then [s.held[0]] else []) + Taken(Apply(s, run[0]), run[1..])
  }

  ghost predicate NoEdit(run: seq<Step>) {
    forall i :: 0 <= i < |run| ==> !run[i].Removed? && !run[i].Updated?
  }

  lemma {:induction false} Regroup(a: seq<Entry>, b: seq<Entry>, c: seq<Entry>)
    ensures (a + b) + c == a + (b + c)
  {
  }

  lemma {:induction false} DrainStep(s: System, step: Step)
    requires Inv(s) && Heap(s.held) && s.shutdown && Enabled(s, step) && !step.Removed? && !step.Updated?
    ensures var t := Apply(s, step);
      && Inv(t) && Heap(t.held) && t.shutdown && t.enqueued == s.enqueued
      && Drain(s.held) == (if step.DequeueTakes? then [s.held[0]] else []) + Drain(t.held)
  {
    StepKeepsHeap(s, step);
    StepKeepsConserved(s, step);
    StepKeepsNamed(s, step);
    StepKeepsWakeups(s, step);
  }

  /** The remainder after shutdown: with no more edits, whoever dequeues and in whatever
      interleaving, the candidates come out as a sorted run of the heap and the rest stays. */
  lemma {:induction false} ShutdownDrainsInOrder(s: System, run: seq<Step>)
    requires Inv(s) && Heap(s.held) && s.shutdown && Legal(s, run) && NoEdit(run)
    ensures Heap(After(s, run).held)
    ensures Taken(s, run) + Drain(After(s, run).held) == Drain(s.held)
    ensures After(s, run).enqueued == s.enqueued
    decreases |run|
  {
    if run == [] {
      assert [] + Drain(s.held) == Drain(s.held);
    } else {
      var t, rest := Apply(s, run[0]), run[1..];
      var first := if run[0].DequeueTakes? then [s.held[0]] else [];
      DrainStep(s, run[0]);
      assert NoEdit(rest);
      ShutdownDrainsInOrder(t, rest);
      Regroup(first, Taken(t, rest), Drain(After(t, rest).held));
    }
  }

  /** A dequeuer told NOT_FOUND after the shutdown: everything held at the shutdown has come out,
      smallest priority first. */
  lemma {:induction false} NotFoundMeansDrained(init: System, run: seq<Step>, drain: seq<Step>, d: nat)
    requires Initial(init) && Legal(init, run) && OrderKept(init, run) && After(init, run).shutdown
    requires Legal(After(init, run), drain) && NoEdit(drain)
    requires Enabled(After(After(init, run), drain), DequeueNotFound(d))
    ensures var s := After(init, run);
      && multiset(Taken(s, drain)) == multiset(s.held)
      && Ascending(Taken(s, drain))
  {
    InvOnRuns(init, run);
    HeapThroughoutIff(init, run);
    var s := After(init, run);
    ShutdownDrainsInOrder(s, drain);
    DrainSorts(s.held);
    assert Taken(s, drain) + [] == Taken(s, drain);
  }
}

/**
 The promising queue's binary min-heap, on the sequence of (candidate, priority) pairs that the
 array of candidate pointers shows: what the sift loops and the queue operations do to it, and
 that they keep it a heap and change its contents only as asked.
 */
module PriorityHeap {

  /** A queue slot: the candidate it points to, with that candidate's uuid and current priority. */
  datatype Ticket<C> = Ticket(candidate: C, uuid: string, priority: nat)

  function Parent(i: nat): nat
    requires i > 0
  {
    (i - 1) / 2
  }

  /** No slot has a smaller priority than its parent. */
  ghost predicate Heap<C>(v: seq<Ticket<C>>) {
    forall i :: 0 < i < |v| ==> v[Parent(i)].priority <= v[i].priority
  }

  function Swap<C>(v: seq<Ticket<C>>, i: nat, j: nat): (r: seq<Ticket<C>>)
    requires i < |v| && j < |v|
    ensures |r| == |v|
  {
    v[i := v[j]][j := v[i]]
  }

  function SiftUp<C>(v: seq<Ticket<C>>, i: nat): (r: seq<Ticket<C>>)
    requires i < |v|
    ensures |r| == |v|
    decreases i
  {
    if i > 0 && v[i].priority < v[Parent(i)].priority
    then SiftUp(Swap(v, i, Parent(i)), Parent(i))
    else v
  }

  /** The slot among `i` and its children that the loop of `heapify_down` picks. */
  function Smallest<C>(v: seq<Ticket<C>>, i: nat): (k: nat)
    requires i < |v|
    ensures k < |v| && (k == i || k == 2 * i + 1 || k == 2 * i + 2)
    ensures v[k].priority <= v[i].priority
    ensures k != i ==> v[k].priority < v[i].priority
    ensures 2 * i + 1 < |v| ==> v[k].priority <= v[2 * i + 1].priority
    ensures 2 * i + 2 < |v| ==> v[k].priority <= v[2 * i + 2].priority
    ensures k == 2 * i + 2 ==> v[k].priority < v[2 * i + 1].priority
  {
    var left, right := 2 * i + 1, 2 * i + 2;
    var s := if left < |v| && v[left].priority < v[i].priority then left else i;
    if right < |v| && v[right].priority < v[s].priority then right else s
  }

  function SiftDown<C>(v: seq<Ticket<C>>, i: nat): (r: seq<Ticket<C>>)
    requires i < |v|
    ensures |r| == |v|
    decreases |v| - i
  {
    var k := Smallest(v, i);
    if k != i then SiftDown(Swap(v, i, k), k) else v
  }

  /** One turn of the downward loop. */
  lemma {:induction false} SiftDownStep<C>(v: seq<Ticket<C>>, i: nat)
    requires i < |v|
    ensures var k := Smallest(v, i);
      i <= k < |v| && SiftDown(v, i) == if k != i then SiftDown(Swap(v, i, k), k) else v
  {
  }

  function Push<C>(v: seq<Ticket<C>>, t: Ticket<C>): seq<Ticket<C>> {
    SiftUp(v + [t], |v|)
  }

  function Pop<C>(v: seq<Ticket<C>>): seq<Ticket<C>>
    requires v != []
  {
    var w := v[0 := v[|v| - 1]][..|v| - 1];
    if w == [] then w else SiftDown(w, 0)
  }

  function RemoveAt<C>(v: seq<Ticket<C>>, i: nat): seq<Ticket<C>>
    requires i < |v|
  {
    var w := v[i := v[|v| - 1]][..|v| - 1];
    if i < |w| then SiftUp(SiftDown(w, i), i) else w
  }

  /** The candidate's priority is a field of the candidate: every slot holding it sees the change. */
  function Reprioritise<C(==)>(v: seq<Ticket<C>>, c: C, priority: nat): (r: seq<Ticket<C>>)
    ensures |r| == |v|
    ensures forall i :: 0 <= i < |v| ==> r[i] == if v[i].candidate == c then v[i].(priority := priority) else v[i]
  {
    seq(|v|, i requires 0 <= i < |v| => if v[i].candidate == c then v[i].(priority := priority) else v[i])
  }

  function UpdateAt<C(==)>(v: seq<Ticket<C>>, i: nat, priority: nat): seq<Ticket<C>>
    requires i < |v|
  {
    SiftUp(SiftDown(Reprioritise(v, v[i].candidate, priority), i), i)
  }

  /** The first slot with the uuid, or the length if there is none. */
  function Find<C>(v: seq<Ticket<C>>, uuid: string): (i: nat)
    ensures i <= |v|
    ensures i < |v| ==> v[i].uuid == uuid
    ensures forall j :: 0 <= j < i ==> v[j].uuid != uuid
  {
    if v == [] || v[0].uuid == uuid then 0 else
      var i := Find(v[1..], uuid);
      assert forall j :: 0 < j <= i ==> v[j].uuid != uuid by {
        assert forall j :: 0 < j <= i ==> v[j] == v[1..][j - 1];
      }
      i + 1
  }

  // ---------- contents ----------

  lemma {:induction false} SwapContents<C>(v: seq<Ticket<C>>, i: nat, j: nat)
    requires i < |v| && j < |v|
    ensures multiset(Swap(v, i, j)) == multiset(v)
  {
  }

  lemma {:induction false} SiftUpContents<C>(v: seq<Ticket<C>>, i: nat)
    requires i < |v|
    ensures multiset(SiftUp(v, i)) == multiset(v)
    decreases i
  {
    if i > 0 && v[i].priority < v[Parent(i)].priority {
      SwapContents(v, i, Parent(i));
      SiftUpContents(Swap(v, i, Parent(i)), Parent(i));
    }
  }

  lemma {:induction false} SiftDownContents<C>(v: seq<Ticket<C>>, i: nat)
    requires i < |v|
    ensures multiset(SiftDown(v, i)) == multiset(v)
    decreases |v| - i
  {
    var k := Smallest(v, i);
    if k != i {
      SwapContents(v, i, k);
      SiftDownContents(Swap(v, i, k), k);
    }
  }

  lemma {:induction false} Cancel<T>(a: multiset<T>, b: multiset<T>, x: T)
    requires a + multiset{x} == b + multiset{x}
    ensures a == b
  {
    assert a == (a + multiset{x}) - multiset{x} && b == (b + multiset{x}) - multiset{x};
  }

  lemma {:induction false} MoveLast<C>(v: seq<Ticket<C>>, i: nat)
    requires i < |v|
    ensures multiset(v[i := v[|v| - 1]][..|v| - 1]) == multiset(v) - multiset{v[i]}
  {
    var last := |v| - 1;
    var w := v[i := v[last]];
    assert w == w[..last] + [w[last]];
    assert multiset(w) == multiset(w[..last]) + multiset{v[last]};
    assert multiset(w) == multiset(v) - multiset{v[i]} + multiset{v[last]};
    Cancel(multiset(w[..last]), multiset(v) - multiset{v[i]}, v[last]);
  }

  lemma {:induction false} PushContents<C>(v: seq<Ticket<C>>, t: Ticket<C>)
    ensures multiset(Push(v, t)) == multiset(v) + multiset{t}
  {
    SiftUpContents(v + [t], |v|);
  }

  lemma {:induction false} PopContents<C>(v: seq<Ticket<C>>)
    requires v != []
    ensures multiset(Pop(v)) == multiset(v) - multiset{v[0]} && |Pop(v)| == |v| - 1
  {
    MoveLast(v, 0);
    var w := v[0 := v[|v| - 1]][..|v| - 1];
    if w != [] {
      SiftDownContents(w, 0);
    }
  }

  lemma {:induction false} RemoveContents<C>(v: seq<Ticket<C>>, i: nat)
    requires i < |v|
    ensures multiset(RemoveAt(v, i)) == multiset(v) - multiset{v[i]} && |RemoveAt(v, i)| == |v| - 1
  {
    MoveLast(v, i);
    var w := v[i := v[|v| - 1]][..|v| - 1];
    if i < |w| {
      SiftDownContents(w, i);
      SiftUpContents(SiftDown(w, i), i);
    }
  }

  // ---------- order ----------

  /** A heap but for the edge above `i`. */
  ghost predicate HeapExceptAbove<C>(v: seq<Ticket<C>>, i: nat) {
    && (forall k :: 0 < k < |v| && k != i ==> v[Parent(k)].priority <= v[k].priority)
    && (forall k :: 0 < k < |v| && Parent(k) == i && i > 0 ==> i < |v| && v[Parent(i)].priority <= v[k].priority)
  }

  /** A heap but for the edges below `i`. */
  ghost predicate HeapExceptBelow<C>(v: seq<Ticket<C>>, i: nat) {
    && (forall k :: 0 < k < |v| && Parent(k) != i ==> v[Parent(k)].priority <= v[k].priority)
    && (forall k :: 0 < k < |v| && Parent(k) == i && i > 0 ==> i < |v| && v[Parent(i)].priority <= v[k].priority)
  }

  lemma {:induction false} SiftUpRepairs<C>(v: seq<Ticket<C>>, i: nat)
    requires i < |v| && HeapExceptAbove(v, i)
    ensures Heap(SiftUp(v, i))
    decreases i
  {
    if i > 0 && v[i].priority < v[Parent(i)].priority {
      var w := Swap(v, i, Parent(i));
      forall k | 0 < k < |w| && k != Parent(i)
        ensures w[Parent(k)].priority <= w[k].priority
      {
        if k != i && Parent(k) == Parent(i) {
          assert v[Parent(k)].priority <= v[k].priority;
        }
      }
      SiftUpRepairs(w, Parent(i));
    }
  }

  /** One turn of the downward loop moves the trouble to the chosen child. */
  lemma {:induction false} SwapDown<C>(v: seq<Ticket<C>>, i: nat)
    requires i < |v| && HeapExceptBelow(v, i) && Smallest(v, i) != i
    ensures HeapExceptBelow(Swap(v, i, Smallest(v, i)), Smallest(v, i))
  {
    var k := Smallest(v, i);
    var w := Swap(v, i, k);
    assert Parent(k) == i && i < k;
    forall j | 0 < j < |w| && Parent(j) != k
      ensures w[Parent(j)].priority <= w[j].priority
    {
      if Parent(j) == i {
        assert j == 2 * i + 1 || j == 2 * i + 2;
      }
    }
    forall j | 0 < j < |w| && Parent(j) == k
      ensures w[Parent(k)].priority <= w[j].priority
    {
      assert v[Parent(j)].priority <= v[j].priority;
    }
  }

  lemma {:induction false} SmallestIsBelow<C>(v: seq<Ticket<C>>, i: nat)
    requires i < |v| && Smallest(v, i) != i
    ensures Smallest(v, i) > i && Parent(Smallest(v, i)) == i
  {
  }

  lemma {:induction false} SmallestIsTop<C>(v: seq<Ticket<C>>, i: nat)
    requires i < |v| && HeapExceptBelow(v, i) && Smallest(v, i) == i
    ensures Heap(v)
  {
    forall k | 0 < k < |v| && Parent(k) == i ensures k == 2 * i + 1 || k == 2 * i + 2 {
    }
  }

  lemma {:induction false} SiftDownRepairs<C>(v: seq<Ticket<C>>, i: nat)
    requires i < |v| && HeapExceptBelow(v, i)
    ensures Heap(SiftDown(v, i))
    ensures i > 0 ==> SiftDown(v, i)[Parent(i)] == v[Parent(i)]
    ensures forall k :: 0 <= k < i ==> SiftDown(v, i)[k] == v[k]
    decreases |v| - i
  {
    hide SiftDown, Smallest;
    var k := Smallest(v, i);
    SiftDownStep(v, i);
    if k != i {
      SwapDown(v, i);
      SiftDownRepairs(Swap(v, i, k), k);
      SmallestIsBelow(v, i);
    } else {
      SmallestIsTop(v, i);
    }
  }

  lemma {:induction false} HeapIsFixed<C>(v: seq<Ticket<C>>, i: nat)
    requires i < |v| && Heap(v)
    ensures SiftUp(v, i) == v
  {
  }

  /** Overwriting any slot of a heap and sifting down, then up, from that slot gives a heap again. */
  lemma {:induction false} RepairAnywhere<C>(v: seq<Ticket<C>>, i: nat, t: Ticket<C>)
    requires i < |v| && Heap(v)
    ensures Heap(SiftUp(SiftDown(v[i := t], i), i))
    ensures i == 0 ==> Heap(SiftDown(v[i := t], i))
  {
    var w := v[i := t];
    forall k | 0 < k < |w| && Parent(k) == i && i > 0
      ensures w[Parent(i)].priority <= w[k].priority
    {
      assert v[Parent(i)].priority <= v[i].priority <= v[k].priority;
    }
    if i == 0 || w[Parent(i)].priority <= t.priority {
      SiftDownRepairs(w, i);
      HeapIsFixed(SiftDown(w, i), i);
    } else {
      assert Smallest(w, i) == i;
      SiftUpRepairs(w, i);
    }
  }

  // ---------- the operations ----------

  lemma {:induction false} PushKeepsHeap<C>(v: seq<Ticket<C>>, t: Ticket<C>)
    requires Heap(v)
    ensures Heap(Push(v, t))
    ensures multiset(Push(v, t)) == multiset(v) + multiset{t}
  {
    SiftUpRepairs(v + [t], |v|);
    PushContents(v, t);
  }

  lemma {:induction false} RootIsMinimal<C>(v: seq<Ticket<C>>, i: nat)
    requires Heap(v) && i < |v|
    ensures v[0].priority <= v[i].priority
    decreases i
  {
    if i > 0 {
      RootIsMinimal(v, Parent(i));
    }
  }

  lemma {:induction false} RootBoundsAll<C>(v: seq<Ticket<C>>)
    requires Heap(v) && v != []
    ensures forall t :: t in v ==> v[0].priority <= t.priority
  {
    forall t | t in v
      ensures v[0].priority <= t.priority
    {
      var i :| 0 <= i < |v| && v[i] == t;
      RootIsMinimal(v, i);
    }
  }

  lemma {:induction false} PopKeepsHeap<C>(v: seq<Ticket<C>>)
    requires Heap(v) && v != []
    ensures Heap(Pop(v))
    ensures multiset(Pop(v)) == multiset(v) - multiset{v[0]}
    ensures |Pop(v)| == |v| - 1
    ensures forall t :: t in v ==> v[0].priority <= t.priority
  {
    RootBoundsAll(v);
    PopContents(v);
    var w := v[0 := v[|v| - 1]][..|v| - 1];
    if w != [] {
      assert w == v[..|v| - 1][0 := v[|v| - 1]];
      RepairAnywhere(v[..|v| - 1], 0, v[|v| - 1]);
    }
  }

  /** Removal at any slot, interior ones included. */
  lemma {:induction false} RemoveKeepsHeap<C>(v: seq<Ticket<C>>, i: nat)
    requires Heap(v) && i < |v|
    ensures Heap(RemoveAt(v, i))
    ensures multiset(RemoveAt(v, i)) == multiset(v) - multiset{v[i]}
    ensures |RemoveAt(v, i)| == |v| - 1
  {
    RemoveContents(v, i);
    var w := v[i := v[|v| - 1]][..|v| - 1];
    if i < |w| {
      assert w == v[..|v| - 1][i := v[|v| - 1]];
      RepairAnywhere(v[..|v| - 1], i, v[|v| - 1]);
    } else {
      assert w == v[..|v| - 1];
    }
  }

  /** The candidate in slot `i` is in no other slot. */
  ghost predicate OnlyAt<C>(v: seq<Ticket<C>>, i: nat)
    requires i < |v|
  {
    forall j :: 0 <= j < |v| && j != i ==> v[j].candidate != v[i].candidate
  }

  lemma {:induction false} UpdateContents<C>(v: seq<Ticket<C>>, i: nat, priority: nat)
    requires i < |v|
    ensures multiset(UpdateAt(v, i, priority)) == multiset(Reprioritise(v, v[i].candidate, priority))
  {
    var w := Reprioritise(v, v[i].candidate, priority);
    SiftDownContents(w, i);
    SiftUpContents(SiftDown(w, i), i);
  }

  /** A new priority, higher or lower, at any slot. */
  lemma {:induction false} UpdateKeepsHeap<C>(v: seq<Ticket<C>>, i: nat, priority: nat)
    requires Heap(v) && i < |v| && OnlyAt(v, i)
    ensures Heap(UpdateAt(v, i, priority))
    ensures multiset(UpdateAt(v, i, priority)) == multiset(v) - multiset{v[i]} + multiset{v[i].(priority := priority)}
  {
    var w := v[i := v[i].(priority := priority)];
    assert Reprioritise(v, v[i].candidate, priority) == w;
    RepairAnywhere(v, i, w[i]);
    UpdateContents(v, i, priority);
  }

  // ---------- updating a candidate that is held more than once ----------

  /** `i` is the first slot that holds its candidate. */
  ghost predicate FirstOf<C>(v: seq<Ticket<C>>, i: nat) {
    i < |v| && forall j :: 0 <= j < i ==> v[j].candidate != v[i].candidate
  }

  /** `k` is `i` or above it in the heap. */
  predicate AtOrAbove(k: nat, i: nat)
    decreases i
  {
    k == i || (i > 0 && AtOrAbove(k, Parent(i)))
  }

  /** Slot `k` is where a candidate of this priority may stay: there is no slot above, or none it beats. */
  predicate Rests<C>(v: seq<Ticket<C>>, k: nat, priority: nat)
    requires k < |v|
  {
    k == 0 || v[Parent(k)].priority <= priority
  }

  /** The edge above slot `j`, another slot of the candidate in slot `i`, is in order after the update. */
  predicate EdgeAboveKept<C(==)>(v: seq<Ticket<C>>, i: nat, j: nat, priority: nat)
    requires i < |v| && 0 < j < |v|
  {
    var m, c := Parent(j), v[i].candidate;
    || (v[m].candidate == c && m != i)
    || (v[m].candidate != c && v[m].priority <= priority)
    || (AtOrAbove(m, i) && Rests(v, m, priority))
  }

  /** The edge above slot `k`, when the slot above it is another slot of the candidate in slot `i`. */
  predicate EdgeBelowKept<C(==)>(v: seq<Ticket<C>>, i: nat, k: nat, priority: nat)
    requires i < |v| && 0 < k < |v|
  {
    (v[Parent(k)].candidate == v[i].candidate && Parent(k) != i && v[k].candidate != v[i].candidate)
      ==> priority <= v[k].priority
  }

  ghost predicate EdgeKept<C>(v: seq<Ticket<C>>, i: nat, k: nat, priority: nat)
    requires i < |v| && 0 < k < |v|
  {
    && EdgeBelowKept(v, i, k, priority)
    && (v[k].candidate == v[i].candidate && k != i ==> EdgeAboveKept(v, i, k, priority))
  }

  /** What a caller can check before an update: the edges at the candidate's other slots, which the repair
      around slot `i` does not look at. */
  ghost predicate OtherSlotsKept<C>(v: seq<Ticket<C>>, i: nat, priority: nat)
    requires i < |v|
  {
    forall k :: 0 < k < |v| ==> EdgeKept(v, i, k, priority)
  }

  /** Slot and parent are in order. */
  predicate Edge<C>(v: seq<Ticket<C>>, k: nat) {
    0 < k < |v| ==> v[Parent(k)].priority <= v[k].priority
  }

  /** Sift-down moves nothing that is not smaller than what it sifts, and nothing whose parent is not. */
  lemma {:induction false} SiftDownSpares<C>(v: seq<Ticket<C>>, i: nat, k: nat)
    requires i < |v| && k < |v| && k != i
    requires v[k].priority >= v[i].priority || (k > 0 && Parent(k) != i && v[Parent(k)].priority >= v[i].priority)
    ensures SiftDown(v, i)[k] == v[k]
    decreases |v| - i
  {
    var s := Smallest(v, i);
    if s != i {
      SiftDownSpares(Swap(v, i, s), s, k);
    }
  }

  /** What sift-down leaves in its own slot and above. */
  lemma {:induction false} SiftDownAtTop<C>(v: seq<Ticket<C>>, i: nat)
    requires i < |v|
    ensures SiftDown(v, i)[i] == v[Smallest(v, i)]
    ensures forall k :: 0 <= k < i ==> SiftDown(v, i)[k] == v[k]
    decreases |v| - i
  {
    var s := Smallest(v, i);
    if s != i {
      SiftDownAtTop(Swap(v, i, s), s);
    }
  }

  lemma {:induction false} AboveIsLower(k: nat, i: nat)
    requires AtOrAbove(k, i)
    ensures k <= i
    decreases i
  {
    if k != i {
      AboveIsLower(k, Parent(i));
    }
  }

  /** Slots above `i` are in order with what is above them. */
  ghost predicate PathOrdered<C>(v: seq<Ticket<C>>, i: nat)
    requires i < |v|
  {
    forall k :: 0 < k < i ==> AtOrAbove(k, i) ==> v[Parent(k)].priority <= v[k].priority
  }

  /** What sift-up from slot `i` leaves in slot `k`: the slots on the way up each take what was above them,
      the sifted ticket ends where it rests, and everything else stays. */
  lemma {:induction false} SiftUpAt<C>(v: seq<Ticket<C>>, i: nat, k: nat)
    requires i < |v| && k < |v| && PathOrdered(v, i)
    ensures var r, p := SiftUp(v, i), v[i].priority;
      && (!AtOrAbove(k, i) ==> r[k] == v[k])
      && (AtOrAbove(k, i) && !Rests(v, k, p) ==> r[k] == v[Parent(k)])
      && (AtOrAbove(k, i) && Rests(v, k, p) && (k == i || v[k].priority > p) ==> r[k] == v[i])
      && (AtOrAbove(k, i) && k != i && v[k].priority <= p ==> r[k] == v[k])
    decreases i
  {
    if i > 0 && v[i].priority < v[Parent(i)].priority {
      var m := Parent(i);
      var w := Swap(v, i, m);
      forall x | 0 < x < m && AtOrAbove(x, m) ensures w[Parent(x)].priority <= w[x].priority {
        assert AtOrAbove(x, i);
      }
      SiftUpAt(w, m, k);
      NotAbove(i, m);
      if AtOrAbove(k, m) {
        AboveIsLower(k, m);
      }
    } else if i > 0 && AtOrAbove(k, Parent(i)) {
      AboveIsLower(k, Parent(i));
      AboveStaysLow(v, i, k);
    }
  }

  lemma {:induction false} NotAbove(i: nat, m: nat)
    requires m < i
    ensures !AtOrAbove(i, m)
  {
    if AtOrAbove(i, m) {
      AboveIsLower(i, m);
    }
  }

  /** On an ordered path nothing above is larger than the parent of its end. */
  lemma {:induction false} AboveStaysLow<C>(v: seq<Ticket<C>>, i: nat, k: nat)
    requires 0 < i < |v| && PathOrdered(v, i) && AtOrAbove(k, Parent(i))
    ensures k < |v| && v[k].priority <= v[Parent(i)].priority
    decreases i
  {
    AboveIsLower(k, Parent(i));
    if k != Parent(i) {
      var m := Parent(i);
      assert AtOrAbove(m, i);
      forall x | 0 < x < m && AtOrAbove(x, m) ensures v[Parent(x)].priority <= v[x].priority {
        assert AtOrAbove(x, i);
      }
      AboveStaysLow(v, m, k);
    }
  }

  // The priority rests at slot i: sift-down repairs, and sift-up has nothing to do.

  lemma {:induction false} DownThenStays<C>(v: seq<Ticket<C>>, i: nat, p: nat)
    requires Heap(v) && FirstOf(v, i) && Rests(v, i, p)
    ensures UpdateAt(v, i, p) == SiftDown(Reprioritise(v, v[i].candidate, p), i)
  {
    hide SiftDown;
    var w := Reprioritise(v, v[i].candidate, p);
    var s := Smallest(w, i);
    SiftDownAtTop(w, i);
    if i > 0 {
      assert w[Parent(i)] == v[Parent(i)];
      if s != i {
        assert w[s] == v[s] && Parent(s) == i;
      }
    }
    StaysPut(SiftDown(w, i), i);
  }

  lemma {:induction false} StaysPut<C>(v: seq<Ticket<C>>, i: nat)
    requires i < |v| && (i > 0 ==> v[Parent(i)].priority <= v[i].priority)
    ensures SiftUp(v, i) == v
  {
  }

  lemma {:induction false} RestingKeptIsHeap<C>(v: seq<Ticket<C>>, i: nat, p: nat)
    requires Heap(v) && FirstOf(v, i) && Rests(v, i, p) && OtherSlotsKept(v, i, p)
    ensures Heap(UpdateAt(v, i, p))
  {
    hide SiftDown, SiftUp, Smallest;
    DownThenStays(v, i, p);
    var w := Reprioritise(v, v[i].candidate, p);
    forall k | 0 < k < |w| && Parent(k) != i
      ensures w[Parent(k)].priority <= w[k].priority
    {
      assert EdgeKept(v, i, k, p);
      if i > 0 && k != i && AtOrAbove(Parent(k), i) {
        AboveStaysLow(v, i, Parent(k));
      }
    }
    forall k | 0 < k < |w| && Parent(k) == i && i > 0
      ensures w[Parent(i)].priority <= w[k].priority
    {
      assert v[Parent(i)].priority <= v[i].priority <= v[k].priority;
    }
    SiftDownRepairs(w, i);
  }

  lemma {:induction false} RestingHeapIsKept<C>(v: seq<Ticket<C>>, i: nat, p: nat, k: nat)
    requires Heap(v) && FirstOf(v, i) && Rests(v, i, p) && Heap(UpdateAt(v, i, p)) && 0 < k < |v|
    ensures EdgeKept(v, i, k, p)
  {
    hide SiftDown, SiftUp, Smallest, UpdateAt, Rests;
    DownThenStays(v, i, p);
    var c, m := v[i].candidate, Parent(k);
    var w := Reprioritise(v, c, p);
    var u := SiftDown(w, i);
    assert u[m].priority <= u[k].priority;
    if v[k].candidate == c && k != i {
      SiftDownSpares(w, i, k);
      if v[m].candidate != c && v[m].priority > p {
        SiftDownSpares(w, i, m);
      }
      assert AtOrAbove(i, i);
    } else if v[m].candidate == c && m != i && k != i {
      SiftDownSpares(w, i, m);
      SiftDownSpares(w, i, k);
    }
  }

  // The priority does not rest at slot i: sift-down has nothing to do, and sift-up repairs what it can.

  lemma {:induction false} UpWithoutDown<C>(v: seq<Ticket<C>>, i: nat, p: nat)
    requires Heap(v) && FirstOf(v, i) && !Rests(v, i, p)
    ensures UpdateAt(v, i, p) == SiftUp(Reprioritise(v, v[i].candidate, p), i)
    ensures PathOrdered(Reprioritise(v, v[i].candidate, p), i)
  {
    hide SiftUp;
    var w := Reprioritise(v, v[i].candidate, p);
    forall k | 0 < k < |v| && Parent(k) == i ensures w[i].priority <= w[k].priority {
      assert v[Parent(i)].priority <= v[i].priority <= v[k].priority;
    }
    assert Parent(2 * i + 1) == i && Parent(2 * i + 2) == i;
    forall k | 0 < k < i && AtOrAbove(k, i) ensures w[Parent(k)].priority <= w[k].priority {
      assert w[k] == v[k] && w[Parent(k)] == v[Parent(k)];
    }
  }

  /** The ticket in slot `k` after the rise, in terms of the heap before. */
  lemma {:induction false} AfterRise<C>(v: seq<Ticket<C>>, i: nat, p: nat, k: nat)
    requires Heap(v) && FirstOf(v, i) && !Rests(v, i, p) && k < |v|
    ensures var r := UpdateAt(v, i, p)[k].priority;
      && (!AtOrAbove(k, i) ==> r == if v[k].candidate == v[i].candidate then p else v[k].priority)
      && (AtOrAbove(k, i) && !Rests(v, k, p) ==> r == v[Parent(k)].priority)
      && (AtOrAbove(k, i) && Rests(v, k, p) ==> k != i && r == if v[k].priority > p then p else v[k].priority)
    ensures AtOrAbove(k, i) ==> k <= i && (k != i ==> v[k].candidate != v[i].candidate)
  {
    hide SiftUp, SiftDown, UpdateAt, AtOrAbove;
    UpWithoutDown(v, i, p);
    var w := Reprioritise(v, v[i].candidate, p);
    SiftUpAt(w, i, k);
    if AtOrAbove(k, i) {
      AboveIsLower(k, i);
    }
  }

  lemma {:induction false} RisenEdge<C>(v: seq<Ticket<C>>, i: nat, p: nat, k: nat)
    requires Heap(v) && FirstOf(v, i) && !Rests(v, i, p) && 0 < k < |v|
    ensures Edge(UpdateAt(v, i, p), k) <==> EdgeKept(v, i, k, p)
  {
    hide UpdateAt;
    var m := Parent(k);
    UpdatedLength(v, i, p);
    AfterRise(v, i, p, k);
    AfterRise(v, i, p, m);
    assert AtOrAbove(i, i);
    if k != i && AtOrAbove(m, i) && v[k].candidate == v[i].candidate {
      assert v[Parent(i)].priority <= v[i].priority;
    }
    assert v[m].priority <= v[k].priority;
    assert m > 0 ==> v[Parent(m)].priority <= v[m].priority;
    if AtOrAbove(k, i) {
      ParentAlsoAbove(k, i);
    }
  }

  lemma {:induction false} ParentAlsoAbove(k: nat, i: nat)
    requires k > 0 && AtOrAbove(k, i)
    ensures AtOrAbove(Parent(k), i)
    decreases i
  {
    if k != i {
      ParentAlsoAbove(k, Parent(i));
    } else {
      assert AtOrAbove(Parent(i), Parent(i));
    }
  }

  /** A new priority for a candidate that may be held more than once, repaired around its first slot: the
      order is kept if and only if the edges at its other slots allow it. */
  lemma {:induction false} UpdateKeepsHeapIff<C>(v: seq<Ticket<C>>, i: nat, priority: nat)
    requires Heap(v) && FirstOf(v, i)
    ensures Heap(UpdateAt(v, i, priority)) <==> OtherSlotsKept(v, i, priority)
  {
    hide UpdateAt, EdgeKept, Edge;
    if Rests(v, i, priority) {
      if OtherSlotsKept(v, i, priority) {
        RestingKeptIsHeap(v, i, priority);
      }
      if Heap(UpdateAt(v, i, priority)) {
        forall k | 0 < k < |v| ensures EdgeKept(v, i, k, priority) {
          RestingHeapIsKept(v, i, priority, k);
        }
      }
    } else {
      forall k | 0 < k < |v| ensures Edge(UpdateAt(v, i, priority), k) <==> EdgeKept(v, i, k, priority) {
        RisenEdge(v, i, priority, k);
      }
      HeapEdgeByEdge(UpdateAt(v, i, priority));
      UpdatedLength(v, i, priority);
    }
  }

  lemma {:induction false} UpdatedLength<C>(v: seq<Ticket<C>>, i: nat, p: nat)
    requires i < |v|
    ensures |UpdateAt(v, i, p)| == |v|
  {
  }

  lemma {:induction false} HeapEdgeByEdge<C>(v: seq<Ticket<C>>)
    ensures Heap(v) <==> forall k :: 0 < k < |v| ==> Edge(v, k)
  {
    if forall k :: 0 < k < |v| ==> Edge(v, k) {
      forall k | 0 < k < |v| ensures v[Parent(k)].priority <= v[k].priority {
        assert Edge(v, k);
      }
    }
  }

  /** Held once, a candidate has no other slots. */
  lemma {:induction false} HeldOnceIsKept<C>(v: seq<Ticket<C>>, i: nat, priority: nat)
    requires i < |v| && OnlyAt(v, i)
    ensures FirstOf(v, i) && OtherSlotsKept(v, i, priority)
  {
  }

  /** Such a case: with one candidate in two slots, the repair around the first slot leaves the second
      out of order. */
  lemma {:induction false} UpdateNeedsDistinctCandidates()
    ensures exists v: seq<Ticket<nat>>, i: nat, priority: nat ::
      i < |v| && Heap(v) && !Heap(UpdateAt(v, i, priority))
  {
    var a: Ticket<nat>, b: Ticket<nat> := Ticket(1, "a", 5), Ticket(2, "b", 6);
    var v: seq<Ticket<nat>> := [a, a, b, b];
    var low := a.(priority := 9);
    var w, r := [low, low, b, b], [b, low, low, b];
    assert Heap(v);
    assert Reprioritise(v, v[0].candidate, 9) == w;
    assert Smallest(w, 0) == 2 && Swap(w, 0, 2) == r;
    assert Smallest(r, 2) == 2 && SiftDown(r, 2) == r;
    assert SiftDown(w, 0) == r;
    assert UpdateAt(v, 0, 9) == r;
    assert r[Parent(3)].priority > r[3].priority;
    assert 0 < |v| && Heap(v) && !Heap(UpdateAt(v, 0, 9));
  }

  // ---------- draining ----------

  /** The tickets in the order in which repeated dequeues return them. */
  ghost function Drain<C>(v: seq<Ticket<C>>): seq<Ticket<C>>
    requires Heap(v)
    decreases |v|
  {
    if v == [] then [] else
      PopKeepsHeap(v);
      [v[0]] + Drain(Pop(v))
  }

  ghost predicate Ascending<C>(v: seq<Ticket<C>>) {
    forall i, j :: 0 <= i < j < |v| ==> v[i].priority <= v[j].priority
  }

  lemma {:induction false} Prepend<C>(t: Ticket<C>, rest: seq<Ticket<C>>, all: multiset<Ticket<C>>)
    requires Ascending(rest) && t in all && multiset(rest) == all - multiset{t}
    requires forall u :: u in all ==> t.priority <= u.priority
    ensures Ascending([t] + rest) && multiset([t] + rest) == all
  {
    forall j | 0 <= j < |rest|
      ensures t.priority <= rest[j].priority
    {
      assert rest[j] in multiset(rest);
    }
  }

  /** Draining a heap sorts it. */
  lemma {:induction false} DrainSorts<C>(v: seq<Ticket<C>>)
    requires Heap(v)
    ensures multiset(Drain(v)) == multiset(v) && Ascending(Drain(v))
    decreases |v|
  {
    if v != [] {
      PopKeepsHeap(v);
      hide Pop, Heap, Ascending;
      DrainSorts(Pop(v));
      assert v[0] in v;
      Prepend(v[0], Drain(Pop(v)), multiset(v));
    }
  }
}

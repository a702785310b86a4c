/** The promising queue: the heap in an array of candidate pointers, sifted in place. */
module PromisingQueues {
  import opened PriorityHeap

  /** The error codes the queue returns. `Waits` is not one: it is the caller going to sleep. */
  datatype Outcome = Success | InvalidState | NoMemory | NotFound | Waits

  class Candidate {
    const uuid: string
    var priority: nat

    constructor (uuid: string, priority: nat)
      ensures this.uuid == uuid && this.priority == priority
    {
      this.uuid, this.priority := uuid, priority;
    }
  }

  class PromisingQueue {
    var entries: array<Candidate?>
    var count: nat
    var capacity: nat
    var shutdown: bool

    ghost predicate Valid()
      reads this, entries
    {
      && capacity > 0 && entries.Length == capacity && count <= capacity
      && forall i :: 0 <= i < count ==> entries[i] != null
    }

    /** The first `n` slots with what their candidates say now. */
    ghost function View(n: nat): (v: seq<Ticket<Candidate>>)
      requires n <= entries.Length && forall i :: 0 <= i < n ==> entries[i] != null
      reads this, entries, entries[..]
      ensures |v| == n
    {
      seq(n, i requires 0 <= i < n <= entries.Length && entries[i] != null reads this, entries, entries[..] =>
        Ticket(entries[i], entries[i].uuid, entries[i].priority))
    }

    /** The queue's contents in heap order. */
    ghost function Slots(): seq<Ticket<Candidate>>
      requires Valid()
      reads this, entries, entries[..]
    {
      View(count)
    }

    constructor (initialCapacity: nat)
      ensures Valid() && fresh(entries)
      ensures Slots() == [] && !shutdown && capacity == if initialCapacity > 0 then initialCapacity else 16
    {
      capacity := if initialCapacity > 0 then initialCapacity else 16;
      count, shutdown := 0, false;
      entries := new Candidate?[if initialCapacity > 0 then initialCapacity else 16];
    }

    method SwapEntries(i: nat, j: nat, ghost n: nat)
      requires i < n && j < n <= entries.Length && forall k :: 0 <= k < n ==> entries[k] != null
      modifies entries
      ensures forall k :: 0 <= k < n ==> entries[k] != null
      ensures View(n) == Swap(old(View(n)), i, j)
      ensures forall k :: n <= k < entries.Length ==> entries[k] == old(entries[k])
    {
      entries[i], entries[j] := entries[j], entries[i];
    }

    method HeapifyUp(start: nat, ghost n: nat)
      requires start < n <= entries.Length && forall k :: 0 <= k < n ==> entries[k] != null
      modifies entries
      ensures forall k :: 0 <= k < n ==> entries[k] != null
      ensures View(n) == SiftUp(old(View(n)), start)
      ensures forall k :: n <= k < entries.Length ==> entries[k] == old(entries[k])
    {
      var index: nat := start;
      while index > 0
        invariant index < n && forall k :: 0 <= k < n ==> entries[k] != null
        invariant SiftUp(View(n), index) == SiftUp(old(View(n)), start)
        invariant forall k :: n <= k < entries.Length ==> entries[k] == old(entries[k])
      {
        var parent := (index - 1) / 2;
        if entries[index].priority < entries[parent].priority {
          SwapEntries(index, parent, n);
          index := parent;
        } else {
          break;
        }
      }
    }

    /** The smallest of a slot and its children. */
    method SmallestOf(index: nat) returns (smallest: nat)
      requires index < count <= entries.Length && forall k :: 0 <= k < count ==> entries[k] != null
      ensures smallest == Smallest(View(count), index) && index <= smallest < count
    {
      var left := 2 * index + 1;
      var right := 2 * index + 2;
      smallest := index;
      if left < count && entries[left].priority < entries[smallest].priority {
        smallest := left;
      }
      if right < count && entries[right].priority < entries[smallest].priority {
        smallest := right;
      }
    }

    method HeapifyDown(start: nat)
      requires start < count <= entries.Length && forall k :: 0 <= k < count ==> entries[k] != null
      modifies entries
      ensures forall k :: 0 <= k < count ==> entries[k] != null
      ensures View(count) == SiftDown(old(View(count)), start)
    {
      hide SiftDown, Smallest, Swap;
      var index: nat := start;
      while true
        invariant index < count && forall k :: 0 <= k < count ==> entries[k] != null
        invariant SiftDown(View(count), index) == SiftDown(old(View(count)), start)
        decreases count - index
      {
        SiftDownStep(View(count), index);
        var smallest := SmallestOf(index);
        if smallest != index {
          SwapEntries(index, smallest, count);
          index := smallest;
        } else {
          break;
        }
      }
    }

    /** `memory` is the allocator's answer should the array have to grow. */
    method Enqueue(candidate: Candidate, memory: bool) returns (outcome: Outcome)
      requires Valid()
      modifies this, entries
      ensures Valid() && (entries == old(entries) || fresh(entries)) && shutdown == old(shutdown)
      ensures outcome == if shutdown then InvalidState
                         else if old(count == capacity) && !memory then NoMemory else Success
      ensures capacity == if outcome == Success && old(count == capacity) then 2 * old(capacity) else old(capacity)
      ensures Slots() == if outcome == Success
                         then Push(old(Slots()), Ticket(candidate, candidate.uuid, candidate.priority))
                         else old(Slots())
    {
      hide SiftUp;
      if shutdown {
        return InvalidState;
      }
      if count == capacity {
        if !memory {
          return NoMemory;
        }
        Grow();
      }
      Append(candidate);
      return Success;
    }

    /** The candidate goes to the end of the heap and up. */
    method Append(candidate: Candidate)
      requires Valid() && count < capacity
      modifies this`count, entries
      ensures Valid() && Slots() == Push(old(Slots()), Ticket(candidate, candidate.uuid, candidate.priority))
    {
      hide SiftUp;
      ghost var before := Slots();
      entries[count] := candidate;
      assert View(count + 1) == before + [Ticket(candidate, candidate.uuid, candidate.priority)];
      HeapifyUp(count, count + 1);
      count := count + 1;
    }

    method Grow()
      requires Valid() && count == capacity
      modifies this
      ensures Valid() && fresh(entries) && capacity == 2 * old(capacity)
      ensures count == old(count) && shutdown == old(shutdown) && Slots() == old(Slots())
    {
      var newEntries := new Candidate?[capacity * 2];
      forall i | 0 <= i < capacity {
        newEntries[i] := entries[i];
      }
      entries := newEntries;
      capacity := capacity * 2;
    }

    /** One acquisition of the lock by `dequeue`: sleep, give up, or take the root. */
    method Dequeue() returns (outcome: Outcome, out: Candidate?)
      requires Valid()
      modifies this, entries
      ensures Valid() && entries == old(entries) && shutdown == old(shutdown)
      ensures outcome == if old(count) > 0 then Success else if shutdown then NotFound else Waits
      ensures outcome != Success ==> Slots() == old(Slots())
      ensures outcome == Success ==> out == old(Slots())[0].candidate && Slots() == Pop(old(Slots()))
    {
      if count == 0 && !shutdown {
        return Waits, null;
      }
      if shutdown && count == 0 {
        return NotFound, null;
      }
      ghost var before := Slots();
      out := entries[0];
      entries[0] := entries[count - 1];
      count := count - 1;
      assert Slots() == before[0 := before[|before| - 1]][..|before| - 1];
      if count > 0 {
        HeapifyDown(0);
      }
      outcome := Success;
    }

    /** The slot search shared by removal and priority update. */
    method FindUuid(uuid: string) returns (i: nat)
      requires Valid()
      ensures i == Find(Slots(), uuid)
    {
      i := 0;
      ghost var v := Slots();
      while i < count
        invariant i <= count
        invariant forall j :: 0 <= j < i ==> v[j].uuid != uuid
      {
        if entries[i].uuid == uuid {
          assert v[i].uuid == uuid;
          return;
        }
        i := i + 1;
      }
    }

    method Remove(uuid: string) returns (outcome: Outcome)
      requires Valid()
      modifies this, entries
      ensures Valid() && entries == old(entries) && shutdown == old(shutdown)
      ensures outcome == if exists t :: t in old(Slots()) && t.uuid == uuid then Success else NotFound
      ensures var i := Find(old(Slots()), uuid);
        Slots() == if outcome == Success then RemoveAt(old(Slots()), i) else old(Slots())
    {
      ghost var before := Slots();
      var i := FindUuid(uuid);
      if i < count {
        assert before[i] in before;
        RemoveSlot(i);
        return Success;
      }
      return NotFound;
    }

    /** The last entry moves over slot `i` and is sifted down, then up. */
    method RemoveSlot(i: nat)
      requires Valid() && i < count
      modifies this, entries
      ensures Valid() && entries == old(entries) && shutdown == old(shutdown)
      ensures Slots() == RemoveAt(old(Slots()), i)
    {
      hide SiftUp, SiftDown;
      ghost var before := Slots();
      entries[i] := entries[count - 1];
      count := count - 1;
      assert Slots() == before[i := before[|before| - 1]][..|before| - 1];
      if i < count {
        HeapifyDown(i);
        HeapifyUp(i, count);
      }
    }

    method SetPriority(i: nat, newPriority: nat)
      requires Valid() && i < count
      modifies entries[i]
      ensures Slots() == Reprioritise(old(Slots()), entries[i], newPriority)
    {
      entries[i].priority := newPriority;
    }

    method UpdatePriority(uuid: string, newPriority: nat) returns (outcome: Outcome)
      requires Valid()
      modifies entries, entries[..]
      ensures Valid()
      ensures outcome == if exists t :: t in old(Slots()) && t.uuid == uuid then Success else NotFound
      ensures var i := Find(old(Slots()), uuid);
        Slots() == if outcome == Success then UpdateAt(old(Slots()), i, newPriority) else old(Slots())
    {
      hide SiftUp, SiftDown;
      ghost var before := Slots();
      var i := FindUuid(uuid);
      if i < count {
        assert before[i] in before;
        SetPriority(i, newPriority);
        HeapifyDown(i);
        HeapifyUp(i, count);
        return Success;
      }
      return NotFound;
    }

    method Shutdown()
      requires Valid()
      modifies this
      ensures Valid() && shutdown && entries == old(entries) && Slots() == old(Slots())
    {
      shutdown := true;
    }
  }
}

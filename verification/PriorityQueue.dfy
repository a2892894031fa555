/** A priority queue over a list of (value, priority) items: enqueue adds at
    the back, dequeue scans for the first item of highest priority and
    removes it in place, so ties come out first-in first-out. */
module PriorityQueues {
  import opened Exceptions

  /** An item with its value and priority (higher number, higher priority). */
  datatype PriorityItem = PriorityItem(value: string, priority: int)

  /** The position of the first item whose priority is the highest. */
  function FirstMaxIndex(items: seq<PriorityItem>): (k: nat)
    requires items != []
    ensures k < |items|
    ensures forall j :: 0 <= j < |items| ==> items[j].priority <= items[k].priority
    ensures forall j :: 0 <= j < k ==> items[j].priority < items[k].priority
  {
    if |items| == 1 then 0
    else
      var k := FirstMaxIndex(items[..|items| - 1]);
      if items[|items| - 1].priority > items[k].priority then |items| - 1 else k
  }

  /** The first highest-priority position is the only one that has the
      highest priority and beats everything before it. */
  lemma FirstMaxIndexUnique(items: seq<PriorityItem>, k: int)
    requires 0 <= k < |items|
    requires forall j :: 0 <= j < |items| ==> items[j].priority <= items[k].priority
    requires forall j :: 0 <= j < k ==> items[j].priority < items[k].priority
    ensures k == FirstMaxIndex(items)
  {
  }

  /** `items` without position `k`. */
  function RemoveAt(items: seq<PriorityItem>, k: nat): (r: seq<PriorityItem>)
    requires k < |items|
    ensures |r| == |items| - 1
    ensures forall j :: 0 <= j < k ==> r[j] == items[j]
    ensures forall j :: k <= j < |r| ==> r[j] == items[j + 1]
  {
    items[..k] + items[k + 1..]
  }

  /** Removing position `k` takes exactly that one item out. */
  lemma RemoveAtMultiset(items: seq<PriorityItem>, k: nat)
    requires k < |items|
    ensures multiset(RemoveAt(items, k)) + multiset{items[k]} == multiset(items)
  {
    assert items == items[..k] + [items[k]] + items[k + 1..];
  }

  class PriorityQueue {
    /** The items in the order they were enqueued. */
    var queue: seq<PriorityItem>

    constructor ()
      ensures queue == []
    {
      queue := [];
    }

    /** Adds the item at the back. */
    method Enqueue(value: string, priority: int)
      modifies this
      ensures queue == old(queue) + [PriorityItem(value, priority)]
    {
      var newItem := PriorityItem(value, priority);
      queue := queue + [newItem];
    }

    /** Removes and returns the value of the first item of highest priority;
        fails with "The queue is empty." when there is none. */
    method Dequeue() returns (r: Result<string>)
      modifies this
      ensures old(queue) == [] ==>
        r == Failure(InvalidOperation("The queue is empty.")) && queue == old(queue)
      ensures old(queue) != [] ==>
        var k := FirstMaxIndex(old(queue));
        r == Success(old(queue)[k].value) && queue == RemoveAt(old(queue), k)
    {
      if |queue| == 0 {
        return Failure(InvalidOperation("The queue is empty."));
      }
      var highestPriorityIndex := 0;
      for index := 1 to |queue|
        invariant highestPriorityIndex == FirstMaxIndex(queue[..index])
      {
        assert queue[..index + 1][..index] == queue[..index];
        if queue[index].priority > queue[highestPriorityIndex].priority {
          highestPriorityIndex := index;
        }
      }
      assert queue[..|queue|] == queue;
      var value := queue[highestPriorityIndex].value;
      queue := RemoveAt(queue, highestPriorityIndex);
      return Success(value);
    }
  }

  /** The items in the order successive dequeues remove them. */
  function DrainItems(items: seq<PriorityItem>): seq<PriorityItem>
    decreases |items|
  {
    if items == [] then []
    else
      var k := FirstMaxIndex(items);
      [items[k]] + DrainItems(RemoveAt(items, k))
  }

  /** Draining gives back exactly the enqueued items. */
  lemma {:induction false} DrainItemsPermutes(items: seq<PriorityItem>)
    ensures multiset(DrainItems(items)) == multiset(items)
    decreases |items|
  {
    if items != [] {
      var k := FirstMaxIndex(items);
      RemoveAtMultiset(items, k);
      DrainItemsPermutes(RemoveAt(items, k));
    }
  }

  /** Draining never produces a priority above a bound all items respect. */
  lemma {:induction false} DrainItemsBounded(items: seq<PriorityItem>, m: int)
    requires forall i :: 0 <= i < |items| ==> items[i].priority <= m
    ensures forall i :: 0 <= i < |DrainItems(items)| ==> DrainItems(items)[i].priority <= m
    decreases |items|
  {
    if items != [] {
      var k := FirstMaxIndex(items);
      DrainItemsBounded(RemoveAt(items, k), m);
    }
  }

  /** Draining yields non-increasing priorities. */
  lemma {:induction false} DrainItemsOrdered(items: seq<PriorityItem>)
    ensures forall i, j :: 0 <= i < j < |DrainItems(items)| ==>
      DrainItems(items)[i].priority >= DrainItems(items)[j].priority
    decreases |items|
  {
    if items != [] {
      var k := FirstMaxIndex(items);
      var rest := RemoveAt(items, k);
      DrainItemsOrdered(rest);
      DrainItemsBounded(rest, items[k].priority);
      var d := DrainItems(items);
      assert d == [items[k]] + DrainItems(rest);
      assert forall j :: 1 <= j < |d| ==> d[j] == DrainItems(rest)[j - 1];
    }
  }

  /** The items of priority `p`, in order. */
  function WithPriority(items: seq<PriorityItem>, p: int): (r: seq<PriorityItem>)
    ensures forall i :: 0 <= i < |r| ==> r[i].priority == p
    ensures |r| <= |items|
  {
    if items == [] then []
    else (if items[0].priority == p then [items[0]] else []) + WithPriority(items[1..], p)
  }

  lemma {:induction false} WithPriorityAppend(a: seq<PriorityItem>, b: seq<PriorityItem>, p: int)
    ensures WithPriority(a + b, p) == WithPriority(a, p) + WithPriority(b, p)
    decreases |a|
  {
    if a != [] {
      var h := if a[0].priority == p then [a[0]] else [];
      assert (a + b)[0] == a[0] && (a + b)[1..] == a[1..] + b;
      assert WithPriority(a + b, p) == h + WithPriority(a[1..] + b, p);
      WithPriorityAppend(a[1..], b, p);
    } else {
      assert a + b == b;
    }
  }

  /** No item has priority `p`, so none is kept. */
  lemma {:induction false} WithPriorityNone(items: seq<PriorityItem>, p: int)
    requires forall i :: 0 <= i < |items| ==> items[i].priority != p
    ensures WithPriority(items, p) == []
  {
    if items != [] {
      WithPriorityNone(items[1..], p);
    }
  }

  /** The items of priority `p` before, at and after position `k`. */
  lemma WithPriorityAround(items: seq<PriorityItem>, k: nat, p: int)
    requires k < |items|
    ensures WithPriority(items, p) ==
      WithPriority(items[..k], p)
      + ((if items[k].priority == p then [items[k]] else []) + WithPriority(items[k + 1..], p))
  {
    assert items == items[..k] + ([items[k]] + items[k + 1..]);
    WithPriorityAppend(items[..k], [items[k]] + items[k + 1..], p);
    assert [items[k]][1..] == [];
    WithPriorityAppend([items[k]], items[k + 1..], p);
  }

  /** Removing the first item of its priority keeps the items of every
      other priority, and of its own priority removes the first. */
  lemma WithPriorityRemoveAt(items: seq<PriorityItem>, k: nat, p: int)
    requires k < |items|
    requires forall j :: 0 <= j < k ==> items[j].priority != items[k].priority
    ensures WithPriority(items, p) ==
      (if items[k].priority == p then [items[k]] else []) + WithPriority(RemoveAt(items, k), p)
  {
    var h := if items[k].priority == p then [items[k]] else [];
    var wb, wa := WithPriority(items[..k], p), WithPriority(items[k + 1..], p);
    WithPriorityAround(items, k, p);
    assert RemoveAt(items, k) == items[..k] + items[k + 1..];
    WithPriorityAppend(items[..k], items[k + 1..], p);
    if items[k].priority == p {
      WithPriorityNone(items[..k], p);
      assert wb + (h + wa) == h + (wb + wa);
    }
  }

  /** Draining keeps the items of each priority in enqueue order: among
      ties, first in is first out. */
  lemma {:induction false} DrainItemsStable(items: seq<PriorityItem>, p: int)
    ensures WithPriority(DrainItems(items), p) == WithPriority(items, p)
    decreases |items|
  {
    if items != [] {
      var k := FirstMaxIndex(items);
      var rest := RemoveAt(items, k);
      DrainItemsStable(rest, p);
      WithPriorityAppend([items[k]], DrainItems(rest), p);
      assert [items[k]][1..] == [];
      WithPriorityRemoveAt(items, k, p);
    }
  }

  /** A dequeue takes the head of the drain order and leaves the drain
      order of what remains. */
  lemma DequeueIsDrainHead(items: seq<PriorityItem>)
    requires items != []
    ensures DrainItems(items)[0] == items[FirstMaxIndex(items)]
    ensures DrainItems(items)[1..] == DrainItems(RemoveAt(items, FirstMaxIndex(items)))
  {
  }

  /** A, B, C and D enqueued with priorities 1, 5, 5 and 3 come out as B
      and C (the tie in enqueue order), then D and A, and one dequeue too
      many fails. */
  method DequeueExample() returns (out: seq<Result<string>>)
    ensures out == [Success("B"), Success("C"), Success("D"), Success("A"),
                    Failure(InvalidOperation("The queue is empty."))]
  {
    var pq := new PriorityQueue();
    pq.Enqueue("A", 1);
    pq.Enqueue("B", 5);
    pq.Enqueue("C", 5);
    pq.Enqueue("D", 3);
    var first := DequeueFirstTwo(pq);
    var rest := DequeueLastTwo(pq);
    out := first + rest;
  }

  /** The start of the run above: B and C tie on the highest priority and
      leave in the order they came. */
  method DequeueFirstTwo(pq: PriorityQueue) returns (out: seq<Result<string>>)
    requires pq.queue == [PriorityItem("A", 1), PriorityItem("B", 5), PriorityItem("C", 5), PriorityItem("D", 3)]
    modifies pq
    ensures out == [Success("B"), Success("C")]
    ensures pq.queue == [PriorityItem("A", 1), PriorityItem("D", 3)]
  {
    var a, c, d := PriorityItem("A", 1), PriorityItem("C", 5), PriorityItem("D", 3);
    FirstMaxIndexUnique(pq.queue, 1);
    var r1 := pq.Dequeue();
    assert pq.queue == [a, c, d];
    FirstMaxIndexUnique([a, c, d], 1);
    var r2 := pq.Dequeue();
    out := [r1, r2];
  }

  /** The end of the run above: from A (priority 1) and D (priority 3), D
      comes out first, then A, then the queue is empty. */
  method DequeueLastTwo(pq: PriorityQueue) returns (out: seq<Result<string>>)
    requires pq.queue == [PriorityItem("A", 1), PriorityItem("D", 3)]
    modifies pq
    ensures out == [Success("D"), Success("A"), Failure(InvalidOperation("The queue is empty."))]
    ensures pq.queue == []
  {
    FirstMaxIndexUnique(pq.queue, 1);
    var r3 := pq.Dequeue();
    assert pq.queue == [PriorityItem("A", 1)];
    var r4 := pq.Dequeue();
    var r5 := pq.Dequeue();
    out := [r3, r4, r5];
  }
}

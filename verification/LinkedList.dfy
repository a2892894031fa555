/** The doubly linked list of integers: nodes linked both ways, a head and a
    tail reference, insertions and removals that rewire links in place. */
module LinkedLists {
  import opened ListSpec
  import opened Text

  class Node {
    var data: int
    var next: Node?
    var prev: Node?

    constructor (data: int)
      ensures this.data == data && next == null && prev == null
    {
      this.data := data;
      next := null;
      prev := null;
    }
  }

  class LinkedList {
    var head: Node?
    var tail: Node?

    /** The nodes from head to tail. */
    ghost var Nodes: seq<Node>
    /** The values the list holds, head to tail. */
    ghost var Contents: seq<int>
    /** Every node this list has created; the ones still linked are `Nodes`. */
    ghost var Repr: set<Node>

    /** The list invariant: head and tail are null together, exactly when
        the list is empty; each adjacent pair of nodes is linked both ways,
        the head has no predecessor and the tail no successor; and the nodes
        carry `Contents`. That no node occurs twice follows (DistinctNodes). */
    ghost predicate Valid()
      reads this, Repr
    {
      && |Nodes| == |Contents|
      && (forall i :: 0 <= i < |Nodes| ==> Nodes[i] in Repr)
      && (head == null <==> Nodes == [])
      && (tail == null <==> Nodes == [])
      && (Nodes != [] ==>
            && head == Nodes[0] && tail == Nodes[|Nodes| - 1]
            && Nodes[0].prev == null && Nodes[|Nodes| - 1].next == null)
      && (forall i :: 0 <= i < |Nodes| ==> Nodes[i].data == Contents[i])
      && (forall i :: 0 <= i < |Nodes| - 1 ==> Nodes[i].next == Nodes[i + 1])
      && (forall i :: 0 < i < |Nodes| ==> Nodes[i].prev == Nodes[i - 1])
    }

    /** No node occurs twice in the chain: walking `prev` back from two
        positions of the same node would reach the head's missing
        predecessor at two different times. */
    lemma {:induction false} DistinctNodes(i: int, j: int)
      requires Valid() && 0 <= i < j < |Nodes|
      ensures Nodes[i] != Nodes[j]
      decreases i
    {
      assert Nodes[j].prev == Nodes[j - 1];
      if i > 0 {
        assert Nodes[i].prev == Nodes[i - 1];
        DistinctNodes(i - 1, j - 1);
      }
    }

    /** The node at `k` occurs nowhere else in the chain. */
    lemma DistinctFrom(k: int)
      requires Valid() && 0 <= k < |Nodes|
      ensures forall j :: 0 <= j < |Nodes| && j != k ==> Nodes[j] != Nodes[k]
    {
      forall j | 0 <= j < |Nodes| && j != k
        ensures Nodes[j] != Nodes[k]
      {
        if j < k { DistinctNodes(j, k); } else { DistinctNodes(k, j); }
      }
    }

    constructor ()
      ensures Valid() && fresh(Repr)
      ensures Contents == [] && Nodes == []
    {
      head := null;
      tail := null;
      Nodes := [];
      Contents := [];
      Repr := {};
    }

    /** The list invariant holds of `Nodes` and `Contents` once they are
        non-empty `nodes` and `contents` with `n` put in front, when the links
        of `nodes` are intact and `n` is linked before its first node. */
    lemma PrependedValid(nodes: seq<Node>, contents: seq<int>, n: Node)
      requires nodes != [] && |nodes| == |contents|
      requires Nodes == [n] + nodes && Contents == [n.data] + contents
      requires forall k :: 0 <= k < |Nodes| ==> Nodes[k] in Repr
      requires head == n && tail == nodes[|nodes| - 1]
      requires n.prev == null && n.next == nodes[0] && nodes[0].prev == n
      requires nodes[|nodes| - 1].next == null
      requires forall k :: 0 <= k < |nodes| ==> nodes[k].data == contents[k]
      requires forall k :: 0 <= k < |nodes| - 1 ==> nodes[k].next == nodes[k + 1]
      requires forall k :: 0 < k < |nodes| ==> nodes[k].prev == nodes[k - 1]
      ensures Valid()
    {
      assert forall k :: 0 < k < |Nodes| ==> Nodes[k] == nodes[k - 1] && Contents[k] == contents[k - 1];
      forall k | 0 < k < |Nodes| - 1
        ensures Nodes[k].next == Nodes[k + 1]
      {
        assert Nodes[k] == nodes[k - 1] && Nodes[k + 1] == nodes[k];
      }
      forall k | 1 < k < |Nodes|
        ensures Nodes[k].prev == Nodes[k - 1]
      {
        assert Nodes[k] == nodes[k - 1] && Nodes[k - 1] == nodes[k - 2];
      }
    }

    /** The list invariant holds of `Nodes` and `Contents` once they are
        non-empty `nodes` and `contents` with `n` put at the end, when the
        links of `nodes` are intact and `n` is linked after its last node. */
    lemma AppendedValid(nodes: seq<Node>, contents: seq<int>, n: Node)
      requires nodes != [] && |nodes| == |contents|
      requires Nodes == nodes + [n] && Contents == contents + [n.data]
      requires forall k :: 0 <= k < |Nodes| ==> Nodes[k] in Repr
      requires head == nodes[0] && tail == n
      requires n.next == null && n.prev == nodes[|nodes| - 1] && nodes[|nodes| - 1].next == n
      requires nodes[0].prev == null
      requires forall k :: 0 <= k < |nodes| ==> nodes[k].data == contents[k]
      requires forall k :: 0 <= k < |nodes| - 1 ==> nodes[k].next == nodes[k + 1]
      requires forall k :: 0 < k < |nodes| ==> nodes[k].prev == nodes[k - 1]
      ensures Valid()
    {
      assert forall k :: 0 <= k < |nodes| ==> Nodes[k] == nodes[k] && Contents[k] == contents[k];
      forall k | 0 <= k < |Nodes| - 2
        ensures Nodes[k].next == Nodes[k + 1]
      {
        assert Nodes[k] == nodes[k] && Nodes[k + 1] == nodes[k + 1];
      }
      forall k | 0 < k < |Nodes| - 1
        ensures Nodes[k].prev == Nodes[k - 1]
      {
        assert Nodes[k] == nodes[k] && Nodes[k - 1] == nodes[k - 1];
      }
    }

    /** Puts `value` in a new node in front of the head. */
    method InsertHead(value: int)
      requires Valid()
      modifies this, Repr
      ensures Valid() && fresh(Repr - old(Repr))
      ensures Contents == [value] + old(Contents)
      ensures fresh(Nodes[0]) && Nodes[1..] == old(Nodes)
      ensures old(Contents) == [] ==> head == tail && head != null
    {
      ghost var nodes, contents := Nodes, Contents;
      var newNode := new Node(value);
      if head == null {
        head := newNode;
        tail := newNode;
        Nodes := [newNode];
        Contents := [value];
        Repr := Repr + {newNode};
      } else {
        DistinctFrom(0);
        newNode.next := head;
        head.prev := newNode;
        head := newNode;
        Nodes := [newNode] + nodes;
        Contents := [value] + contents;
        Repr := Repr + {newNode};
        PrependedValid(nodes, contents, newNode);
      }
    }

    /** Puts `value` in a new node after the tail. */
    method InsertTail(value: int)
      requires Valid()
      modifies this, Repr
      ensures Valid() && fresh(Repr - old(Repr))
      ensures Contents == old(Contents) + [value]
      ensures fresh(Nodes[|Nodes| - 1]) && Nodes[..|Nodes| - 1] == old(Nodes)
      ensures old(Contents) == [] ==> head == tail && head != null
    {
      ghost var nodes, contents := Nodes, Contents;
      var newNode := new Node(value);
      if tail == null {
        head := newNode;
        tail := newNode;
        Nodes := [newNode];
        Contents := [value];
        Repr := Repr + {newNode};
      } else {
        DistinctFrom(|nodes| - 1);
        tail.next := newNode;
        newNode.prev := tail;
        tail := newNode;
        Nodes := nodes + [newNode];
        Contents := contents + [value];
        Repr := Repr + {newNode};
        AppendedValid(nodes, contents, newNode);
      }
    }

    /** Puts `newValue` in a new node right after the first node holding
        `value`; does nothing when no node holds it. */
    method InsertAfter(value: int, newValue: int)
      requires Valid()
      modifies this, Repr
      ensures Valid() && fresh(Repr - old(Repr))
      ensures Contents == InsertAfterFirst(old(Contents), value, newValue)
    {
      var curr := head;
      ghost var i := 0;
      while curr != null
        invariant Valid() && Nodes == old(Nodes) && Contents == old(Contents) && Repr == old(Repr)
        invariant head == old(head) && tail == old(tail)
        invariant 0 <= i <= |Nodes|
        invariant curr == if i < |Nodes| then Nodes[i] else null
        invariant value !in Contents[..i]
        decreases |Nodes| - i
      {
        if curr.data == value {
          InsertAfterFirstAt(Contents, value, newValue, i);
          if curr == tail {
            DistinctFrom(i);
            assert i == |Contents| - 1 && Contents[..i + 1] == Contents;
            InsertTail(newValue);
          } else {
            LinkAfter(curr, i, newValue);
          }
          return;
        }
        assert Contents[..i + 1] == Contents[..i] + [Contents[i]];
        curr := curr.next;
        i := i + 1;
      }
      assert Contents[..i] == Contents;
      InsertAfterFirstAbsent(Contents, value, newValue);
    }

    /** The list invariant holds of `Nodes` and `Contents` once they are
        `nodes` and `contents` with `n` spliced in at position `p`, when
        every link of `nodes` except the one around position `p` is intact
        and `n` is linked between its neighbours. */
    lemma SplicedValid(nodes: seq<Node>, contents: seq<int>, p: nat, n: Node)
      requires 0 < p < |nodes| && |nodes| == |contents|
      requires Nodes == nodes[..p] + [n] + nodes[p..]
      requires Contents == contents[..p] + [n.data] + contents[p..]
      requires forall k :: 0 <= k < |Nodes| ==> Nodes[k] in Repr
      requires head == nodes[0] && tail == nodes[|nodes| - 1]
      requires nodes[0].prev == null && nodes[|nodes| - 1].next == null
      requires forall k :: 0 <= k < |nodes| ==> nodes[k].data == contents[k]
      requires forall k :: 0 <= k < |nodes| - 1 && k != p - 1 ==> nodes[k].next == nodes[k + 1]
      requires forall k :: 0 < k < |nodes| && k != p ==> nodes[k].prev == nodes[k - 1]
      requires nodes[p - 1].next == n && n.prev == nodes[p - 1]
      requires n.next == nodes[p] && nodes[p].prev == n
      ensures Valid()
    {
      assert forall k :: 0 <= k < p ==> Nodes[k] == nodes[k] && Contents[k] == contents[k];
      assert forall k :: p < k < |Nodes| ==> Nodes[k] == nodes[k - 1] && Contents[k] == contents[k - 1];
      forall k | 0 <= k < |Nodes| - 1
        ensures Nodes[k].next == Nodes[k + 1]
      {
        if k < p - 1 {
          assert Nodes[k] == nodes[k] && Nodes[k + 1] == nodes[k + 1];
        } else if k > p {
          assert Nodes[k] == nodes[k - 1] && Nodes[k + 1] == nodes[k];
        }
      }
      forall k | 0 < k < |Nodes|
        ensures Nodes[k].prev == Nodes[k - 1]
      {
        if k < p {
          assert Nodes[k] == nodes[k] && Nodes[k - 1] == nodes[k - 1];
        } else if k > p + 1 {
          assert Nodes[k] == nodes[k - 1] && Nodes[k - 1] == nodes[k - 2];
        }
      }
    }

    /** Splices a new node holding `newValue` between `curr`, the `i`-th
        node, and its successor. */
    method LinkAfter(curr: Node, ghost i: nat, newValue: int)
      requires Valid() && i < |Nodes| - 1 && curr == Nodes[i]
      modifies this, Repr
      ensures Valid() && fresh(Repr - old(Repr))
      ensures head == old(head) && tail == old(tail)
      ensures Contents == old(Contents)[..i + 1] + [newValue] + old(Contents)[i + 1..]
    {
      ghost var nodes, contents := Nodes, Contents;
      DistinctFrom(i);
      DistinctFrom(i + 1);
      var succ := curr.next;
      assert succ == nodes[i + 1];
      var newNode := new Node(newValue);
      newNode.prev := curr;
      newNode.next := succ;
      succ.prev := newNode;
      curr.next := newNode;
      Nodes := nodes[..i + 1] + [newNode] + nodes[i + 1..];
      Contents := contents[..i + 1] + [newValue] + contents[i + 1..];
      Repr := Repr + {newNode};
      SplicedValid(nodes, contents, i + 1, newNode);
    }

    /** The list invariant holds of `Nodes` and `Contents` once they are
        `nodes` and `contents` without position `p`, when every link of
        `nodes` except those touching position `p` is intact and the
        neighbours of `p` are linked to each other. */
    lemma SplicedOutValid(nodes: seq<Node>, contents: seq<int>, p: nat)
      requires 0 < p < |nodes| - 1 && |nodes| == |contents|
      requires Nodes == nodes[..p] + nodes[p + 1..]
      requires Contents == contents[..p] + contents[p + 1..]
      requires forall k :: 0 <= k < |Nodes| ==> Nodes[k] in Repr
      requires head == nodes[0] && tail == nodes[|nodes| - 1]
      requires nodes[0].prev == null && nodes[|nodes| - 1].next == null
      requires forall k :: 0 <= k < |nodes| ==> nodes[k].data == contents[k]
      requires forall k :: 0 <= k < |nodes| - 1 && k != p - 1 && k != p ==> nodes[k].next == nodes[k + 1]
      requires forall k :: 0 < k < |nodes| && k != p && k != p + 1 ==> nodes[k].prev == nodes[k - 1]
      requires nodes[p - 1].next == nodes[p + 1] && nodes[p + 1].prev == nodes[p - 1]
      ensures Valid()
    {
      assert forall k :: 0 <= k < p ==> Nodes[k] == nodes[k] && Contents[k] == contents[k];
      assert forall k :: p <= k < |Nodes| ==> Nodes[k] == nodes[k + 1] && Contents[k] == contents[k + 1];
      forall k | 0 <= k < |Nodes| - 1
        ensures Nodes[k].next == Nodes[k + 1]
      {
        if k < p - 1 {
          assert Nodes[k] == nodes[k] && Nodes[k + 1] == nodes[k + 1];
        } else if k >= p {
          assert Nodes[k] == nodes[k + 1] && Nodes[k + 1] == nodes[k + 2];
        }
      }
      forall k | 0 < k < |Nodes|
        ensures Nodes[k].prev == Nodes[k - 1]
      {
        if k < p {
          assert Nodes[k] == nodes[k] && Nodes[k - 1] == nodes[k - 1];
        } else if k > p {
          assert Nodes[k] == nodes[k + 1] && Nodes[k - 1] == nodes[k];
        }
      }
    }

    /** Unlinks `curr`, the `i`-th node, which is neither head nor tail, by
        linking its neighbours to each other. */
    method Unlink(curr: Node, ghost i: nat)
      requires Valid() && 0 < i < |Nodes| - 1 && curr == Nodes[i]
      modifies this, Repr
      ensures Valid() && Repr == old(Repr)
      ensures head == old(head) && tail == old(tail)
      ensures Contents == old(Contents)[..i] + old(Contents)[i + 1..]
    {
      ghost var nodes, contents := Nodes, Contents;
      DistinctFrom(i - 1);
      DistinctFrom(i + 1);
      var before, after := curr.prev, curr.next;
      assert before == nodes[i - 1] && after == nodes[i + 1];
      before.next := after;
      after.prev := before;
      Nodes := nodes[..i] + nodes[i + 1..];
      Contents := contents[..i] + contents[i + 1..];
      SplicedOutValid(nodes, contents, i);
    }

    /** Drops the head node; does nothing on an empty list. */
    method RemoveHead()
      requires Valid()
      modifies this, Repr
      ensures Valid() && Repr == old(Repr)
      ensures Contents == if old(Contents) == [] then [] else old(Contents)[1..]
      ensures Nodes == if old(Nodes) == [] then [] else old(Nodes)[1..]
      ensures |old(Contents)| <= 1 ==> head == null && tail == null
    {
      ghost var nodes := Nodes;
      if |nodes| >= 2 {
        DistinctNodes(0, |nodes| - 1);
      }
      if head == tail {
        head := null;
        tail := null;
        Nodes := [];
        Contents := [];
      } else if head != null {
        var second := head.next;
        assert |nodes| >= 2 && second == nodes[1];
        DistinctFrom(1);
        assert forall j :: 1 < j < |nodes| ==> nodes[j] != second;
        second.prev := null;
        head := second;
        Nodes := nodes[1..];
        Contents := Contents[1..];
        assert forall k :: 0 <= k < |Nodes| ==> Nodes[k] == nodes[k + 1];
      }
    }

    /** Drops the tail node; does nothing on an empty list. */
    method RemoveTail()
      requires Valid()
      modifies this, Repr
      ensures Valid() && Repr == old(Repr)
      ensures Contents == if old(Contents) == [] then [] else old(Contents)[..|old(Contents)| - 1]
      ensures Nodes == if old(Nodes) == [] then [] else old(Nodes)[..|old(Nodes)| - 1]
      ensures |old(Contents)| <= 1 ==> head == null && tail == null
    {
      ghost var nodes := Nodes;
      if |nodes| >= 2 {
        DistinctNodes(0, |nodes| - 1);
      }
      if tail == head {
        head := null;
        tail := null;
        Nodes := [];
        Contents := [];
      } else if tail != null {
        var penultimate := tail.prev;
        assert |nodes| >= 2 && penultimate == nodes[|nodes| - 2];
        DistinctFrom(|nodes| - 2);
        assert forall j :: 0 <= j < |nodes| - 2 ==> nodes[j] != penultimate;
        penultimate.next := null;
        tail := penultimate;
        Nodes := nodes[..|nodes| - 1];
        Contents := Contents[..|Contents| - 1];
        assert forall k :: 0 <= k < |Nodes| ==> Nodes[k] == nodes[k];
      }
    }

    /** Unlinks the first node holding `value`; does nothing when no node
        holds it. */
    method Remove(value: int)
      requires Valid()
      modifies this, Repr
      ensures Valid() && Repr == old(Repr)
      ensures Contents == RemoveFirst(old(Contents), value)
    {
      var curr := head;
      ghost var i := 0;
      while curr != null
        invariant Valid() && Nodes == old(Nodes) && Contents == old(Contents) && Repr == old(Repr)
        invariant head == old(head) && tail == old(tail)
        invariant 0 <= i <= |Nodes|
        invariant curr == if i < |Nodes| then Nodes[i] else null
        invariant value !in Contents[..i]
        decreases |Nodes| - i
      {
        if curr.data == value {
          RemoveFirstAt(Contents, value, i);
          if curr == head {
            RemoveHead();
          } else if curr == tail {
            RemoveTail();
          } else {
            Unlink(curr, i);
          }
          return;
        }
        assert Contents[..i + 1] == Contents[..i] + [Contents[i]];
        curr := curr.next;
        i := i + 1;
      }
      assert Contents[..i] == Contents;
      RemoveFirstAbsent(Contents, value);
    }

    /** Overwrites the value of every node holding `oldValue`; no link changes. */
    method Replace(oldValue: int, newValue: int)
      requires Valid()
      modifies this, Repr
      ensures Valid() && Repr == old(Repr)
      ensures Nodes == old(Nodes) && head == old(head) && tail == old(tail)
      ensures Contents == ReplaceAll(old(Contents), oldValue, newValue)
    {
      var curr := head;
      ghost var i := 0;
      while curr != null
        invariant Valid() && Nodes == old(Nodes) && Repr == old(Repr)
        invariant head == old(head) && tail == old(tail)
        invariant 0 <= i <= |Nodes|
        invariant curr == if i < |Nodes| then Nodes[i] else null
        invariant |Contents| == |old(Contents)|
        invariant forall j :: 0 <= j < i ==>
          Contents[j] == if old(Contents)[j] == oldValue then newValue else old(Contents)[j]
        invariant forall j :: i <= j < |Contents| ==> Contents[j] == old(Contents)[j]
        decreases |Nodes| - i
      {
        if curr.data == oldValue {
          DistinctFrom(i);
          assert forall j :: 0 <= j < |Nodes| && j != i ==> Nodes[j] != curr;
          curr.data := newValue;
          Contents := Contents[i := newValue];
        }
        curr := curr.next;
        i := i + 1;
      }
      ReplaceAllAt(old(Contents), oldValue, newValue);
    }

    /** The values met walking `next` links from the head. */
    method Forward() returns (values: seq<int>)
      requires Valid()
      ensures values == Contents
    {
      values := [];
      var curr := head;
      ghost var i := 0;
      while curr != null
        invariant 0 <= i <= |Nodes|
        invariant curr == if i < |Nodes| then Nodes[i] else null
        invariant values == Contents[..i]
        decreases |Nodes| - i
      {
        assert Contents[..i + 1] == Contents[..i] + [Contents[i]];
        values := values + [curr.data];
        curr := curr.next;
        i := i + 1;
      }
      assert Contents[..i] == Contents;
    }

    /** The values met walking `prev` links from the tail: the forward
        values in reverse order. */
    method Backward() returns (values: seq<int>)
      requires Valid()
      ensures values == Reversed(Contents)
    {
      values := [];
      var curr := tail;
      ghost var i := |Nodes|;
      while curr != null
        invariant 0 <= i <= |Nodes|
        invariant curr == if i > 0 then Nodes[i - 1] else null
        invariant values == Reversed(Contents[i..])
        decreases i
      {
        assert Contents[i - 1..][1..] == Contents[i..];
        values := values + [curr.data];
        curr := curr.prev;
        i := i - 1;
      }
      assert Contents[0..] == Contents;
    }

    /** The list's text: its forward values, comma-separated, in braces. */
    method ToString() returns (s: string)
      requires Valid()
      ensures s == "<LinkedList>{" + JoinInts(Contents) + "}"
    {
      var values := Forward();
      s := "<LinkedList>{" + JoinInts(values) + "}";
    }

    /** True when the list has neither head nor tail. */
    function HeadAndTailAreNull(): (b: bool)
      reads this, Repr
      requires Valid()
      ensures b <==> Contents == []
    {
      head == null && tail == null
    }

    /** True when the list has both a head and a tail. */
    function HeadAndTailAreNotNull(): (b: bool)
      reads this, Repr
      requires Valid()
      ensures b <==> Contents != []
      ensures b == !HeadAndTailAreNull()
    {
      head != null && tail != null
    }
  }

  /** A client run, first half: build 1, 2, 3 at the tail, insert 99
      after 2, remove 1 and replace 99 by 7. */
  method EditExample() returns (list: LinkedList)
    ensures list.Valid() && list.Contents == [2, 7, 3]
  {
    list := new LinkedList();
    list.InsertTail(1);
    list.InsertTail(2);
    list.InsertTail(3);
    assert list.Contents == [1, 2, 3];
    list.InsertAfter(2, 99);
    assert list.Contents == [1, 2, 99, 3] by {
      InsertAfterFirstAt([1, 2, 3], 2, 99, 1);
    }
    list.Remove(1);
    assert list.Contents == [2, 99, 3];
    list.Replace(99, 7);
    assert list.Contents == [2, 7, 3] by {
      ReplaceAllAt([2, 99, 3], 99, 7);
    }
  }

  /** A client run, second half: drop the tail of 2, 7, 3, walk both ways,
      then drop the head until the list is empty, and once more. */
  method WalkExample(list: LinkedList) returns (forward: seq<int>, backward: seq<int>)
    requires list.Valid() && list.Contents == [2, 7, 3]
    modifies list, list.Repr
    ensures forward == [2, 7] && backward == [7, 2]
    ensures list.Valid() && list.HeadAndTailAreNull()
  {
    list.RemoveTail();
    assert list.Contents == [2, 7];
    forward := list.Forward();
    backward := list.Backward();
    assert backward == [7, 2] by {
      assert [2, 7][1..] == [7] && [7][1..] == [];
    }
    list.RemoveHead();
    list.RemoveHead();
    assert list.HeadAndTailAreNull();
    list.RemoveHead();
  }
}

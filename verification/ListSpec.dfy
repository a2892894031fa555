/** What the doubly linked list's operations do to the sequence of values the
    list holds, read head to tail. The list class is proved against these. */
module ListSpec {

  /** `s` with `x` placed right after the first occurrence of `target`;
      `s` itself when `target` does not occur. */
  function InsertAfterFirst(s: seq<int>, target: int, x: int): seq<int> {
    if s == [] then []
    else if s[0] == target then [s[0], x] + s[1..]
    else [s[0]] + InsertAfterFirst(s[1..], target, x)
  }

  /** `s` without its first occurrence of `v`; `s` itself when `v` does not occur. */
  function RemoveFirst(s: seq<int>, v: int): seq<int> {
    if s == [] then []
    else if s[0] == v then s[1..]
    else [s[0]] + RemoveFirst(s[1..], v)
  }

  /** `s` with every occurrence of `oldValue` overwritten by `newValue`. */
  function ReplaceAll(s: seq<int>, oldValue: int, newValue: int): seq<int> {
    if s == [] then []
    else [if s[0] == oldValue then newValue else s[0]] + ReplaceAll(s[1..], oldValue, newValue)
  }

  /** `s` read back to front. */
  function Reversed(s: seq<int>): seq<int> {
    if s == [] then [] else Reversed(s[1..]) + [s[0]]
  }

  /** `k` is where `v` first occurs in `s`. */
  predicate FirstAt(s: seq<int>, v: int, k: int) {
    0 <= k < |s| && s[k] == v && v !in s[..k]
  }

  /** When `target` first occurs at `k`, the new value lands at `k + 1` and
      everything else keeps its place relative to it. */
  lemma {:induction false} InsertAfterFirstAt(s: seq<int>, target: int, x: int, k: int)
    requires FirstAt(s, target, k)
    ensures InsertAfterFirst(s, target, x) == s[..k + 1] + [x] + s[k + 1..]
  {
    if k > 0 {
      assert s[0] == s[..k][0];
      assert s[1..][..k - 1] == s[1..k];
      assert forall j :: 0 <= j < k - 1 ==> s[1..k][j] == s[..k][j + 1];
      InsertAfterFirstAt(s[1..], target, x, k - 1);
      assert s[..k + 1] == [s[0]] + s[1..][..k];
      assert s[k + 1..] == s[1..][k..];
    }
  }

  /** Inserting after a value that is absent changes nothing. */
  lemma {:induction false} InsertAfterFirstAbsent(s: seq<int>, target: int, x: int)
    requires target !in s
    ensures InsertAfterFirst(s, target, x) == s
  {
    if s != [] {
      assert s[0] != target;
      assert target !in s[1..] by {
        assert forall j :: 0 <= j < |s| - 1 ==> s[1..][j] == s[j + 1];
      }
      InsertAfterFirstAbsent(s[1..], target, x);
    }
  }

  /** Inserting after the last element, when that is the first occurrence of
      the target, is the same as appending at the tail. */
  lemma InsertAfterLastIsAppend(s: seq<int>, target: int, x: int)
    requires FirstAt(s, target, |s| - 1)
    ensures InsertAfterFirst(s, target, x) == s + [x]
  {
    InsertAfterFirstAt(s, target, x, |s| - 1);
    assert s[..|s|] == s;
  }

  /** Removal deletes exactly the element at the first occurrence. */
  lemma {:induction false} RemoveFirstAt(s: seq<int>, v: int, k: int)
    requires FirstAt(s, v, k)
    ensures RemoveFirst(s, v) == s[..k] + s[k + 1..]
  {
    if k > 0 {
      assert s[0] == s[..k][0];
      assert s[1..][..k - 1] == s[1..k];
      assert forall j :: 0 <= j < k - 1 ==> s[1..k][j] == s[..k][j + 1];
      RemoveFirstAt(s[1..], v, k - 1);
      assert s[..k] == [s[0]] + s[1..][..k - 1];
      assert s[k + 1..] == s[1..][k..];
    }
  }

  /** Removing a value that is absent changes nothing. */
  lemma {:induction false} RemoveFirstAbsent(s: seq<int>, v: int)
    requires v !in s
    ensures RemoveFirst(s, v) == s
  {
    if s != [] {
      assert s[0] != v;
      assert v !in s[1..] by {
        assert forall j :: 0 <= j < |s| - 1 ==> s[1..][j] == s[j + 1];
      }
      RemoveFirstAbsent(s[1..], v);
    }
  }

  /** Removal takes out one copy of `v` and nothing else: duplicates after
      the first one stay. */
  lemma {:induction false} RemoveFirstMultiset(s: seq<int>, v: int)
    ensures v in s ==> multiset(RemoveFirst(s, v)) == multiset(s) - multiset{v}
    ensures v in s ==> |RemoveFirst(s, v)| == |s| - 1
    ensures v !in s ==> RemoveFirst(s, v) == s
  {
    if s != [] {
      assert s == [s[0]] + s[1..];
      RemoveFirstMultiset(s[1..], v);
      if s[0] != v {
        assert v in s ==> v in s[1..];
      }
    }
  }

  /** Removing a value just inserted after `target` undoes the insertion,
      provided the inserted value did not occur before. */
  lemma RemoveUndoesInsertAfter(s: seq<int>, target: int, x: int)
    requires x !in s
    ensures RemoveFirst(InsertAfterFirst(s, target, x), x) == s
  {
    if target in s {
      var k := FirstIndexOf(s, target);
      InsertAfterFirstAt(s, target, x, k);
      var t := s[..k + 1] + [x] + s[k + 1..];
      assert t[..k + 1] == s[..k + 1];
      assert x !in t[..k + 1];
      RemoveFirstAt(t, x, k + 1);
      assert t[..k + 1] + t[k + 2..] == s;
    } else {
      InsertAfterFirstAbsent(s, target, x);
      RemoveFirstAbsent(s, x);
    }
  }

  /** The position of the first occurrence of `v`. */
  function FirstIndexOf(s: seq<int>, v: int): (k: int)
    requires v in s
    ensures FirstAt(s, v, k)
  {
    if s[0] == v then 0
    else
      assert v in s[1..];
      var k := FirstIndexOf(s[1..], v) + 1;
      assert s[..k] == [s[0]] + s[1..][..k - 1];
      k
  }

  /** Replacement overwrites exactly the positions that held `oldValue`; the
      length and every other position are unchanged. */
  lemma {:induction false} ReplaceAllAt(s: seq<int>, oldValue: int, newValue: int)
    ensures |ReplaceAll(s, oldValue, newValue)| == |s|
    ensures forall i :: 0 <= i < |s| ==>
      ReplaceAll(s, oldValue, newValue)[i] == if s[i] == oldValue then newValue else s[i]
  {
    if s != [] {
      ReplaceAllAt(s[1..], oldValue, newValue);
    }
  }

  /** After replacement no occurrence of the old value is left (unless it is
      also the new value). */
  lemma ReplaceAllLeavesNoOld(s: seq<int>, oldValue: int, newValue: int)
    requires oldValue != newValue
    ensures oldValue !in ReplaceAll(s, oldValue, newValue)
  {
    ReplaceAllAt(s, oldValue, newValue);
  }

  /** Position `k` from the front of the reversal is position `k` from the back. */
  lemma {:induction false} ReversedAt(s: seq<int>)
    ensures |Reversed(s)| == |s|
    ensures forall k :: 0 <= k < |s| ==> Reversed(s)[k] == s[|s| - 1 - k]
  {
    if s != [] {
      ReversedAt(s[1..]);
    }
  }

  /** Reversing twice gives back the original order. */
  lemma ReversedTwice(s: seq<int>)
    ensures Reversed(Reversed(s)) == s
  {
    ReversedAt(s);
    ReversedAt(Reversed(s));
  }
}

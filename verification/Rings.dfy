/** Circular doubly linked lists whose nodes are places in two arrays of links. */
module Rings {

  /** A pointer to a node, or null. */
  datatype Pointer = Null | To(node: nat)

  function HeadOf(list: seq<nat>): Pointer {
    if list == [] then Null else To(list[0])
  }

  ghost predicate Distinct(list: seq<nat>) {
    forall i, j :: 0 <= i < j < |list| ==> list[i] != list[j]
  }

  /** The node after the k-th, which is the first one after the last. */
  function After(list: seq<nat>, k: nat): nat
    requires k < |list|
  {
    if k + 1 < |list| then list[k + 1] else list[0]
  }

  /** The links at place k of the list run in both directions. */
  ghost predicate LinkedAt(next: seq<nat>, previous: seq<nat>, list: seq<nat>, k: nat)
    requires k < |list|
  {
    && list[k] < |next| && After(list, k) < |previous|
    && next[list[k]] == After(list, k) && previous[After(list, k)] == list[k]
  }

  /** The links make a ring of these nodes, in this order. */
  ghost predicate Ring(next: seq<nat>, previous: seq<nat>, list: seq<nat>) {
    && |next| == |previous| && Distinct(list)
    && forall k :: 0 <= k < |list| ==> LinkedAt(next, previous, list, k)
  }

  function Without(list: seq<nat>, k: nat): seq<nat>
    requires k < |list|
  {
    list[..k] + list[k + 1..]
  }

  lemma InWithout(list: seq<nat>, k: nat, x: nat)
    requires k < |list| && Distinct(list)
    ensures x in Without(list, k) <==> x in list && x != list[k]
  {
    var rest := Without(list, k);
    if x in list && x != list[k] {
      var i :| 0 <= i < |list| && list[i] == x;
      assert rest[if i < k then i else i - 1] == x;
    }
    if x in rest {
      var i :| 0 <= i < |rest| && rest[i] == x;
      assert x == list[if i < k then i else i + 1];
    }
  }

  ghost predicate SameNodes(a: seq<nat>, b: seq<nat>) {
    forall x :: x in a <==> x in b
  }

  /** The first list has the nodes of the second, without x. */
  ghost predicate NodesBut(a: seq<nat>, b: seq<nat>, x: nat) {
    forall i :: i in a <==> i in b && i != x
  }

  /** The place of a node in a list. */
  ghost function Place(list: seq<nat>, x: nat): (k: nat)
    requires x in list
    ensures k < |list| && list[k] == x
  {
    var k :| 0 <= k < |list| && list[k] == x;
    k
  }

  lemma PlaceIs(list: seq<nat>, k: nat)
    requires k < |list| && Distinct(list)
    ensures Place(list, list[k]) == k
  {
  }

  lemma LastPlace(list: seq<nat>)
    requires list != [] && Distinct(list)
    ensures Without(list, Place(list, list[|list| - 1])) == list[..|list| - 1]
  {
    PlaceIs(list, |list| - 1);
  }

  lemma RingEmpty(next: seq<nat>, previous: seq<nat>)
    requires |next| == |previous|
    ensures Ring(next, previous, [])
  {
  }

  /** Other links may change without breaking the ring. */
  lemma RingStays(next: seq<nat>, previous: seq<nat>, next': seq<nat>, previous': seq<nat>, list: seq<nat>)
    requires Ring(next, previous, list)
    requires |next'| == |previous'| == |next|
    requires forall x :: x in list && x < |next| ==> next'[x] == next[x] && previous'[x] == previous[x]
    ensures Ring(next', previous', list)
  {
    forall k | 0 <= k < |list|
      ensures LinkedAt(next', previous', list, k)
    {
      assert LinkedAt(next, previous, list, k);
      assert After(list, k) in list;
    }
  }

  /** The node before the first is the last. */
  lemma RingLast(next: seq<nat>, previous: seq<nat>, list: seq<nat>)
    requires Ring(next, previous, list) && list != []
    ensures list[0] < |previous| && previous[list[0]] == list[|list| - 1] < |next|
  {
    assert LinkedAt(next, previous, list, |list| - 1);
  }

  lemma RingOne(next: seq<nat>, previous: seq<nat>, x: nat)
    requires |next| == |previous| && x < |next|
    ensures Ring(next[x := x], previous[x := x], [x])
  {
  }

  /** The ring that runs through the array once. */
  lemma InOrder(next: seq<nat>, previous: seq<nat>, list: seq<nat>)
    requires |next| == |previous| == |list| > 0
    requires forall k :: 0 <= k < |list| ==> list[k] == k
    requires forall k :: 0 <= k < |list| - 1 ==> next[k] == k + 1
    requires forall k :: 0 < k < |list| ==> previous[k] == k - 1
    requires next[|list| - 1] == 0 && previous[0] == |list| - 1
    ensures Ring(next, previous, list) && forall i :: 0 <= i < |list| ==> i in list
  {
    forall i | 0 <= i < |list|
      ensures i in list && LinkedAt(next, previous, list, i)
    {
      assert list[i] == i;
    }
  }

  /** Linking a new node before the first one makes it the last. */
  lemma RingAdd(next: seq<nat>, previous: seq<nat>, list: seq<nat>, x: nat)
    requires Ring(next, previous, list) && list != [] && x !in list && x < |next|
    ensures list[0] < |next| && previous[list[0]] == list[|list| - 1] < |next|
    ensures var last := list[|list| - 1];
            Ring(next[x := list[0]][last := x], previous[x := last][list[0] := x], list + [x])
  {
    RingLast(next, previous, list);
    var n := |list|;
    var last := list[n - 1];
    assert LinkedAt(next, previous, list, 0);
    var next', previous', list' := next[x := list[0]][last := x], previous[x := last][list[0] := x], list + [x];
    forall k | 0 <= k < |list'|
      ensures LinkedAt(next', previous', list', k)
    {
      if k < n - 1 {
        assert LinkedAt(next, previous, list, k);
        assert list[k] != last && list[k + 1] != list[0];
      }
    }
  }

  /** Linking the neighbours of a node to each other takes it out of the ring. */
  lemma RingRemove(next: seq<nat>, previous: seq<nat>, list: seq<nat>, k: nat)
    requires Ring(next, previous, list) && k < |list| && |list| > 1
    ensures list[k] < |next|
    ensures next[list[k]] < |next| && previous[list[k]] < |next|
    ensures next[list[k]] != list[k] && next[list[k]] in list && previous[list[k]] in list
    ensures var n, p := next[list[k]], previous[list[k]];
            Ring(next[p := n], previous[n := p], Without(list, k))
  {
    var size := |list|;
    var x := list[k];
    var before := if k > 0 then k - 1 else size - 1;
    assert LinkedAt(next, previous, list, k) && LinkedAt(next, previous, list, before);
    assert After(list, before) == x;
    var n, p := next[x], previous[x];
    assert p == list[before] && n == After(list, k);
    var rest := Without(list, k);
    forall i, j | 0 <= i < j < |rest|
      ensures rest[i] != rest[j]
    {
      assert rest[i] == list[if i < k then i else i + 1] && rest[j] == list[if j < k then j else j + 1];
    }
    var next', previous' := next[p := n], previous[n := p];
    forall i | 0 <= i < |rest|
      ensures LinkedAt(next', previous', rest, i)
    {
      var i' := if i < k then i else i + 1;
      assert rest[i] == list[i'] && LinkedAt(next, previous, list, i');
      if i' == before {
        assert After(rest, i) == n;
      } else {
        assert After(rest, i) == After(list, i');
        assert After(list, i') != n;
      }
    }
  }

  /** The head moves on if its node is taken out. */
  lemma HeadWithout(next: seq<nat>, previous: seq<nat>, list: seq<nat>, k: nat)
    requires Ring(next, previous, list) && k < |list| && |list| > 1
    ensures list[k] < |next|
    ensures HeadOf(Without(list, k)) ==
            if HeadOf(list) == To(list[k]) then To(next[list[k]]) else HeadOf(list)
  {
    assert LinkedAt(next, previous, list, k);
  }

  lemma RingAlone(next: seq<nat>, previous: seq<nat>, list: seq<nat>, k: nat)
    requires Ring(next, previous, list) && k < |list|
    ensures list[k] < |next|
    ensures next[list[k]] == list[k] <==> |list| == 1
  {
    assert LinkedAt(next, previous, list, k);
  }

  function Rotate(list: seq<nat>, k: nat): seq<nat>
    requires k <= |list|
  {
    list[k..] + list[..k]
  }

  /** The same links make the same ring from any of its nodes. */
  lemma RingRotate(next: seq<nat>, previous: seq<nat>, list: seq<nat>, k: nat)
    requires Ring(next, previous, list) && k < |list|
    ensures Ring(next, previous, Rotate(list, k))
  {
    var turned := Rotate(list, k);
    var n := |list|;
    forall i, j | 0 <= i < j < n
      ensures turned[i] != turned[j]
    {
      assert turned[i] == list[if i + k < n then i + k else i + k - n];
      assert turned[j] == list[if j + k < n then j + k else j + k - n];
    }
    forall i | 0 <= i < n
      ensures LinkedAt(next, previous, turned, i)
    {
      var i' := if i + k < n then i + k else i + k - n;
      assert LinkedAt(next, previous, list, i');
      assert turned[i] == list[i'] && After(turned, i) == After(list, i');
    }
  }

  /** A set of nodes of a list is no larger than the list. */
  lemma {:induction false} ActiveFits(active: set<nat>, list: seq<nat>)
    requires forall x :: x in active ==> x in list
    ensures |active| <= |list|
    decreases |list|
  {
    if list == [] {
      assert active == {};
    } else {
      var rest := list[1..];
      forall x | x in active - {list[0]}
        ensures x in rest
      {
        var k :| 0 <= k < |list| && list[k] == x;
        assert rest[k - 1] == x;
      }
      ActiveFits(active - {list[0]}, rest);
    }
  }
}

/** Nodes in a static buffer, linked both ways by their places in it. */
module ListChain {

  import opened Sequences

  /** The null pointer. */
  const NULL := -1

  datatype Node<T> = Node(prev: int, next: int, val: T)

  /** The pointer to the `k`th node, null before the first and after the last. */
  function Pointer(order: seq<nat>, k: int): int {
    if 0 <= k < |order| then order[k] else NULL
  }

  ghost predicate Distinct(order: seq<nat>) {
    forall j, k :: 0 <= j < k < |order| ==> order[j] != order[k]
  }

  predicate InBuffer<T>(nodes: seq<Node<T>>, order: seq<nat>) {
    forall k :: 0 <= k < |order| ==> order[k] < |nodes|
  }

  /** The `k`th node points to its neighbours. */
  predicate LinkedAt<T>(nodes: seq<Node<T>>, order: seq<nat>, k: nat)
    requires InBuffer(nodes, order) && k < |order|
  {
    nodes[order[k]].next == Pointer(order, k + 1) && nodes[order[k]].prev == Pointer(order, k - 1)
  }

  /** The list from `head` to `tail` has the nodes in `order`. */
  ghost predicate Linked<T>(nodes: seq<Node<T>>, head: int, tail: int, len: nat, order: seq<nat>) {
    && len == |order| && Distinct(order)
    && head == Pointer(order, 0) && tail == Pointer(order, len - 1)
    && InBuffer(nodes, order)
    && (forall k :: 0 <= k < len ==> LinkedAt(nodes, order, k))
  }

  /** Where `x` is first. */
  function Position(order: seq<nat>, x: nat): (k: nat)
    requires x in order
    ensures k < |order| && order[k] == x
  {
    if order[0] == x then 0 else 1 + Position(order[1..], x)
  }

  function Values<T>(nodes: seq<Node<T>>, order: seq<nat>): (r: seq<T>)
    requires InBuffer(nodes, order)
    ensures |r| == |order|
  {
    seq(|order|, k requires 0 <= k < |order| => nodes[order[k]].val)
  }

  // ----- places -----

  lemma PositionIs(order: seq<nat>, k: nat)
    requires Distinct(order) && k < |order|
    ensures Position(order, order[k]) == k
  {
    var p := Position(order, order[k]);
    assert order[p] == order[k];
  }

  lemma DistinctDrop(order: seq<nat>, k: nat)
    requires Distinct(order) && k < |order|
    ensures Distinct(RemoveAt(order, k))
  {
    var o := RemoveAt(order, k);
    assert forall j :: 0 <= j < |o| ==> o[j] == if j < k then order[j] else order[j + 1];
  }

  lemma InDropAll(order: seq<nat>, k: nat)
    requires Distinct(order) && k < |order|
    ensures forall x: nat :: x in RemoveAt(order, k) <==> x in order && x != order[k]
  {
    hide RemoveAt;
    forall x: nat ensures x in RemoveAt(order, k) <==> x in order && x != order[k] { InDrop(order, k, x); }
  }

  lemma InDrop(order: seq<nat>, k: nat, x: nat)
    requires Distinct(order) && k < |order|
    ensures x in RemoveAt(order, k) <==> x in order && x != order[k]
  {
    var o := RemoveAt(order, k);
    if x in order && x != order[k] {
      var j :| 0 <= j < |order| && order[j] == x;
      assert o[if j < k then j else j - 1] == x;
    }
  }

  // ----- walks -----

  /** At most `n` nodes in one direction from `p`. */
  function Walk<T>(nodes: seq<Node<T>>, p: int, forward: bool, n: nat): seq<int>
    decreases n
  {
    if n == 0 || !(0 <= p < |nodes|) then []
    else [p] + Walk(nodes, if forward then nodes[p].next else nodes[p].prev, forward, n - 1)
  }

  function Reversed(s: seq<nat>): (r: seq<nat>)
    ensures |r| == |s|
  {
    if s == [] then [] else [s[|s| - 1]] + Reversed(s[..|s| - 1])
  }

  lemma {:induction false} ForwardFrom<T>(nodes: seq<Node<T>>, head: int, tail: int, order: seq<nat>, k: nat, n: nat)
    requires Linked(nodes, head, tail, |order|, order) && k <= |order| && n >= |order| - k
    ensures Walk(nodes, Pointer(order, k), true, n) == order[k..]
    decreases n
  {
    if k < |order| {
      assert LinkedAt(nodes, order, k);
      ForwardFrom(nodes, head, tail, order, k + 1, n - 1);
      assert order[k..] == [order[k]] + order[k + 1..];
    }
  }

  lemma {:induction false} BackwardFrom<T>(nodes: seq<Node<T>>, head: int, tail: int, order: seq<nat>, k: nat, n: nat)
    requires Linked(nodes, head, tail, |order|, order) && k <= |order| && n >= k
    ensures Walk(nodes, Pointer(order, k - 1), false, n) == Reversed(order[..k])
    decreases n
  {
    if k > 0 {
      assert LinkedAt(nodes, order, k - 1);
      BackwardFrom(nodes, head, tail, order, k - 1, n - 1);
      assert order[..k][..k - 1] == order[..k - 1];
    }
  }

  /** However long one walks, the walk forward from the head is the list, the walk back from the tail is the
      list backward, and both have the length that the list keeps. */
  lemma WalksAgree<T>(nodes: seq<Node<T>>, head: int, tail: int, len: nat, order: seq<nat>, n: nat)
    requires Linked(nodes, head, tail, len, order) && n >= len
    ensures Walk(nodes, head, true, n) == order && |order| == len
    ensures Walk(nodes, tail, false, n) == Reversed(order)
  {
    ForwardFrom(nodes, head, tail, order, 0, n);
    BackwardFrom(nodes, head, tail, order, len, n);
    assert order[..len] == order;
  }

  // ----- the four ways to change the list -----

  lemma PushedRight<T>(nodes: seq<Node<T>>, head: int, tail: int, len: nat, order: seq<nat>, node: nat, now: seq<Node<T>>)
    requires Linked(nodes, head, tail, len, order) && node < |nodes| && node !in order
    requires now == (var m := nodes[node := nodes[node].(prev := tail, next := NULL)]; if len == 0 then m else m[tail := m[tail].(next := node)])
    ensures Linked(now, if len == 0 then node else head, node, len + 1, order + [node])
  {
    var o := order + [node];
    forall k | 0 <= k < |o| ensures LinkedAt(now, o, k) {
      if k < len { assert LinkedAt(nodes, order, k); }
    }
  }

  lemma PushedLeft<T>(nodes: seq<Node<T>>, head: int, tail: int, len: nat, order: seq<nat>, node: nat, now: seq<Node<T>>)
    requires Linked(nodes, head, tail, len, order) && node < |nodes| && node !in order
    requires now == (var m := nodes[node := nodes[node].(prev := NULL, next := head)]; if len == 0 then m else m[head := m[head].(prev := node)])
    ensures Linked(now, node, if len == 0 then node else tail, len + 1, [node] + order)
  {
    var o := [node] + order;
    forall k | 0 <= k < |o| ensures LinkedAt(now, o, k) {
      if k > 0 { assert LinkedAt(nodes, order, k - 1); }
    }
  }

  /** The pointers past the node `order[k]` are joined. */
  lemma Unlinked<T>(nodes: seq<Node<T>>, head: int, tail: int, len: nat, order: seq<nat>, k: nat, now: seq<Node<T>>, head': int, tail': int)
    requires Linked(nodes, head, tail, len, order) && k < len && |now| == |nodes|
    requires forall i :: 0 <= i < |nodes| && i != order[k] ==> now[i].next == if i == nodes[order[k]].prev then nodes[order[k]].next else nodes[i].next
    requires forall i :: 0 <= i < |nodes| && i != order[k] ==> now[i].prev == if i == nodes[order[k]].next then nodes[order[k]].prev else nodes[i].prev
    requires head' == if k == 0 then nodes[order[k]].next else head
    requires tail' == if k == len - 1 then nodes[order[k]].prev else tail
    ensures Linked(now, head', tail', len - 1, RemoveAt(order, k))
  {
    var o := RemoveAt(order, k);
    assert LinkedAt(nodes, order, k);
    forall j | 0 <= j < |o| ensures LinkedAt(now, o, j) {
      if j < k { assert LinkedAt(nodes, order, j); } else { assert LinkedAt(nodes, order, j + 1); }
    }
  }
}

/** The doubly linked lists of items: `sort_list`, and the surgery that detaches,
    inserts and appends, on heap nodes with `next` and `prev` pointers.

    Every method is specified by what it does to the sequence of nodes. */
module ItemList {
  import opened CStrings
  import opened MergeSort

  /** The part of a `cJSON` node that the list code touches. */
  class Item {
    var next: Item?
    var prev: Item?
    var child: Item?
    const name: string

    constructor (name: string)
      ensures this.name == name && next == null && prev == null && child == null
    {
      this.name := name;
      next, prev, child := null, null, null;
    }
  }

  ghost function At(s: seq<Item>, i: int): Item? {
    if 0 <= i < |s| then s[i] else null
  }

  ghost predicate NoDuplicates(s: seq<Item>) {
    forall i, j :: 0 <= i < j < |s| ==> s[i] != s[j]
  }

  ghost function Nodes(s: seq<Item>): set<Item> {
    set x | x in s
  }

  /** The nodes of `s` are chained by `next`, and `prev` mirrors it inside the chain. */
  ghost predicate Chain(s: seq<Item>)
    reads Nodes(s)
  {
    && NoDuplicates(s)
    && (forall i {:trigger s[i].next} :: 0 <= i < |s| ==> s[i].next == At(s, i + 1))
    && (forall i {:trigger s[i].prev} :: 0 < i < |s| ==> s[i].prev == s[i - 1])
  }

  /** A well-formed list: `head` starts the chain `s`, and nothing precedes it. */
  ghost predicate ListOf(head: Item?, s: seq<Item>)
    reads Nodes(s)
  {
    && head == At(s, 0)
    && Chain(s)
    && (s != [] ==> s[0].prev == null)
  }

  function ItemKey(cs: bool): Item -> string {
    (x: Item) => Key(x.name, cs)
  }

  /** The merged part: as a chain, but its last node still points anywhere. */
  ghost predicate Merged(head: Item?, tail: Item?, r: seq<Item>)
    reads Nodes(r)
  {
    && NoDuplicates(r)
    && head == At(r, 0) && tail == At(r, |r| - 1)
    && (r != [] ==> r[0].prev == null)
    && (forall i {:trigger r[i].next} :: 0 <= i < |r| - 1 ==> r[i].next == r[i + 1])
    && (forall i {:trigger r[i].prev} :: 0 < i < |r| ==> r[i].prev == r[i - 1])
  }

  method IsAscending(list: Item, cs: bool, ghost s: seq<Item>) returns (ascending: bool)
    requires ListOf(list, s)
    ensures ascending == Ascending(s, ItemKey(cs))
  {
    var current: Item? := list;
    ghost var i := 0;
    while current != null && current.next != null
      invariant 0 <= i < |s| && current == s[i]
      invariant forall k :: 0 <= k < i ==> Less(s[k], s[k + 1], ItemKey(cs))
      decreases |s| - i
    {
      var sign := CompareStrings(current.name, current.next.name, cs);
      if sign >= 0 {
        assert !Less(s[i], s[i + 1], ItemKey(cs));
        return false;
      }
      current := current.next;
      i := i + 1;
    }
    return true;
  }

  /** Two pointers walk the list, one at double speed, and the list is cut where the slow one stops. */
  method Split(list: Item, ghost s: seq<Item>) returns (second: Item?)
    requires |s| >= 2 && ListOf(list, s)
    modifies Nodes(s)`next, Nodes(s)`prev
    ensures ListOf(list, s[..(|s| + 1) / 2])
    ensures ListOf(second, s[(|s| + 1) / 2..])
  {
    second := list;
    var current: Item? := list;
    ghost var i := 0;
    while current != null
      invariant 0 <= i <= (|s| + 1) / 2
      invariant second == At(s, i) && current == At(s, 2 * i)
      decreases |s| - i
    {
      second := second.next;
      current := current.next;
      if current != null {
        current := current.next;
      }
      i := i + 1;
    }
    if second != null && second.prev != null {
      second.prev.next := null;
      second.prev := null;
    }
  }

  /** The state of the merge loop: what is merged, and what is left of the two lists. */
  ghost predicate Merging(result: Item?, tail: Item?, first: Item?, second: Item?,
                          r: seq<Item>, a: seq<Item>, b: seq<Item>)
    reads Nodes(r), Nodes(a), Nodes(b)
  {
    && Nodes(r) !! Nodes(a) && Nodes(r) !! Nodes(b) && Nodes(a) !! Nodes(b)
    && Merged(result, tail, r)
    && first == At(a, 0) && Chain(a)
    && second == At(b, 0) && Chain(b)
    && (r == [] ==> a != [] && b != [] && first.prev == null && second.prev == null)
    && (a != [] || b != [])
  }

  /** One step of the merge: `smaller` goes behind the last merged node; the rests `a` and `b` stay chained. */
  method Link(result: Item?, tail: Item?, smaller: Item, ghost r: seq<Item>, ghost a: seq<Item>, ghost b: seq<Item>)
    returns (result': Item)
    requires Merged(result, tail, r) && Chain(a) && Chain(b)
    requires smaller !in Nodes(r) && smaller !in Nodes(a) && smaller !in Nodes(b)
    requires Nodes(r) !! Nodes(a) && Nodes(r) !! Nodes(b)
    requires r == [] ==> smaller.prev == null
    modifies Nodes(r)`next, smaller`prev
    ensures Merged(result', smaller, r + [smaller]) && Chain(a) && Chain(b)
    ensures smaller.next == old(smaller.next)
  {
    if result == null {
      result' := smaller;
    } else {
      tail.next := smaller;
      smaller.prev := tail;
      result' := result;
    }
  }

  /** The rest of a list goes behind the merged nodes. */
  method LinkRest(result: Item?, tail: Item?, rest: Item, ghost r: seq<Item>, ghost s: seq<Item>) returns (result': Item)
    requires Merged(result, tail, r) && rest == At(s, 0) && Chain(s)
    requires Nodes(r) !! Nodes(s)
    requires r == [] ==> rest.prev == null
    modifies Nodes(r)`next, rest`prev
    ensures ListOf(result', r + s)
  {
    assert rest in Nodes(s) && forall i :: 0 <= i < |r| ==> r[i] in Nodes(r);
    if result == null {
      result' := rest;
    } else {
      tail.next := rest;
      rest.prev := tail;
      result' := result;
    }
    ChainAppend(r, s);
  }

  lemma ChainAppend(r: seq<Item>, s: seq<Item>)
    requires NoDuplicates(r) && Chain(s) && s != [] && Nodes(r) !! Nodes(s)
    requires forall i {:trigger r[i].next} :: 0 <= i < |r| - 1 ==> r[i].next == r[i + 1]
    requires forall i {:trigger r[i].prev} :: 0 < i < |r| ==> r[i].prev == r[i - 1]
    requires r != [] ==> r[|r| - 1].next == s[0] && s[0].prev == r[|r| - 1]
    ensures Chain(r + s)
  {
    var q := r + s;
    forall i, j | 0 <= i < j < |q| ensures q[i] != q[j] {
      if i < |r| <= j { assert q[i] in Nodes(r) && q[j] in Nodes(s); }
    }
    forall i | 0 <= i < |q| ensures q[i].next == At(q, i + 1) {
      if i >= |r| { assert s[i - |r|].next == At(s, i - |r| + 1); } else { assert q[i] == r[i]; }
    }
    forall i | 0 < i < |q| ensures q[i].prev == q[i - 1] {
      if i > |r| { assert s[i - |r|].prev == s[i - |r| - 1]; } else if i < |r| { assert r[i].prev == r[i - 1]; }
    }
  }

  method MergeLists(first0: Item?, second0: Item?, cs: bool, ghost a0: seq<Item>, ghost b0: seq<Item>)
    returns (result: Item?)
    requires ListOf(first0, a0) && ListOf(second0, b0) && Nodes(a0) !! Nodes(b0)
    requires a0 != [] && b0 != []
    modifies Nodes(a0 + b0)`next, Nodes(a0 + b0)`prev
    ensures ListOf(result, Merge(a0, b0, ItemKey(cs)))
  {
    var first, second := first0, second0;
    var tail: Item? := null;
    result := null;
    ghost var r: seq<Item>, a, b := [], a0, b0;
    ghost var all, merged := Nodes(a0 + b0), Merge(a0, b0, ItemKey(cs));
    while first != null && second != null
      invariant Nodes(r) <= all && Nodes(a) <= all && Nodes(b) <= all
      invariant r + Merge(a, b, ItemKey(cs)) == merged
      invariant Merging(result, tail, first, second, r, a, b)
      decreases |a| + |b|
    {
      var sign := CompareStrings(first.name, second.name, cs);
      var smaller: Item := if sign < 0 then first else second;
      MergeStep(a, b, r, smaller, cs);
      NodesAppend(r, smaller);
      if sign < 0 {
        ChainRest(a);
        a := a[1..];
      } else {
        ChainRest(b);
        b := b[1..];
      }
      result := Link(result, tail, smaller, r, a, b);
      tail := smaller;
      r := r + [smaller];
      assert first == smaller <==> sign < 0;
      if first == smaller {
        first := first.next;
      } else {
        second := second.next;
      }
    }
    if first != null {
      result := LinkRest(result, tail, first, r, a);
    } else {
      result := LinkRest(result, tail, second, r, b);
    }
  }

  /** What taking the smaller head means for the merged sequence. */
  lemma MergeStep(a: seq<Item>, b: seq<Item>, r: seq<Item>, smaller: Item, cs: bool)
    requires a != [] && b != []
    requires smaller == if Less(a[0], b[0], ItemKey(cs)) then a[0] else b[0]
    ensures var left := Less(a[0], b[0], ItemKey(cs));
            r + Merge(a, b, ItemKey(cs))
            == r + [smaller] + Merge(if left then a[1..] else a, if left then b else b[1..], ItemKey(cs))
  {
  }

  lemma NodesAppend(s: seq<Item>, x: Item)
    ensures Nodes(s + [x]) == Nodes(s) + {x}
  {
  }

  lemma ChainRest(s: seq<Item>)
    requires s != [] && Chain(s)
    ensures Chain(s[1..]) && s[0].next == At(s[1..], 0)
    ensures s[0] !in Nodes(s[1..]) && Nodes(s) == Nodes(s[1..]) + {s[0]}
  {
    var t := s[1..];
    assert s == [s[0]] + t;
    forall i | 0 <= i < |t| ensures t[i].next == At(t, i + 1) { assert s[i + 1].next == At(s, i + 2); }
    forall i | 0 < i < |t| ensures t[i].prev == t[i - 1] { assert s[i + 1].prev == s[i]; }
  }

  lemma PermutationNodes(s: seq<Item>, t: seq<Item>)
    requires multiset(s) == multiset(t)
    ensures Nodes(s) == Nodes(t)
  {
    forall x ensures x in s <==> x in t {
      assert x in multiset(s) <==> x in s;
      assert x in multiset(t) <==> x in t;
    }
  }

  /** `sort_list` ends, keeps the list well formed, and leaves the nodes in the order of `Sort`:
      by `SortSorted` a key-sorted permutation of the nodes it was given. */
  method SortList(list: Item?, cs: bool, ghost s: seq<Item>) returns (result: Item?)
    requires ListOf(list, s)
    modifies Nodes(s)`next, Nodes(s)`prev
    ensures ListOf(result, Sort(s, ItemKey(cs)))
    decreases |s|
  {
    hide Merge, Ascending, Less, ItemKey;
    if list == null || list.next == null {
      return list;
    }
    var ascending := IsAscending(list, cs, s);
    if ascending {
      return list;
    }
    ghost var left, right := s[..(|s| + 1) / 2], s[(|s| + 1) / 2..];
    assert s == left + right;
    assert Nodes(s) == Nodes(left) + Nodes(right) && Nodes(left) !! Nodes(right);
    var second := Split(list, s);
    var first := SortList(list, cs, left);
    second := SortList(second, cs, right);
    PermutationNodes(left, Sort(left, ItemKey(cs)));
    PermutationNodes(right, Sort(right, ItemKey(cs)));
    result := MergeLists(first, second, cs, Sort(left, ItemKey(cs)), Sort(right, ItemKey(cs)));
  }

  // ----- surgery on the children of an item -----

  ghost predicate Children(owner: Item, s: seq<Item>)
    reads owner, Nodes(s)
  {
    owner !in s && ListOf(owner.child, s)
  }

  /** `detach_item_from_array`: null when there is no such child; otherwise exactly that node leaves
      the list, with both of its pointers cleared. */
  method DetachItemFromArray(owner: Item, which: nat, ghost s: seq<Item>) returns (c: Item?)
    requires Children(owner, s)
    modifies owner`child, Nodes(s)`next, Nodes(s)`prev
    ensures c == At(s, which)
    ensures Children(owner, if which < |s| then s[..which] + s[which + 1..] else s)
    ensures c != null ==> c.next == null && c.prev == null
  {
    c := owner.child;
    var left := which;
    ghost var i := 0;
    while c != null && left > 0
      invariant 0 <= i <= |s| && i <= which && left == which - i && c == At(s, i)
      decreases |s| - i
    {
      c := c.next;
      left := left - 1;
      i := i + 1;
    }
    if c == null {
      return null;
    }
    assert i == which && c == s[which];
    assert c.next == At(s, which + 1) && c.prev == At(s, which - 1);
    if c.prev != null {
      c.prev.next := c.next;
    }
    if c.next != null {
      c.next.prev := c.prev;
    }
    if c == owner.child {
      owner.child := c.next;
    }
    c.prev := null;
    c.next := null;
    Removed(s, which);
  }

  lemma Removed(s: seq<Item>, k: nat)
    requires k < |s| && NoDuplicates(s)
    requires forall i {:trigger s[i].next} :: 0 <= i < |s| && i != k ==> s[i].next == At(s, if i + 1 == k then k + 1 else i + 1)
    requires forall i {:trigger s[i].prev} :: 0 < i < |s| && i != k && i != k + 1 ==> s[i].prev == s[i - 1]
    requires k + 1 < |s| ==> s[k + 1].prev == At(s, k - 1)
    requires k > 0 ==> s[0].prev == null
    ensures var t := s[..k] + s[k + 1..]; ListOf(At(s, if k == 0 then 1 else 0), t)
  {
    var t := s[..k] + s[k + 1..];
    assert forall i :: 0 <= i < |t| ==> t[i] == s[if i < k then i else i + 1];
  }

  /** `cJSON_AddItemToArray`: the walk to the last child, and the new node behind it. */
  method AddItemToArray(owner: Item, item: Item, ghost s: seq<Item>)
    requires Children(owner, s) && item !in s && item != owner
    requires item.next == null && item.prev == null
    modifies owner`child, Nodes(s)`next, item`prev
    ensures Children(owner, s + [item])
  {
    var child := owner.child;
    if child == null {
      owner.child := item;
    } else {
      ghost var i := 0;
      while child.next != null
        invariant 0 <= i < |s| && child == s[i]
        decreases |s| - i
      {
        child := child.next;
        i := i + 1;
      }
      child.next := item;
      item.prev := child;
    }
  }

  /** `insert_item_in_array`: refused, with nothing changed, exactly when the index is past the end;
      otherwise the new node stands at that index. */
  method InsertItemInArray(owner: Item, which: nat, newitem: Item, ghost s: seq<Item>) returns (ok: bool)
    requires Children(owner, s) && newitem !in s && newitem != owner
    requires newitem.next == null && newitem.prev == null
    modifies owner`child, Nodes(s)`next, Nodes(s)`prev, newitem`next, newitem`prev
    ensures ok == (which <= |s|)
    ensures Children(owner, if ok then s[..which] + [newitem] + s[which..] else s)
  {
    var child := owner.child;
    var left := which;
    ghost var i := 0;
    while child != null && left > 0
      invariant 0 <= i <= |s| && i <= which && left == which - i && child == At(s, i)
      decreases |s| - i
    {
      child := child.next;
      left := left - 1;
      i := i + 1;
    }
    if left > 0 {
      return false;
    }
    if child == null {
      AddItemToArray(owner, newitem, s);
      assert which == |s| && s[..which] == s && s[which..] == [];
      return true;
    }
    assert i == which && child == s[which] && child.prev == At(s, which - 1);
    newitem.next := child;
    newitem.prev := child.prev;
    child.prev := newitem;
    if child == owner.child {
      owner.child := newitem;
    } else {
      newitem.prev.next := newitem;
    }
    Inserted(s, which, newitem);
    return true;
  }

  lemma Inserted(s: seq<Item>, k: nat, x: Item)
    requires k < |s| && NoDuplicates(s) && x !in s
    requires forall i {:trigger s[i].next} :: 0 <= i < |s| ==> s[i].next == if i + 1 == k then x else At(s, i + 1)
    requires forall i {:trigger s[i].prev} :: 0 <= i < |s| ==> s[i].prev == if i == k then x else At(s, i - 1)
    requires x.next == s[k] && x.prev == At(s, k - 1)
    ensures var t := s[..k] + [x] + s[k..]; ListOf(if k == 0 then x else s[0], t)
  {
    var t := s[..k] + [x] + s[k..];
    assert forall i :: 0 <= i < |t| ==> t[i] == if i < k then s[i] else if i == k then x else s[i - 1];
  }
}

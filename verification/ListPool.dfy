/** The list and its static memory (list.c, list_node.c, list_mem.c and list_iterator.c): nodes and iterators
    in slots of fixed buffers, marked in bit tables. */
module ListPool {

  import opened Bitmap
  import opened ListChain
  import opened Sequences

  /** `CONFIG_LIST_MAX_NUM * CONFIG_LIST_NODE_MAX_NUM` with one list, and `CONFIG_LIST_ITERATOR_MAX_NUM`. */
  const NODES: nat := 32
  const ITERATORS: nat := 2

  datatype Direction = Head | Tail

  datatype Iterator = Iterator(next: int, direction: Direction)

  /** The slots of the nodes: exactly those in the list and the loose ones are in use. */
  ghost predicate Marked(stat: seq<bv32>, order: seq<nat>, loose: set<nat>)
    requires |stat| == NODES / 32 + 1
  {
    && (forall i :: i in loose ==> i < NODES && i !in order)
    && forall i: nat :: i < NODES ==> (Bit(stat, i) <==> i in order || i in loose)
  }

  lemma MarkedAfterSet(stat: seq<bv32>, order: seq<nat>, loose: set<nat>, i: nat)
    requires |stat| == NODES / 32 + 1 && Marked(stat, order, loose) && i < NODES && !Bit(stat, i)
    ensures Marked(Set(stat, i), order, loose + {i})
  {
    hide Bit, Set;
    forall j: nat | j < NODES ensures Bit(Set(stat, i), j) <==> j == i || Bit(stat, j) { BitsOfSet(stat, i, j); }
  }

  lemma MarkedAfterClear(stat: seq<bv32>, order: seq<nat>, loose: set<nat>, i: nat)
    requires |stat| == NODES / 32 + 1 && Marked(stat, order, loose) && i in loose
    ensures Marked(Clear(stat, i), order, loose - {i})
  {
    hide Bit, Clear;
    forall j: nat | j < NODES ensures Bit(Clear(stat, i), j) <==> j != i && Bit(stat, j) { BitsOfClear(stat, i, j); }
  }

  lemma MarkedAfterPush(stat: seq<bv32>, order: seq<nat>, loose: set<nat>, node: nat)
    requires |stat| == NODES / 32 + 1 && Marked(stat, order, loose) && node in loose
    ensures Marked(stat, order + [node], loose - {node}) && Marked(stat, [node] + order, loose - {node})
    ensures node < NODES && node !in order
  {
    hide Bit;
  }

  lemma MarkedAfterDrop(stat: seq<bv32>, order: seq<nat>, loose: set<nat>, k: nat)
    requires |stat| == NODES / 32 + 1 && Marked(stat, order, loose) && Distinct(order) && k < |order| && order[k] < NODES
    ensures Marked(stat, RemoveAt(order, k), loose + {order[k]})
  {
    hide Bit, Distinct, RemoveAt;
    InDropAll(order, k);
  }

  lemma EndRemoved(order: seq<nat>)
    requires order != []
    ensures RemoveAt(order, 0) == order[1..] && RemoveAt(order, |order| - 1) == order[..|order| - 1]
  {
  }

  lemma NotLoose(stat: seq<bv32>, order: seq<nat>, loose: set<nat>, k: nat)
    requires |stat| == NODES / 32 + 1 && Marked(stat, order, loose) && k < |order|
    ensures order[k] !in loose
  {
    hide Bit;
  }

  /** The ends of the list. */
  lemma Ends<T>(nodes: seq<Node<T>>, head: int, tail: int, len: nat, order: seq<nat>)
    requires Linked(nodes, head, tail, len, order)
    ensures len == |order| && InBuffer(nodes, order) && head == Pointer(order, 0) && tail == Pointer(order, len - 1)
    ensures len > 0 ==> 0 <= head < |nodes| && 0 <= tail < |nodes|
  {
  }

  /** A node of the list and its neighbours. */
  lemma Around<T>(nodes: seq<Node<T>>, head: int, tail: int, len: nat, order: seq<nat>, k: nat)
    requires Linked(nodes, head, tail, len, order) && k < len
    ensures len == |order| && Distinct(order) && InBuffer(nodes, order) && order[k] < |nodes|
    ensures nodes[order[k]].next == Pointer(order, k + 1) && nodes[order[k]].prev == Pointer(order, k - 1)
    ensures k + 1 < len ==> order[k + 1] < |nodes| && order[k + 1] != order[k]
    ensures k > 0 ==> order[k - 1] < |nodes| && order[k - 1] != order[k]
    ensures 0 < k < len - 1 ==> order[k - 1] != order[k + 1]
  {
    assert LinkedAt(nodes, order, k);
  }

  class List<T(==)> {
    var head: int
    var tail: int
    var len: nat
    var nodeStat: seq<bv32>
    var nodes: seq<Node<T>>
    var iteratorStat: seq<bv32>
    var iterators: seq<Iterator>

    /** The nodes of the list, and the ones that are taken but in no list. */
    ghost var order: seq<nat>
    ghost var loose: set<nat>

    ghost predicate Valid()
      reads this
    {
      && |nodeStat| == NODES / 32 + 1 && |nodes| == NODES && |iteratorStat| == ITERATORS / 32 + 1 && |iterators| == ITERATORS
      && Linked(nodes, head, tail, len, order) && Marked(nodeStat, order, loose)
    }

    predicate InUse(it: nat)
      reads `iteratorStat
    {
      it < ITERATORS && |iteratorStat| == ITERATORS / 32 + 1 && Bit(iteratorStat, it)
    }

    /** `list_static_init`, and `list_new` in the one slot for a list. */
    constructor (blank: T)
      ensures Valid() && order == [] && loose == {} && iteratorStat == NoBits(ITERATORS / 32 + 1)
    {
      nodes := seq(NODES, _ => Node(NULL, NULL, blank));
      iterators := seq(ITERATORS, _ => Iterator(NULL, Head));
      nodeStat := NoBits(NODES / 32 + 1);
      iteratorStat := NoBits(ITERATORS / 32 + 1);
      head, tail, len := NULL, NULL, 0;
      order, loose := [], {};
      new;
      forall i: nat | i < NODES ensures !Bit(nodeStat, i) { BitsOfNone(NODES / 32 + 1, i); }
    }

    /** The list is in the buffer, and a walk finds the head first and after each node its neighbours. */
    lemma InOrder()
      requires Valid()
      ensures |nodes| == NODES && |iteratorStat| == ITERATORS / 32 + 1 && |iterators| == ITERATORS
      ensures len == |order| && Distinct(order) && InBuffer(nodes, order) && head == Pointer(order, 0)
    {
    }

    lemma Neighbours(k: nat)
      requires Valid() && k < |order|
      ensures |nodes| == NODES && order[k] < NODES
      ensures nodes[order[k]].next == Pointer(order, k + 1) && nodes[order[k]].prev == Pointer(order, k - 1)
    {
      Around(nodes, head, tail, len, order, k);
    }

    // ----- slots -----

    /** `malloc_list_node`. */
    method MallocListNode() returns (node: int)
      requires Valid()
      modifies `nodeStat, `loose
      ensures Valid()
      ensures node == if FirstFree(old(nodeStat), NODES) < NODES then FirstFree(old(nodeStat), NODES) else NULL
      ensures node == NULL ==> nodeStat == old(nodeStat) && loose == old(loose) && forall i: nat :: i < NODES ==> i in order || i in loose
      ensures node != NULL ==> 0 <= node < NODES && node !in order && node !in old(loose) && loose == old(loose) + {node as nat}
    {
      hide Bit, Set, Linked;
      var i := FindFree(nodeStat, NODES);
      if i >= NODES {
        return NULL;
      }
      MarkedAfterSet(nodeStat, order, loose, i);
      nodeStat := Set(nodeStat, i);
      loose := loose + {i};
      return i;
    }

    /** `free_list_node`; the node stays readable. */
    method FreeListNode(node: nat)
      requires Valid() && node in loose
      modifies `nodeStat, `loose
      ensures Valid() && loose == old(loose) - {node}
    {
      hide Bit, Clear, Linked;
      MarkedAfterClear(nodeStat, order, loose, node);
      nodeStat := Clear(nodeStat, node);
      loose := loose - {node};
    }

    /** `free_all_node`; a node still in the list would be handed out again. */
    method FreeAllNodes()
      requires Valid() && order == []
      modifies `nodeStat, `loose
      ensures Valid() && loose == {}
    {
      hide Bit, Linked;
      nodeStat := NoBits(NODES / 32 + 1);
      loose := {};
      forall i: nat | i < NODES ensures !Bit(nodeStat, i) { BitsOfNone(NODES / 32 + 1, i); }
    }

    /** `list_iterator_new`, with `malloc_list_iterator`. */
    method IteratorNew(direction: Direction) returns (it: int)
      requires Valid()
      modifies `iteratorStat, `iterators
      ensures Valid()
      ensures it == if FirstFree(old(iteratorStat), ITERATORS) < ITERATORS then FirstFree(old(iteratorStat), ITERATORS) else NULL
      ensures it == NULL ==> iteratorStat == old(iteratorStat) && iterators == old(iterators)
      ensures it != NULL ==>
        && InUse(it) && Clear(iteratorStat, it) == old(iteratorStat)
        && iterators == old(iterators)[it := Iterator(if direction == Head then head else tail, direction)]
    {
      hide Bit, Set, Clear, Linked, Marked;
      var i := FindFree(iteratorStat, ITERATORS);
      if i >= ITERATORS {
        return NULL;
      }
      ClearAfterSet(iteratorStat, i);
      BitsOfSet(iteratorStat, i, i);
      iteratorStat := Set(iteratorStat, i);
      iterators := iterators[i := Iterator(if direction == Head then head else tail, direction)];
      return i;
    }

    /** `list_iterator_next`. */
    method IteratorNext(it: nat) returns (node: int)
      requires Valid() && InUse(it) && NULL <= iterators[it].next < NODES
      modifies `iterators
      ensures Valid() && node == old(iterators)[it].next
      ensures iterators == if node == NULL then old(iterators)
        else old(iterators)[it := old(iterators)[it].(next := if old(iterators)[it].direction == Head then nodes[node].next else nodes[node].prev)]
    {
      hide Bit, Linked, Marked;
      node := iterators[it].next;
      if node != NULL {
        iterators := iterators[it := iterators[it].(next := if iterators[it].direction == Head then nodes[node].next else nodes[node].prev)];
      }
    }

    /** `list_iterator_destroy`. */
    method IteratorDestroy(it: nat)
      requires Valid() && InUse(it)
      modifies `iteratorStat
      ensures Valid() && iteratorStat == Clear(old(iteratorStat), it)
    {
      hide Bit, Clear, Linked, Marked;
      iteratorStat := Clear(iteratorStat, it);
    }

    // ----- the list -----

    /** `list_node_new`. */
    method ListNodeNew(val: T) returns (node: int)
      requires Valid()
      modifies `nodeStat, `nodes, `loose
      ensures Valid()
      ensures node == NULL ==> nodes == old(nodes) && loose == old(loose) && forall i: nat :: i < NODES ==> i in order || i in loose
      ensures node != NULL ==>
        && 0 <= node < NODES && node !in order && node !in old(loose) && loose == old(loose) + {node as nat}
        && nodes == old(nodes)[node := Node(NULL, NULL, val)]
    {
      hide Bit;
      node := MallocListNode();
      if node == NULL {
        return NULL;
      }
      Elsewhere(nodes, head, tail, len, order, node, Node(NULL, NULL, val));
      nodes := nodes[node := Node(NULL, NULL, val)];
    }

    /** `list_rpush`. */
    method Rpush(node: int) returns (r: int)
      requires Valid() && (node == NULL || node in loose)
      modifies `head, `tail, `len, `nodes, `order, `loose
      ensures Valid() && r == node && forall i :: 0 <= i < NODES ==> nodes[i].val == old(nodes[i].val)
      ensures order == (if node == NULL then old(order) else old(order) + [node as nat]) && loose == old(loose) - {node}
    {
      hide Bit, Marked, Linked;
      if node == NULL {
        return NULL;
      }
      ghost var was := nodes;
      Ends(nodes, head, tail, len, order);
      MarkedAfterPush(nodeStat, order, loose, node);
      if len != 0 {
        nodes := nodes[node := nodes[node].(prev := tail)];
        nodes := nodes[node := nodes[node].(next := NULL)];
        nodes := nodes[tail := nodes[tail].(next := node)];
        PushedRight(was, head, tail, len, order, node, nodes);
        tail := node;
      } else {
        nodes := nodes[node := nodes[node].(next := NULL)];
        nodes := nodes[node := nodes[node].(prev := NULL)];
        PushedRight(was, head, tail, len, order, node, nodes);
        head, tail := node, node;
      }
      len := len + 1;
      order := order + [node];
      loose := loose - {node};
      return node;
    }

    /** `list_lpush`. */
    method Lpush(node: int) returns (r: int)
      requires Valid() && (node == NULL || node in loose)
      modifies `head, `tail, `len, `nodes, `order, `loose
      ensures Valid() && r == node && forall i :: 0 <= i < NODES ==> nodes[i].val == old(nodes[i].val)
      ensures order == (if node == NULL then old(order) else [node as nat] + old(order)) && loose == old(loose) - {node}
    {
      hide Bit, Marked, Linked;
      if node == NULL {
        return NULL;
      }
      ghost var was := nodes;
      Ends(nodes, head, tail, len, order);
      MarkedAfterPush(nodeStat, order, loose, node);
      if len != 0 {
        nodes := nodes[node := nodes[node].(next := head)];
        nodes := nodes[node := nodes[node].(prev := NULL)];
        nodes := nodes[head := nodes[head].(prev := node)];
        PushedLeft(was, head, tail, len, order, node, nodes);
        head := node;
      } else {
        nodes := nodes[node := nodes[node].(next := NULL)];
        nodes := nodes[node := nodes[node].(prev := NULL)];
        PushedLeft(was, head, tail, len, order, node, nodes);
        head, tail := node, node;
      }
      len := len + 1;
      order := [node] + order;
      loose := loose - {node};
      return node;
    }

    /** `list_rpop`. */
    method Rpop() returns (node: int)
      requires Valid()
      modifies `head, `tail, `len, `nodes, `order, `loose
      ensures Valid() && node == Pointer(old(order), |old(order)| - 1) && forall i :: 0 <= i < NODES ==> nodes[i].val == old(nodes[i].val)
      ensures node == NULL ==> order == old(order) && loose == old(loose)
      ensures node != NULL ==> order == old(order)[..|old(order)| - 1] && loose == old(loose) + {node as nat}
    {
      hide Bit, Marked, Linked, RemoveAt;
      Ends(nodes, head, tail, len, order);
      if len == 0 {
        return NULL;
      }
      ghost var was, head0, k := nodes, head, len - 1;
      node := tail;
      Around(nodes, head, tail, len, order, k);
      MarkedAfterDrop(nodeStat, order, loose, k);
      len := len - 1;
      if len != 0 {
        tail := nodes[node].prev;
        nodes := nodes[tail := nodes[tail].(next := NULL)];
      } else {
        tail, head := NULL, NULL;
      }
      nodes := nodes[node := nodes[node].(next := NULL)];
      nodes := nodes[node := nodes[node].(prev := NULL)];
      EndRemoved(order);
      Unlinked(was, head0, node, len + 1, order, k, nodes, head, tail);
      order := order[..k];
      loose := loose + {node};
    }

    /** `list_lpop`. */
    method Lpop() returns (node: int)
      requires Valid()
      modifies `head, `tail, `len, `nodes, `order, `loose
      ensures Valid() && node == Pointer(old(order), 0) && forall i :: 0 <= i < NODES ==> nodes[i].val == old(nodes[i].val)
      ensures node == NULL ==> order == old(order) && loose == old(loose)
      ensures node != NULL ==> order == old(order)[1..] && loose == old(loose) + {node as nat}
    {
      hide Bit, Marked, Linked, RemoveAt;
      Ends(nodes, head, tail, len, order);
      if len == 0 {
        return NULL;
      }
      ghost var was, tail0 := nodes, tail;
      node := head;
      Around(nodes, head, tail, len, order, 0);
      MarkedAfterDrop(nodeStat, order, loose, 0);
      len := len - 1;
      if len != 0 {
        head := nodes[node].next;
        nodes := nodes[head := nodes[head].(prev := NULL)];
      } else {
        head, tail := NULL, NULL;
      }
      nodes := nodes[node := nodes[node].(next := NULL)];
      nodes := nodes[node := nodes[node].(prev := NULL)];
      EndRemoved(order);
      Unlinked(was, node, tail0, len + 1, order, 0, nodes, head, tail);
      order := order[1..];
      loose := loose + {node};
    }

    /** `list_remove`. */
    method Remove(node: nat)
      requires Valid() && node in order
      modifies `head, `tail, `len, `nodes, `nodeStat, `order, `loose
      ensures Valid() && order == RemoveAt(old(order), Position(old(order), node)) && loose == old(loose)
      ensures forall i :: 0 <= i < NODES ==> nodes[i].val == old(nodes[i].val)
    {
      hide Bit, Position, Marked, Linked, RemoveAt;
      ghost var k := Position(order, node);
      ghost var was, head0, tail0, len0 := nodes, head, tail, len;
      Ends(nodes, head, tail, len, order);
      Around(nodes, head, tail, len, order, k);
      MarkedAfterDrop(nodeStat, order, loose, k);
      if nodes[node].prev != NULL {
        nodes := nodes[nodes[node].prev := nodes[nodes[node].prev].(next := nodes[node].next)];
      } else {
        head := nodes[node].next;
      }
      if nodes[node].next != NULL {
        nodes := nodes[nodes[node].next := nodes[nodes[node].next].(prev := nodes[node].prev)];
      } else {
        tail := nodes[node].prev;
      }
      Unlinked(was, head0, tail0, len0, order, k, nodes, head, tail);
      NotLoose(nodeStat, order, loose, k);
      len := len - 1;
      order := RemoveAt(order, k);
      loose := loose + {node};
      FreeListNode(node);
    }

    /** `list_at`: from the head for an index from zero on, from the tail for a negative one. */
    method At(index: int) returns (node: int)
      requires Valid() && FirstFree(iteratorStat, ITERATORS) < ITERATORS
      modifies `iteratorStat, `iterators
      ensures Valid() && node == Pointer(order, if index < 0 then |order| + index else index)
      ensures iteratorStat == old(iteratorStat)
    {
      hide Bit, Clear, Marked;
      var direction, i := Head, index;
      if index < 0 {
        direction, i := Tail, -index - 1;
      }
      if i < len {
        var it := IteratorNew(direction);
        node := IteratorNext(it);
        ghost var k := if direction == Head then 0 else |order| - 1;
        assert LinkedAt(nodes, order, k);
        while i > 0
          invariant Valid() && InUse(it) && 0 <= i && iterators[it].direction == direction && Clear(iteratorStat, it) == old(iteratorStat)
          invariant 0 <= k < |order| && LinkedAt(nodes, order, k) && node == order[k]
          invariant direction == Head ==> k + i == index && index < |order|
          invariant direction == Tail ==> k - i == |order| + index && index < 0 <= |order| + index
          invariant iterators[it].next == Pointer(order, if direction == Head then k + 1 else k - 1)
        {
          node := IteratorNext(it);
          k := if direction == Head then k + 1 else k - 1;
          assert LinkedAt(nodes, order, k);
          i := i - 1;
        }
        IteratorDestroy(it);
        return node;
      }
      return NULL;
    }

    /** `list_find` with no matching function. */
    method Find(val: T) returns (node: int)
      requires Valid() && FirstFree(iteratorStat, ITERATORS) < ITERATORS
      modifies `iteratorStat, `iterators
      ensures Valid() && iteratorStat == old(iteratorStat)
      ensures var vals := Values(nodes, order);
        if val !in vals then node == NULL
        else node in order && vals[Position(order, node)] == val && forall j :: 0 <= j < Position(order, node) ==> vals[j] != val
    {
      hide Bit, Clear, Marked, Linked, Position;
      Ends(nodes, head, tail, len, order);
      var it := IteratorNew(Head);
      ghost var k := 0;
      while true
        invariant Valid() && InUse(it) && 0 <= k <= |order| && iterators[it] == Iterator(Pointer(order, k), Head)
        invariant Clear(iteratorStat, it) == old(iteratorStat) && forall j :: 0 <= j < k ==> Values(nodes, order)[j] != val
        decreases |order| - k
      {
        if k < |order| { Around(nodes, head, tail, len, order, k); }
        node := IteratorNext(it);
        if node == NULL {
          break;
        }
        if val == nodes[node].val {
          IteratorDestroy(it);
          PositionIs(order, k);
          assert Values(nodes, order)[k] == val;
          return node;
        }
        k := k + 1;
      }
      IteratorDestroy(it);
    }

    /** `list_destroy`, up to the slot of the list itself: every node is freed. */
    method Destroy()
      requires Valid()
      modifies `nodeStat, `head, `tail, `len, `order, `loose
      ensures Valid() && order == [] && loose == old(loose)
    {
      hide Bit;
      ghost var o, k := order, 0;
      ghost var from := loose;
      var n, curr := len, head;
      order, len := [], 0;
      head, tail := NULL, NULL;
      loose := loose + set i | i in o;
      while n > 0
        invariant Valid() && order == [] && n + k == |o| && curr == Pointer(o, k)
        invariant loose == from + set j | k <= j < |o| :: o[j]
        invariant Linked(nodes, Pointer(o, 0), Pointer(o, |o| - 1), |o|, o)
      {
        assert LinkedAt(nodes, o, k);
        var next := nodes[curr].next;
        FreeListNode(curr);
        curr := next;
        n := n - 1;
        k := k + 1;
      }
    }
  }

  /** A node that is in no list can be filled. */
  lemma Elsewhere<T>(nodes: seq<Node<T>>, head: int, tail: int, len: nat, order: seq<nat>, i: nat, node: Node<T>)
    requires Linked(nodes, head, tail, len, order) && i < |nodes| && i !in order
    ensures Linked(nodes[i := node], head, tail, len, order)
  {
    var now := nodes[i := node];
    forall k | 0 <= k < len ensures LinkedAt(now, order, k) { assert LinkedAt(nodes, order, k); }
  }
}

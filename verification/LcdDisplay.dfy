/** The list of what is drawn over the camera picture (lcd_dis.c), and the callbacks that walk it
    (face_cb.c). */
module LcdDisplay {

  import opened Bitmap
  import opened DisplayItems
  import opened ListChain
  import opened ListPool
  import opened Options
  import opened Sequences

  /** What is in the list when the walk stands at `o[k]`. */
  function Remaining(nodes: seq<Node<Item>>, o: seq<nat>, k: nat): seq<nat>
    requires InBuffer(nodes, o) && k <= |o|
  {
    Kept(nodes, o[..k], Stays) + o[k..]
  }

  /** What has been drawn by then. */
  function Drawn(nodes: seq<Node<Item>>, o: seq<nat>, k: nat): seq<Item>
    requires InBuffer(nodes, o) && k <= |o|
  {
    Values(nodes, o[..k])
  }

  lemma AtStart(nodes: seq<Node<Item>>, o: seq<nat>)
    requires InBuffer(nodes, o)
    ensures Remaining(nodes, o, 0) == o && Drawn(nodes, o, 0) == []
  {
  }

  lemma AtNode(nodes: seq<Node<Item>>, o: seq<nat>, k: nat, order: seq<nat>)
    requires InBuffer(nodes, o) && k < |o| && order == Remaining(nodes, o, k) && Distinct(order)
    ensures o[k] in order && Pointer(order, Position(order, o[k]) + 1) == Pointer(o, k + 1)
    ensures Remaining(nodes, o, k + 1) == if Holds(Stays, nodes[o[k]].val) then order else RemoveAt(order, Position(order, o[k]))
    ensures Drawn(nodes, o, k + 1) == Drawn(nodes, o, k) + [nodes[o[k]].val]
  {
    hide Position;
    var kept := Kept(nodes, o[..k], Stays);
    assert order[|kept|] == o[k];
    PositionIs(order, |kept|);
    assert o[..k + 1][..k] == o[..k];
    assert order == kept + [o[k]] + o[k + 1..] && RemoveAt(order, |kept|) == kept + o[k + 1..];
  }

  lemma AtEnd(nodes: seq<Node<Item>>, o: seq<nat>)
    requires InBuffer(nodes, o)
    ensures Remaining(nodes, o, |o|) == Kept(nodes, o, Stays) && Values(nodes, Kept(nodes, o, Stays)) == Filter(Values(nodes, o), Stays)
    ensures Drawn(nodes, o, |o|) == Values(nodes, o)
  {
    assert o[..|o|] == o;
    ValuesOfKept(nodes, o, Stays);
  }

  lemma AtFirst(o: seq<nat>, k: nat)
    requires k < |o|
    ensures o[k] in o[k..] && Position(o[k..], o[k]) == 0 && o[k..][0] == o[k]
    ensures Pointer(o[k..], 1) == Pointer(o, k + 1) && RemoveAt(o[k..], 0) == o[k + 1..]
  {
    assert o[k..][0] == o[k];
  }

  lemma SameValues(nodes: seq<Node<Item>>, now: seq<Node<Item>>, order: seq<nat>)
    requires InBuffer(nodes, order) && |nodes| == |now| && forall i :: 0 <= i < |nodes| ==> now[i].val == nodes[i].val
    ensures Values(now, order) == Values(nodes, order)
  {
  }

  lemma PointerIs(o: seq<nat>, k: nat)
    ensures Pointer(o, k) == if k < |o| then o[k] else NULL
  {
  }

  lemma DropValues(nodes: seq<Node<Item>>, order: seq<nat>, k: nat)
    requires InBuffer(nodes, order) && k < |order|
    ensures InBuffer(nodes, RemoveAt(order, k)) && Values(nodes, RemoveAt(order, k)) == RemoveAt(Values(nodes, order), k)
  {
  }

  lemma IteratorIsFree()
    ensures FirstFree(NoBits(ITERATORS / 32 + 1), ITERATORS) == 0
  {
    BitsOfNone(ITERATORS / 32 + 1, 0);
  }

  /** An id that is not in the table has no item, nor has one that is too large. */
  lemma NotThere(items: seq<Item>, table: seq<bv32>, id: nat)
    requires |table| == IDS / 32 + 1 && Tabled(items, table) && id < 32 * |table|
    ensures id >= IDS || !Bit(table, id) ==> Filter(items, NotId(id)) == items
    ensures id < IDS ==> Tabled(items, Set(table, id)) && Bit(Set(table, id), id)
  {
    hide Bit, Set;
    if id >= IDS || !Bit(table, id) { NothingFiltered(items, NotId(id)); }
    if id < IDS { TabledAfterSet(items, table, id); }
  }

  lemma NowFree(items: seq<Item>, table: seq<bv32>, id: nat)
    requires |table| == IDS / 32 + 1 && Tabled(items, table) && id < 32 * |table|
    ensures !Bit(Clear(table, id), id)
    ensures id < IDS ==> Tabled(Filter(items, NotId(id)), Set(Clear(table, id), id)) && Bit(Set(Clear(table, id), id), id)
  {
    hide Bit, Set, Clear;
    TabledAfterClear(items, table, id);
    if id < IDS { TabledAfterSet(Filter(items, NotId(id)), Clear(table, id), id); }
  }

  lemma Others(items: seq<Item>, table: seq<bv32>, id: nat)
    requires |table| == IDS / 32 + 1 && Tabled(items, table)
    ensures forall item :: item in Filter(items, NotId(id)) ==> 0 <= item.id < IDS && item.id != id
  {
    hide Bit;
    InFilter(items, NotId(id));
  }

  lemma Pushed(nodes: seq<Node<Item>>, order: seq<nat>, node: nat, item: Item, now: seq<Node<Item>>)
    requires InBuffer(nodes, order) && node < |nodes| == |now| && node !in order
    requires forall i :: 0 <= i < |nodes| ==> now[i].val == if i == node then item else nodes[i].val
    ensures Values(now, order + [node]) == Values(nodes, order) + [item]
  {
  }

  lemma {:induction false} AddedGoes(items: seq<Item>, item: Item)
    ensures Filter(Filter(items, NotId(item.id)) + [item], NotId(item.id)) == Filter(items, NotId(item.id))
  {
    var others := Filter(items, NotId(item.id));
    InFilter(items, NotId(item.id));
    NothingFiltered(others, NotId(item.id));
    assert (others + [item])[..|others|] == others;
  }

  lemma TabledFiltered(items: seq<Item>, table: seq<bv32>)
    requires |table| == IDS / 32 + 1 && Tabled(items, table)
    ensures Tabled(Filter(items, Stays), table)
  {
    hide Bit;
    InFilter(items, Stays);
  }

  lemma OneMore(items: seq<Item>, item: Item, table: seq<bv32>)
    requires |table| == IDS / 32 + 1 && OneEach(items) && Tabled(items, table) && 0 <= item.id < IDS && Bit(table, item.id)
    requires forall other :: other in items ==> other.id != item.id
    ensures OneEach(items + [item]) && Tabled(items + [item], table)
  {
    hide Bit;
  }

  class Display {
    const list: List<Item>
    var idTable: seq<bv32>

    ghost function Items(): (r: seq<Item>)
      requires InBuffer(list.nodes, list.order)
      reads list`nodes, list`order
      ensures |r| == |list.order|
    {
      Values(list.nodes, list.order)
    }

    /** The nodes in use are those of the list, and no iterator is in use. */
    ghost predicate Settled()
      reads list
    {
      list.Valid() && list.loose == {} && list.iteratorStat == NoBits(ITERATORS / 32 + 1)
    }

    /** One item for each id, marked in the table. */
    ghost predicate Valid()
      reads this, list
    {
      && Settled() && |idTable| == IDS / 32 + 1 && OneEach(Items()) && Tabled(Items(), idTable)
    }

    /** `lcd_dis_list_init`. */
    constructor (blank: Item)
      ensures Valid() && Items() == [] && fresh(list)
    {
      idTable := NoBits(IDS / 32 + 1);
      list := new List(blank);
    }

    /** `lcd_dis_list_check_id`: a free id is taken. */
    method CheckId(id: nat) returns (taken: bool)
      requires |idTable| == IDS / 32 + 1
      modifies `idTable
      ensures taken <==> id >= IDS || Bit(old(idTable), id)
      ensures idTable == if taken then old(idTable) else Set(old(idTable), id)
    {
      hide Bit, Set;
      if id >= IDS {
        return true;
      }
      if Bit(idTable, id) {
        return true;
      }
      idTable := Set(idTable, id);
      return false;
    }

    /** `lcd_dis_list_del_by_id`; the table has a word for the id. */
    method DelById(id: nat) returns (ret: int)
      requires Valid() && id / 32 < |idTable|
      modifies this, list
      ensures Valid() && Items() == Filter(old(Items()), NotId(id)) && idTable == Clear(old(idTable), id)
      ensures ret == if exists item :: item in old(Items()) && item.id == id then id else -1
    {
      hide Bit, Clear, NoBits, OneEach, Tabled, Filter, List.Valid, FirstFree, RemoveAt, Position;
      list.InOrder();
      TabledAfterClear(Items(), idTable, id);
      OneEachFiltered(Items(), NotId(id));
      IteratorIsFree();
      ghost var nodes, o, items, k := list.nodes, list.order, Items(), 0;
      var it := list.IteratorNew(Head);
      while true
        invariant list.Valid() && list.loose == {} && list.nodes == nodes && list.order == o && 0 <= k <= |o|
        invariant list.InUse(it) && Clear(list.iteratorStat, it) == NoBits(ITERATORS / 32 + 1)
        invariant |list.iterators| == ITERATORS && list.iterators[it] == Iterator(Pointer(o, k), Head)
        invariant forall j :: 0 <= j < k ==> items[j].id != id
        invariant idTable == old(idTable)
        decreases |o| - k
      {
        if k < |o| { list.Neighbours(k); }
        var node := list.IteratorNext(it);
        if node == NULL {
          break;
        }
        if list.nodes[node].val.id == id {
          PositionIs(o, k);
          OneFiltered(items, k);
          list.Remove(node);
          list.InOrder();
          SameValues(nodes, list.nodes, list.order);
          DropValues(nodes, o, k);
          idTable := Clear(idTable, id);
          list.IteratorDestroy(it);
          assert items[k] in items;
          assert Settled();
          return id;
        }
        k := k + 1;
      }
      NothingFiltered(items, NotId(id));
      idTable := Clear(idTable, id);
      list.IteratorDestroy(it);
      return -1;
    }

    /** `lcd_dis_list_add_str` and `lcd_dis_list_add_pic`, which differ in the shape alone: an item with the
        same id goes, and there is always a node for the new one. */
    method Add(id: nat, autoDel: bool, shape: Shape) returns (ret: Option<Item>)
      requires Valid() && id / 32 < |idTable|
      modifies this, list
      ensures Valid()
      ensures id >= IDS ==> ret == None && Items() == Filter(old(Items()), NotId(id)) == old(Items())
      ensures id < IDS ==> ret == Some(Item(id, autoDel, shape)) && Items() == Filter(old(Items()), NotId(id)) + [ret.value]
    {
      hide Bit, Set, Clear, NoBits, OneEach, Tabled, Filter, List.Valid, FirstFree;
      list.InOrder();
      ghost var items := Items();
      NotThere(items, idTable, id);
      var taken := CheckId(id);
      if taken {
        var deleted := DelById(id);
        NowFree(items, old(idTable), id);
        taken := CheckId(id);
        if taken {
          return None;
        }
      }
      list.InOrder();
      Others(items, old(idTable), id);
      var item := Item(id, autoDel, shape);
      RoomLeft(Items(), list.order, id);
      OneMore(Items(), item, idTable);
      ghost var nodes, order := list.nodes, list.order;
      var node := list.ListNodeNew(item);
      var r := list.Rpush(node);
      list.InOrder();
      Pushed(nodes, order, node, item, list.nodes);
      ret := if r == NULL then None else Some(item);
    }

    /** `lcd_dis_list_del_all`. */
    method DelAll()
      requires Valid()
      modifies this, list
      ensures Valid() && Items() == [] && idTable == NoBits(IDS / 32 + 1)
    {
      hide Bit, Clear, NoBits, List.Valid, FirstFree, RemoveAt, Position, Pointer;
      list.InOrder();
      IteratorIsFree();
      ghost var o, k := list.order, 0;
      var it := list.IteratorNew(Head);
      while true
        invariant list.Valid() && list.loose == {} && 0 <= k <= |o| && list.order == o[k..]
        invariant list.InUse(it) && Clear(list.iteratorStat, it) == NoBits(ITERATORS / 32 + 1)
        invariant |list.iterators| == ITERATORS && list.iterators[it] == Iterator(Pointer(o, k), Head)
        decreases |o| - k
      {
        list.InOrder();
        PointerIs(o, k);
        if k < |o| {
          list.Neighbours(0);
          AtFirst(o, k);
        }
        var node := list.IteratorNext(it);
        if node == NULL {
          break;
        }
        list.Remove(node);
        k := k + 1;
      }
      idTable := NoBits(IDS / 32 + 1);
      list.IteratorDestroy(it);
      list.FreeAllNodes();
      list.InOrder();
    }

    /** The walk of `lcd_convert_cb`: each item is drawn, in order, and those that delete themselves go. */
    method ShowAll() returns (shown: seq<Item>)
      requires Valid()
      modifies list
      ensures Valid() && shown == old(Items()) && Items() == Filter(old(Items()), Stays)
    {
      hide Bit, Clear, NoBits, OneEach, Tabled, Filter, Kept, List.Valid, FirstFree, RemoveAt, Position, Pointer, Values, Remaining, Drawn;
      list.InOrder();
      TabledFiltered(Items(), idTable);
      OneEachFiltered(Items(), Stays);
      shown := [];
      if list.len == 0 {
        NothingFiltered(Items(), Stays);
        return;
      }
      IteratorIsFree();
      ghost var nodes, o, k := list.nodes, list.order, 0;
      AtStart(nodes, o);
      PointerIs(o, 0);
      var it := list.IteratorNew(Head);
      while true
        invariant list.Valid() && list.loose == {} && 0 <= k <= |o| && list.order == Remaining(nodes, o, k)
        invariant |list.nodes| == NODES && forall i :: 0 <= i < NODES ==> list.nodes[i].val == nodes[i].val
        invariant list.InUse(it) && Clear(list.iteratorStat, it) == NoBits(ITERATORS / 32 + 1)
        invariant |list.iterators| == ITERATORS && list.iterators[it] == Iterator(Pointer(o, k), Head)
        invariant shown == Drawn(nodes, o, k)
        decreases |o| - k
      {
        list.InOrder();
        PointerIs(o, k);
        if k < |o| {
          AtNode(nodes, o, k, list.order);
          list.Neighbours(Position(list.order, o[k]));
        }
        var node := list.IteratorNext(it);
        if node == NULL {
          break;
        }
        var item := list.nodes[node].val;
        shown := shown + [item];
        if item.autoDel {
          list.Remove(node);
          list.InOrder();
        }
        k := k + 1;
      }
      list.IteratorDestroy(it);
      AtEnd(nodes, o);
      SameValues(nodes, list.nodes, list.order);
    }

    /** `lcd_display_image_alpha`: the picture is drawn, and of what was in the list at most an item with the
        same id goes. */
    method ShowPicture(address: nat, alpha: nat, x: nat, y: nat) returns (shown: Option<Item>)
      requires Valid()
      modifies this, list
      ensures Valid() && shown == Some(Item(IDS - 1, true, Picture(address, alpha, x, y, 240, 240)))
      ensures Items() == Filter(old(Items()), NotId(IDS - 1))
    {
      hide Bit, Clear, NoBits, OneEach, Tabled, Filter, List.Valid, FirstFree;
      list.InOrder();
      ghost var items := Items();
      shown := Add(IDS - 1, true, Picture(address, alpha, x, y, 240, 240));
      if shown != None {
        AddedGoes(items, shown.value);
        var deleted := DelById(IDS - 1);
      }
    }
  }
}

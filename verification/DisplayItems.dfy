/** What is drawn over the camera picture (lcd_dis.h), and lists of it with one item for each id. */
module DisplayItems {

  import opened Bitmap
  import opened ListChain
  import opened Sequences

  /** `CONFIG_LIST_NODE_MAX_NUM`. */
  const IDS: nat := 32

  datatype Shape =
    | Text(size: nat, zhCn: nat, text: string, x: nat, y: nat, color: nat, bgColor: nat)
    | Picture(address: nat, alpha: nat, x: nat, y: nat, w: nat, h: nat)

  datatype Item = Item(id: int, autoDel: bool, shape: Shape)

  datatype Test = NotId(id: int) | Stays

  predicate Holds(t: Test, item: Item) {
    match t
    case NotId(id) => item.id != id
    case Stays => !item.autoDel
  }

  function Filter(items: seq<Item>, t: Test): seq<Item> {
    if items == [] then []
    else
      var last := items[|items| - 1];
      Filter(items[..|items| - 1], t) + if Holds(t, last) then [last] else []
  }

  lemma {:induction false} InFilter(items: seq<Item>, t: Test)
    ensures forall item :: item in Filter(items, t) <==> item in items && Holds(t, item)
  {
    hide Holds;
    if items != [] { InFilter(items[..|items| - 1], t); }
  }

  /** The nodes of the items that hold. */
  function Kept(nodes: seq<Node<Item>>, order: seq<nat>, t: Test): (r: seq<nat>)
    requires InBuffer(nodes, order)
    ensures InBuffer(nodes, r)
  {
    if order == [] then []
    else
      var last := order[|order| - 1];
      Kept(nodes, order[..|order| - 1], t) + if Holds(t, nodes[last].val) then [last] else []
  }

  lemma {:induction false} ValuesOfKept(nodes: seq<Node<Item>>, order: seq<nat>, t: Test)
    requires InBuffer(nodes, order)
    ensures Values(nodes, Kept(nodes, order, t)) == Filter(Values(nodes, order), t)
  {
    if order != [] {
      var n := |order| - 1;
      ValuesOfKept(nodes, order[..n], t);
      assert Values(nodes, order)[..n] == Values(nodes, order[..n]);
    }
  }

  // ----- one item for each id -----

  ghost predicate OneEach(items: seq<Item>) {
    forall j, k :: 0 <= j < k < |items| ==> items[j].id != items[k].id
  }

  /** Every item has an id that the table marks. */
  predicate Tabled(items: seq<Item>, table: seq<bv32>)
    requires |table| == IDS / 32 + 1
  {
    forall item :: item in items ==> 0 <= item.id < IDS && Bit(table, item.id)
  }

  lemma {:induction false} OneEachFiltered(items: seq<Item>, t: Test)
    requires OneEach(items)
    ensures OneEach(Filter(items, t))
  {
    if items != [] {
      var n := |items| - 1;
      OneEachFiltered(items[..n], t);
      InFilter(items[..n], t);
      forall item | item in items[..n] ensures item.id != items[n].id {
        var j :| 0 <= j < n && items[j] == item;
      }
    }
  }

  lemma {:induction false} NothingFiltered(items: seq<Item>, t: Test)
    requires forall item :: item in items ==> Holds(t, item)
    ensures Filter(items, t) == items
  {
    if items != [] {
      NothingFiltered(items[..|items| - 1], t);
      assert items == items[..|items| - 1] + [items[|items| - 1]];
    }
  }

  /** With one item for each id a single item goes. */
  lemma {:induction false} OneFiltered(items: seq<Item>, k: nat)
    requires OneEach(items) && k < |items|
    ensures Filter(items, NotId(items[k].id)) == RemoveAt(items, k)
  {
    var n := |items| - 1;
    var before := items[..n];
    if k == n {
      NothingFiltered(before, NotId(items[k].id));
    } else {
      OneFiltered(before, k);
      assert RemoveAt(items, k) == RemoveAt(before, k) + [items[n]] && before[k] == items[k];
    }
  }

  lemma TabledAfterSet(items: seq<Item>, table: seq<bv32>, id: nat)
    requires |table| == IDS / 32 + 1 && Tabled(items, table) && id < IDS
    ensures Tabled(items, Set(table, id)) && Bit(Set(table, id), id)
  {
    hide Bit, Set;
    BitsOfSet(table, id, id);
    forall item | item in items ensures Bit(Set(table, id), item.id) { BitsOfSet(table, id, item.id); }
  }

  lemma TabledAfterClear(items: seq<Item>, table: seq<bv32>, id: nat)
    requires |table| == IDS / 32 + 1 && Tabled(items, table) && id < 32 * |table|
    ensures Tabled(Filter(items, NotId(id)), Clear(table, id)) && !Bit(Clear(table, id), id)
  {
    hide Bit, Clear;
    BitsOfClear(table, id, id);
    InFilter(items, NotId(id));
    forall item | item in Filter(items, NotId(id)) ensures Bit(Clear(table, id), item.id) { BitsOfClear(table, id, item.id); }
  }

  // ----- there is always room -----

  lemma {:induction false} AtMost(s: seq<nat>, n: nat)
    requires Distinct(s) && forall x :: x in s ==> x < n
    ensures |s| <= n
    decreases n
  {
    if s == [] {
    } else if n - 1 in s {
      assert s[0] in s;
      var k := Position(s, n - 1);
      InDropAll(s, k);
      DistinctDrop(s, k);
      AtMost(RemoveAt(s, k), n - 1);
    } else {
      assert s[0] in s;
      AtMost(s, n - 1);
    }
  }

  lemma {:induction false} AtLeast(s: seq<nat>, n: nat)
    requires Distinct(s) && forall x: nat :: x < n ==> x in s
    ensures |s| >= n
    decreases n
  {
    if n > 0 {
      var k := Position(s, n - 1);
      InDropAll(s, k);
      DistinctDrop(s, k);
      AtLeast(RemoveAt(s, k), n - 1);
    }
  }

  /** A list with one item for each id, and none for `id`, does not fill the pool of nodes. */
  lemma RoomLeft(items: seq<Item>, order: seq<nat>, id: nat)
    requires OneEach(items) && |items| == |order| && Distinct(order) && id < IDS
    requires forall item :: item in items ==> 0 <= item.id < IDS && item.id != id
    ensures exists i: nat :: i < IDS && i !in order
  {
    var ids: seq<nat> := seq(|items|, k requires 0 <= k < |items| => assert items[k] in items; items[k].id as nat);
    AtMost(ids + [id], IDS);
    if forall i: nat :: i < IDS ==> i in order {
      AtLeast(order, IDS);
    }
  }
}

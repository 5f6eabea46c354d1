/** JSON trees as values, and when two of them are the same document.

    An object is the list of its members in child order.  A number carries both
    fields of the node, `valueint` and `valuedouble`. */
module JsonTree {
  import opened CStrings
  import opened MergeSort
  import opened Sequences

  datatype Json =
    | Invalid
    | False
    | True
    | Null
    | Number(vint: int, vdouble: real)
    | String(text: string)
    | Array(items: seq<Json>)
    | Object(members: seq<Member>)
    | Raw(raw: string)

  datatype Member = Member(key: string, value: Json)

  function MemberKey(cs: bool): Member -> string {
    (m: Member) => Key(m.key, cs)
  }

  /** `sort_object`. */
  function SortMembers(ms: seq<Member>, cs: bool): (r: seq<Member>)
    ensures multiset(r) == multiset(ms)
    ensures |r| == |ms|
  {
    Sort(ms, MemberKey(cs))
  }

  // ----- height, the measure of every recursion over a tree -----

  ghost function Height(t: Json): (h: nat)
    ensures t.Array? ==> forall i :: 0 <= i < |t.items| ==> Height(t.items[i]) < h
    ensures t.Object? ==> forall i :: 0 <= i < |t.members| ==> Height(t.members[i].value) < h
  {
    match t
    case Array(xs) => 1 + ItemsHeight(xs)
    case Object(ms) => 1 + MembersHeight(ms)
    case _ => 0
  }

  ghost function ItemsHeight(xs: seq<Json>): (h: nat)
    ensures forall i :: 0 <= i < |xs| ==> Height(xs[i]) <= h
  {
    if xs == [] then 0
    else
      var a, b := Height(xs[0]), ItemsHeight(xs[1..]);
      if a > b then a else b
  }

  ghost function MembersHeight(ms: seq<Member>): (h: nat)
    ensures forall i :: 0 <= i < |ms| ==> Height(ms[i].value) <= h
  {
    if ms == [] then 0
    else
      var a, b := Height(ms[0].value), MembersHeight(ms[1..]);
      if a > b then a else b
  }

  ghost predicate LowerItems(xs: seq<Json>, h: nat) {
    forall i :: 0 <= i < |xs| ==> Height(xs[i]) < h
  }

  ghost predicate LowerMembers(ms: seq<Member>, h: nat) {
    forall i :: 0 <= i < |ms| ==> Height(ms[i].value) < h
  }

  lemma SameElements<T>(s: seq<T>, t: seq<T>, i: nat) returns (j: nat)
    requires multiset(s) == multiset(t) && i < |s|
    ensures j < |t| && t[j] == s[i]
  {
    assert s[i] in multiset(s);
    assert s[i] in multiset(t);
    j :| 0 <= j < |t| && t[j] == s[i];
  }

  lemma SortedLower(ms: seq<Member>, cs: bool, h: nat)
    requires LowerMembers(ms, h)
    ensures LowerMembers(SortMembers(ms, cs), h)
  {
    var s := SortMembers(ms, cs);
    forall i | 0 <= i < |s| ensures Height(s[i].value) < h {
      var j := SameElements(s, ms, i);
    }
  }

  // ----- looking a member up -----

  /** No two members share a key, up to letter case unless `cs`. */
  predicate Distinct(ms: seq<Member>, cs: bool) {
    forall i, j :: 0 <= i < j < |ms| ==> !KeyEq(ms[i].key, ms[j].key, cs)
  }

  /** The walk of `get_object_item`: the first member with the key, or the length. */
  function Find(ms: seq<Member>, key: string, cs: bool): (r: nat)
    ensures r <= |ms|
    ensures r < |ms| ==> KeyEq(ms[r].key, key, cs)
    ensures forall i :: 0 <= i < r ==> !KeyEq(ms[i].key, key, cs)
  {
    if ms == [] then 0
    else if KeyEq(ms[0].key, key, cs) then 0
    else 1 + Find(ms[1..], key, cs)
  }

  predicate Has(ms: seq<Member>, key: string, cs: bool) {
    Find(ms, key, cs) < |ms|
  }

  lemma FindIs(ms: seq<Member>, key: string, cs: bool, i: nat)
    requires i < |ms| && KeyEq(ms[i].key, key, cs)
    requires forall j :: 0 <= j < i ==> !KeyEq(ms[j].key, key, cs)
    ensures Find(ms, key, cs) == i
  {
  }

  lemma FindDistinct(ms: seq<Member>, key: string, cs: bool, i: nat)
    requires Distinct(ms, cs) && i < |ms| && KeyEq(ms[i].key, key, cs)
    ensures Find(ms, key, cs) == i
  {
  }

  lemma FindCongruent(ms: seq<Member>, a: string, b: string, cs: bool)
    requires KeyEq(a, b, cs)
    ensures Find(ms, a, cs) == Find(ms, b, cs)
  {
  }

  /** A tree whose objects have no two equal keys, at any depth. */
  predicate Unique(t: Json, cs: bool) {
    match t
    case Array(xs) => forall i :: 0 <= i < |xs| ==> Unique(xs[i], cs)
    case Object(ms) => Distinct(ms, cs) && forall i :: 0 <= i < |ms| ==> Unique(ms[i].value, cs)
    case _ => true
  }

  lemma {:induction false} UniqueFoldedIsUnique(t: Json, cs: bool)
    requires Unique(t, false)
    ensures Unique(t, cs)
  {
    match t
    case Array(xs) =>
      forall i | 0 <= i < |xs| ensures Unique(xs[i], cs) { UniqueFoldedIsUnique(xs[i], cs); }
    case Object(ms) =>
      forall i, j | 0 <= i < j < |ms| ensures !KeyEq(ms[i].key, ms[j].key, cs) {
        assert !KeyEq(ms[i].key, ms[j].key, false);
      }
      forall i | 0 <= i < |ms| ensures Unique(ms[i].value, cs) { UniqueFoldedIsUnique(ms[i].value, cs); }
    case _ =>
  }

  // ----- equality up to the order of members -----

  /** Equal documents: the order of an object's members does not count. */
  ghost predicate Same(a: Json, b: Json, cs: bool) {
    match a
    case Array(xs) =>
      && b.Array? && |xs| == |b.items|
      && forall i :: 0 <= i < |xs| ==> Same(xs[i], b.items[i], cs)
    case Object(ms) =>
      && b.Object? && Distinct(ms, cs) && Distinct(b.members, cs)
      && SameMembers(ms, b.members, cs)
    case _ => a == b
  }

  /** Each member has a partner with the same key and the same value, and no key is left over. */
  ghost predicate SameMembers(ms: seq<Member>, ns: seq<Member>, cs: bool) {
    && (forall i :: 0 <= i < |ms| ==>
          && Has(ns, ms[i].key, cs)
          && Same(ms[i].value, ns[Find(ns, ms[i].key, cs)].value, cs))
    && (forall j :: 0 <= j < |ns| ==> Has(ms, ns[j].key, cs))
  }

  lemma {:induction false} SameReflexive(t: Json, cs: bool)
    requires Unique(t, cs)
    ensures Same(t, t, cs)
  {
    match t
    case Array(xs) =>
      forall i | 0 <= i < |xs| ensures Same(xs[i], xs[i], cs) { SameReflexive(xs[i], cs); }
    case Object(ms) =>
      forall i | 0 <= i < |ms| ensures Find(ms, ms[i].key, cs) == i && Same(ms[i].value, ms[i].value, cs) {
        FindDistinct(ms, ms[i].key, cs, i);
        SameReflexive(ms[i].value, cs);
      }
    case _ =>
  }

  lemma {:induction false} SameIsUnique(a: Json, b: Json, cs: bool)
    requires Same(a, b, cs)
    ensures Unique(a, cs)
  {
    match a
    case Array(xs) =>
      forall i | 0 <= i < |xs| ensures Unique(xs[i], cs) { SameIsUnique(xs[i], b.items[i], cs); }
    case Object(ms) =>
      forall i | 0 <= i < |ms| ensures Unique(ms[i].value, cs) {
        SameIsUnique(ms[i].value, b.members[Find(b.members, ms[i].key, cs)].value, cs);
      }
    case _ =>
  }

  // ----- compare_json -----

  /** `compare_json`: both objects are sorted, then walked in step.
      Two values of the same type that carry nothing, or raw text, compare equal. */
  predicate CompareJson(a: Json, b: Json, cs: bool)
    decreases Height(a), 1, 0
  {
    match (a, b)
    case (Number(i, d), Number(j, e)) => i == j && d == e
    case (String(s), String(t)) => s == t
    case (Array(xs), Array(ys)) => CompareItems(xs, ys, cs, Height(a))
    case (Object(ms), Object(ns)) =>
      SortedLower(ms, cs, Height(a));
      CompareMembers(SortMembers(ms, cs), SortMembers(ns, cs), cs, Height(a))
    case (Invalid, Invalid) => true
    case (False, False) => true
    case (True, True) => true
    case (Null, Null) => true
    case (Raw(_), Raw(_)) => true
    case _ => false
  }

  predicate CompareItems(xs: seq<Json>, ys: seq<Json>, cs: bool, ghost h: nat)
    requires LowerItems(xs, h)
    decreases h, 0, |xs|
  {
    if xs == [] || ys == [] then xs == [] && ys == []
    else CompareJson(xs[0], ys[0], cs) && CompareItems(xs[1..], ys[1..], cs, h)
  }

  predicate CompareMembers(ms: seq<Member>, ns: seq<Member>, cs: bool, ghost h: nat)
    requires LowerMembers(ms, h)
    decreases h, 0, |ms|
  {
    if ms == [] || ns == [] then ms == [] && ns == []
    else
      && Compare(Key(ms[0].key, cs), Key(ns[0].key, cs)) == 0
      && CompareJson(ms[0].value, ns[0].value, cs)
      && CompareMembers(ms[1..], ns[1..], cs, h)
  }

  // ----- what compare_json leaves -----

  /** Comparing sorts the objects it reaches, on both sides and in place: what it leaves of the two nodes. */
  function Left(a: Json, b: Json, cs: bool): (Json, Json)
    decreases Height(a), 1, 0
  {
    match (a, b)
    case (Array(xs), Array(ys)) =>
      var (p, q) := LeftItems(xs, ys, cs, Height(a));
      (Array(p), Array(q))
    case (Object(ms), Object(ns)) =>
      SortedLower(ms, cs, Height(a));
      var (p, q) := LeftMembers(SortMembers(ms, cs), SortMembers(ns, cs), cs, Height(a));
      (Object(p), Object(q))
    case _ => (a, b)
  }

  /** The walk ends at the first pair that differs. */
  function LeftItems(xs: seq<Json>, ys: seq<Json>, cs: bool, ghost h: nat): (seq<Json>, seq<Json>)
    requires LowerItems(xs, h)
    decreases h, 0, |xs|
  {
    if xs == [] || ys == [] then (xs, ys)
    else
      var (x, y) := Left(xs[0], ys[0], cs);
      var (p, q) := if CompareJson(xs[0], ys[0], cs) then LeftItems(xs[1..], ys[1..], cs, h) else (xs[1..], ys[1..]);
      ([x] + p, [y] + q)
  }

  function LeftMembers(ms: seq<Member>, ns: seq<Member>, cs: bool, ghost h: nat): (seq<Member>, seq<Member>)
    requires LowerMembers(ms, h)
    decreases h, 0, |ms|
  {
    if ms == [] || ns == [] || Compare(Key(ms[0].key, cs), Key(ns[0].key, cs)) != 0 then (ms, ns)
    else
      var (x, y) := Left(ms[0].value, ns[0].value, cs);
      var (p, q) := if CompareJson(ms[0].value, ns[0].value, cs) then LeftMembers(ms[1..], ns[1..], cs, h) else (ms[1..], ns[1..]);
      ([Member(ms[0].key, x)] + p, [Member(ns[0].key, y)] + q)
  }

  /** `compare_json` with its loops over the children; `a'` and `b'` are what it leaves. */
  method CompareNodes(a: Json, b: Json, cs: bool) returns (identical: bool, a': Json, b': Json)
    ensures identical <==> CompareJson(a, b, cs)
    ensures (a', b') == Left(a, b, cs)
    decreases Height(a), 1
  {
    hide SortMembers;
    match (a, b)
    case (Array(xs), Array(ys)) =>
      var xs', ys';
      identical, xs', ys' := CompareChildren(xs, ys, cs, Height(a));
      a', b' := Array(xs'), Array(ys');
    case (Object(ms), Object(ns)) =>
      SortedLower(ms, cs, Height(a));
      var ms', ns';
      identical, ms', ns' := CompareMemberLists(SortMembers(ms, cs), SortMembers(ns, cs), cs, Height(a));
      a', b' := Object(ms'), Object(ns');
    case _ => identical, a', b' := CompareJson(a, b, cs), a, b;
  }

  method CompareChildren(xs: seq<Json>, ys: seq<Json>, cs: bool, ghost h: nat)
    returns (identical: bool, xs': seq<Json>, ys': seq<Json>)
    requires LowerItems(xs, h)
    ensures identical <==> CompareItems(xs, ys, cs, h)
    ensures (xs', ys') == LeftItems(xs, ys, cs, h)
    decreases h, 0
  {
    hide CompareJson, Left, CompareItems, LeftItems;
    xs', ys' := xs, ys;
    var i := 0;
    assert xs[0..] == xs && ys[0..] == ys && xs[..0] == [] && ys[..0] == [];
    ghost var all := LeftItems(xs, ys, cs, h);
    EmptyFront(all.0);
    EmptyFront(all.1);
    while i < |xs| && i < |ys|
      invariant i <= |xs| && i <= |ys| && |xs'| == |xs| && |ys'| == |ys|
      invariant xs'[i..] == xs[i..] && ys'[i..] == ys[i..]
      invariant CompareItems(xs, ys, cs, h) <==> CompareItems(xs[i..], ys[i..], cs, h)
      invariant all == (xs'[..i] + LeftItems(xs[i..], ys[i..], cs, h).0, ys'[..i] + LeftItems(xs[i..], ys[i..], cs, h).1)
    {
      ComparedItems(xs, ys, i, cs, h);
      TailOf(xs', xs, i);
      TailOf(ys', ys, i);
      var same, x, y := CompareNodes(xs[i], ys[i], cs);
      Written(xs', i, x, if same then LeftItems(xs[i + 1..], ys[i + 1..], cs, h).0 else xs[i + 1..]);
      Written(ys', i, y, if same then LeftItems(xs[i + 1..], ys[i + 1..], cs, h).1 else ys[i + 1..]);
      xs', ys' := xs'[i := x], ys'[i := y];
      if !same {
        return false, xs', ys';
      }
      i := i + 1;
    }
    NoItemsToCompare(xs[i..], ys[i..], cs, h);
    Halves(xs', i);
    Halves(ys', i);
    return i == |xs| && i == |ys|, xs', ys';
  }

  lemma ComparedItems(xs: seq<Json>, ys: seq<Json>, i: nat, cs: bool, h: nat)
    requires LowerItems(xs, h) && i < |xs| && i < |ys|
    ensures CompareItems(xs[i..], ys[i..], cs, h) <==> CompareJson(xs[i], ys[i], cs) && CompareItems(xs[i + 1..], ys[i + 1..], cs, h)
    ensures LeftItems(xs[i..], ys[i..], cs, h) ==
      var (x, y) := Left(xs[i], ys[i], cs);
      var (p, q) := if CompareJson(xs[i], ys[i], cs) then LeftItems(xs[i + 1..], ys[i + 1..], cs, h) else (xs[i + 1..], ys[i + 1..]);
      ([x] + p, [y] + q)
  {
    hide CompareJson, Left;
    assert xs[i..][1..] == xs[i + 1..] && ys[i..][1..] == ys[i + 1..];
  }

  lemma NoItemsToCompare(xs: seq<Json>, ys: seq<Json>, cs: bool, h: nat)
    requires LowerItems(xs, h) && (xs == [] || ys == [])
    ensures CompareItems(xs, ys, cs, h) <==> xs == [] && ys == []
    ensures LeftItems(xs, ys, cs, h) == (xs, ys)
  {
  }

  method CompareMemberLists(ms: seq<Member>, ns: seq<Member>, cs: bool, ghost h: nat)
    returns (identical: bool, ms': seq<Member>, ns': seq<Member>)
    requires LowerMembers(ms, h)
    ensures identical <==> CompareMembers(ms, ns, cs, h)
    ensures (ms', ns') == LeftMembers(ms, ns, cs, h)
    decreases h, 0
  {
    hide CompareJson, Left, CompareMembers, LeftMembers, Compare;
    ms', ns' := ms, ns;
    var i := 0;
    assert ms[0..] == ms && ns[0..] == ns && ms[..0] == [] && ns[..0] == [];
    ghost var all := LeftMembers(ms, ns, cs, h);
    EmptyFront(all.0);
    EmptyFront(all.1);
    while i < |ms| && i < |ns|
      invariant i <= |ms| && i <= |ns| && |ms'| == |ms| && |ns'| == |ns|
      invariant ms'[i..] == ms[i..] && ns'[i..] == ns[i..]
      invariant CompareMembers(ms, ns, cs, h) <==> CompareMembers(ms[i..], ns[i..], cs, h)
      invariant all == (ms'[..i] + LeftMembers(ms[i..], ns[i..], cs, h).0, ns'[..i] + LeftMembers(ms[i..], ns[i..], cs, h).1)
    {
      ComparedMembers(ms, ns, i, cs, h);
      if Compare(Key(ms[i].key, cs), Key(ns[i].key, cs)) != 0 {
        Halves(ms', i);
        Halves(ns', i);
        return false, ms', ns';
      }
      TailOf(ms', ms, i);
      TailOf(ns', ns, i);
      var same, x, y := CompareNodes(ms[i].value, ns[i].value, cs);
      Written(ms', i, Member(ms[i].key, x), if same then LeftMembers(ms[i + 1..], ns[i + 1..], cs, h).0 else ms[i + 1..]);
      Written(ns', i, Member(ns[i].key, y), if same then LeftMembers(ms[i + 1..], ns[i + 1..], cs, h).1 else ns[i + 1..]);
      ms', ns' := ms'[i := Member(ms[i].key, x)], ns'[i := Member(ns[i].key, y)];
      if !same {
        return false, ms', ns';
      }
      i := i + 1;
    }
    NoMembersToCompare(ms[i..], ns[i..], cs, h);
    Halves(ms', i);
    Halves(ns', i);
    return i == |ms| && i == |ns|, ms', ns';
  }

  lemma ComparedMembers(ms: seq<Member>, ns: seq<Member>, i: nat, cs: bool, h: nat)
    requires LowerMembers(ms, h) && i < |ms| && i < |ns|
    ensures CompareMembers(ms[i..], ns[i..], cs, h)
      <==> Compare(Key(ms[i].key, cs), Key(ns[i].key, cs)) == 0 && CompareJson(ms[i].value, ns[i].value, cs) && CompareMembers(ms[i + 1..], ns[i + 1..], cs, h)
    ensures LeftMembers(ms[i..], ns[i..], cs, h) ==
      if Compare(Key(ms[i].key, cs), Key(ns[i].key, cs)) != 0 then (ms[i..], ns[i..])
      else
        var (x, y) := Left(ms[i].value, ns[i].value, cs);
        var (p, q) := if CompareJson(ms[i].value, ns[i].value, cs) then LeftMembers(ms[i + 1..], ns[i + 1..], cs, h) else (ms[i + 1..], ns[i + 1..]);
        ([Member(ms[i].key, x)] + p, [Member(ns[i].key, y)] + q)
  {
    hide CompareJson, Left, Compare;
    assert ms[i..][1..] == ms[i + 1..] && ns[i..][1..] == ns[i + 1..];
  }

  lemma NoMembersToCompare(ms: seq<Member>, ns: seq<Member>, cs: bool, h: nat)
    requires LowerMembers(ms, h) && (ms == [] || ns == [])
    ensures CompareMembers(ms, ns, cs, h) <==> ms == [] && ns == []
    ensures LeftMembers(ms, ns, cs, h) == (ms, ns)
  {
  }

  /** No raw text and no invalid node anywhere. */
  predicate Plain(t: Json) {
    match t
    case Array(xs) => forall i :: 0 <= i < |xs| ==> Plain(xs[i])
    case Object(ms) => forall i :: 0 <= i < |ms| ==> Plain(ms[i].value)
    case Raw(_) => false
    case Invalid => false
    case _ => true
  }

  /** Strictly ascending keys: what sorting makes of distinct ones. */
  ghost predicate Increasing(ms: seq<Member>, cs: bool) {
    forall i, j :: 0 <= i < j < |ms| ==> Compare(Key(ms[i].key, cs), Key(ms[j].key, cs)) < 0
  }

  lemma SortIncreasing(ms: seq<Member>, cs: bool)
    requires Distinct(ms, cs)
    ensures Distinct(SortMembers(ms, cs), cs) && Increasing(SortMembers(ms, cs), cs)
  {
    var s := SortMembers(ms, cs);
    DistinctPermutation(ms, s, cs);
    SortSorted(ms, MemberKey(cs));
    forall i, j | 0 <= i < j < |s| ensures Compare(Key(s[i].key, cs), Key(s[j].key, cs)) < 0 {
      assert Compare(MemberKey(cs)(s[i]), MemberKey(cs)(s[j])) <= 0;
      CompareEqual(Key(s[i].key, cs), Key(s[j].key, cs));
    }
  }

  lemma TwiceMeansTwoPlaces(s: seq<Member>, x: Member)
    ensures multiset(s)[x] >= 2 <==> exists i, j :: 0 <= i < j < |s| && s[i] == x && s[j] == x
  {
    if multiset(s)[x] >= 2 {
      var i :| 0 <= i < |s| && s[i] == x;
      assert s == s[..i] + [x] + s[i + 1..];
      if x in s[..i] {
        var j :| 0 <= j < i && s[..i][j] == x;
        assert 0 <= j < i < |s| && s[j] == x && s[i] == x;
      } else {
        assert multiset(s)[x] == multiset(s[..i])[x] + 1 + multiset(s[i + 1..])[x];
        assert x in s[i + 1..];
        var j :| 0 <= j < |s[i + 1..]| && s[i + 1..][j] == x;
        assert 0 <= i < i + 1 + j < |s| && s[i] == x && s[i + 1 + j] == x;
      }
    }
    if i, j :| 0 <= i < j < |s| && s[i] == x && s[j] == x {
      assert s == s[..j] + s[j..];
      assert x in s[..j] && x in s[j..] by { assert s[..j][i] == x && s[j..][0] == x; }
    }
  }

  lemma DistinctPermutation(ms: seq<Member>, s: seq<Member>, cs: bool)
    requires Distinct(ms, cs) && multiset(s) == multiset(ms)
    ensures Distinct(s, cs)
  {
    forall i, j | 0 <= i < j < |s| ensures !KeyEq(s[i].key, s[j].key, cs) {
      if s[i] == s[j] {
        TwiceMeansTwoPlaces(s, s[i]);
        TwiceMeansTwoPlaces(ms, s[i]);
      } else {
        var a := SameElements(s, ms, i);
        var b := SameElements(s, ms, j);
        assert a < b || b < a;
      }
    }
  }

  /** Looking up in a permutation finds the same member. */
  lemma FindPermutation(ms: seq<Member>, s: seq<Member>, key: string, cs: bool)
    requires Distinct(ms, cs) && multiset(s) == multiset(ms)
    ensures Has(ms, key, cs) == Has(s, key, cs)
    ensures Has(ms, key, cs) ==> ms[Find(ms, key, cs)] == s[Find(s, key, cs)]
  {
    DistinctPermutation(ms, s, cs);
    if Has(ms, key, cs) {
      var j := SameElements(ms, s, Find(ms, key, cs));
      FindDistinct(s, key, cs, j);
    }
    if Has(s, key, cs) {
      var j := SameElements(s, ms, Find(s, key, cs));
      FindDistinct(ms, key, cs, j);
    }
  }

  lemma SameMembersPermutation(ms: seq<Member>, ns: seq<Member>, ms': seq<Member>, ns': seq<Member>, cs: bool)
    requires Distinct(ms, cs) && Distinct(ns, cs)
    requires multiset(ms') == multiset(ms) && multiset(ns') == multiset(ns)
    requires SameMembers(ms, ns, cs)
    ensures SameMembers(ms', ns', cs)
  {
    forall i | 0 <= i < |ms'|
      ensures Has(ns', ms'[i].key, cs)
      ensures Same(ms'[i].value, ns'[Find(ns', ms'[i].key, cs)].value, cs)
    {
      var k := SameElements(ms', ms, i);
      FindPermutation(ns, ns', ms'[i].key, cs);
    }
    forall j | 0 <= j < |ns'| ensures Has(ms', ns'[j].key, cs) {
      var k := SameElements(ns', ns, j);
      FindPermutation(ms, ms', ns'[j].key, cs);
    }
  }

  /** `compare_json` decides equality up to member order, whatever the member order it is given. */
  lemma {:induction false} CompareDecidesSame(a: Json, b: Json, cs: bool)
    requires Unique(a, cs) && Unique(b, cs) && Plain(a) && Plain(b)
    ensures CompareJson(a, b, cs) <==> Same(a, b, cs)
    decreases Height(a), 1, 0
  {
    if a.Array? && b.Array? {
      CompareItemsDecides(a.items, b.items, cs, Height(a));
    } else if a.Object? && b.Object? {
      CompareObjectsDecides(a, b, cs);
    }
  }

  lemma {:induction false} CompareObjectsDecides(a: Json, b: Json, cs: bool)
    requires a.Object? && b.Object?
    requires Unique(a, cs) && Unique(b, cs) && Plain(a) && Plain(b)
    ensures CompareJson(a, b, cs) <==> Same(a, b, cs)
    decreases Height(a), 0, |a.members| + 1
  {
    var ms, ns := a.members, b.members;
    var sm, sn := SortMembers(ms, cs), SortMembers(ns, cs);
    SortedLower(ms, cs, Height(a));
    SortIncreasing(ms, cs);
    SortIncreasing(ns, cs);
    SortedChildren(ms, cs);
    SortedChildren(ns, cs);
    CompareMembersDecides(sm, sn, cs, Height(a));
    assert SameMembers(sm, sn, cs) <==> SameMembers(ms, ns, cs) by { SameMembersSorted(ms, ns, cs); }
    assert Same(a, b, cs) <==> SameMembers(ms, ns, cs);
  }

  lemma SameMembersSorted(ms: seq<Member>, ns: seq<Member>, cs: bool)
    requires Distinct(ms, cs) && Distinct(ns, cs)
    ensures SameMembers(SortMembers(ms, cs), SortMembers(ns, cs), cs) <==> SameMembers(ms, ns, cs)
  {
    var sm, sn := SortMembers(ms, cs), SortMembers(ns, cs);
    DistinctPermutation(ms, sm, cs);
    DistinctPermutation(ns, sn, cs);
    if SameMembers(ms, ns, cs) { SameMembersPermutation(ms, ns, sm, sn, cs); }
    if SameMembers(sm, sn, cs) { SameMembersPermutation(sm, sn, ms, ns, cs); }
  }

  lemma SortedChildren(ms: seq<Member>, cs: bool)
    requires forall i :: 0 <= i < |ms| ==> Unique(ms[i].value, cs) && Plain(ms[i].value)
    ensures var sm := SortMembers(ms, cs);
            forall i :: 0 <= i < |sm| ==> Unique(sm[i].value, cs) && Plain(sm[i].value)
  {
    var sm := SortMembers(ms, cs);
    forall i | 0 <= i < |sm| ensures Unique(sm[i].value, cs) && Plain(sm[i].value) {
      var k := SameElements(sm, ms, i);
    }
  }

  lemma {:induction false} CompareItemsDecides(xs: seq<Json>, ys: seq<Json>, cs: bool, h: nat)
    requires LowerItems(xs, h)
    requires forall i :: 0 <= i < |xs| ==> Unique(xs[i], cs) && Plain(xs[i])
    requires forall i :: 0 <= i < |ys| ==> Unique(ys[i], cs) && Plain(ys[i])
    ensures CompareItems(xs, ys, cs, h) <==> |xs| == |ys| && forall i :: 0 <= i < |xs| ==> Same(xs[i], ys[i], cs)
    decreases h, 0, |xs|
  {
    if xs != [] && ys != [] {
      CompareDecidesSame(xs[0], ys[0], cs);
      CompareItemsDecides(xs[1..], ys[1..], cs, h);
      if CompareItems(xs, ys, cs, h) {
        forall i | 0 <= i < |xs| ensures Same(xs[i], ys[i], cs) {
          if i > 0 { assert Same(xs[1..][i - 1], ys[1..][i - 1], cs); }
        }
      }
    }
  }

  lemma {:induction false} CompareMembersDecides(ms: seq<Member>, ns: seq<Member>, cs: bool, h: nat)
    requires LowerMembers(ms, h)
    requires Distinct(ms, cs) && Increasing(ms, cs) && Distinct(ns, cs) && Increasing(ns, cs)
    requires forall i :: 0 <= i < |ms| ==> Unique(ms[i].value, cs) && Plain(ms[i].value)
    requires forall i :: 0 <= i < |ns| ==> Unique(ns[i].value, cs) && Plain(ns[i].value)
    ensures CompareMembers(ms, ns, cs, h) <==> SameMembers(ms, ns, cs)
    decreases h, 0, |ms|
  {
    if ms == [] {
      if ns != [] { assert !Has(ms, ns[0].key, cs); }
    } else if ns == [] {
      assert !Has(ns, ms[0].key, cs);
    } else {
      var a, b := Key(ms[0].key, cs), Key(ns[0].key, cs);
      CompareEqual(a, b);
      CompareDecidesSame(ms[0].value, ns[0].value, cs);
      CompareMembersDecides(ms[1..], ns[1..], cs, h);
      if a == b {
        SameMembersCons(ms, ns, cs);
      } else {
        LeastKeyMissing(ms, ns, cs);
      }
    }
  }

  /** Looking up the key of a later member skips a head that has the first member's key. */
  lemma FindBehindHead(ms: seq<Member>, ns: seq<Member>, i: nat, cs: bool)
    requires ns != [] && 0 < i < |ms| && Distinct(ms, cs) && KeyEq(ms[0].key, ns[0].key, cs)
    ensures ms[1..][i - 1] == ms[i]
    ensures Find(ns, ms[i].key, cs) == 1 + Find(ns[1..], ms[i].key, cs)
  {
    assert !KeyEq(ms[0].key, ms[i].key, cs);
  }

  /** Equal heads can be dropped from both lists. */
  lemma SameMembersCons(ms: seq<Member>, ns: seq<Member>, cs: bool)
    requires ms != [] && ns != [] && Distinct(ms, cs) && Distinct(ns, cs) && KeyEq(ms[0].key, ns[0].key, cs)
    ensures SameMembers(ms, ns, cs) <==> Same(ms[0].value, ns[0].value, cs) && SameMembers(ms[1..], ns[1..], cs)
  {
    if SameMembers(ms, ns, cs) {
      assert Find(ns, ms[0].key, cs) == 0;
      DropHeads(ms, ns, cs);
    }
    if Same(ms[0].value, ns[0].value, cs) && SameMembers(ms[1..], ns[1..], cs) {
      AddHeads(ms, ns, cs);
    }
  }

  lemma DropHeads(ms: seq<Member>, ns: seq<Member>, cs: bool)
    requires ms != [] && ns != [] && Distinct(ms, cs) && Distinct(ns, cs) && KeyEq(ms[0].key, ns[0].key, cs)
    requires SameMembers(ms, ns, cs)
    ensures SameMembers(ms[1..], ns[1..], cs)
  {
    var mt, nt := ms[1..], ns[1..];
    forall i | 0 <= i < |mt|
      ensures Has(nt, mt[i].key, cs) && Same(mt[i].value, nt[Find(nt, mt[i].key, cs)].value, cs)
    {
      FindBehindHead(ms, ns, i + 1, cs);
      assert Has(ns, ms[i + 1].key, cs);
    }
    forall j | 0 <= j < |nt| ensures Has(mt, nt[j].key, cs) {
      FindBehindHead(ns, ms, j + 1, cs);
      assert Has(ms, ns[j + 1].key, cs);
    }
  }

  lemma AddHeads(ms: seq<Member>, ns: seq<Member>, cs: bool)
    requires ms != [] && ns != [] && Distinct(ms, cs) && Distinct(ns, cs) && KeyEq(ms[0].key, ns[0].key, cs)
    requires SameMembers(ms[1..], ns[1..], cs) && Same(ms[0].value, ns[0].value, cs)
    ensures SameMembers(ms, ns, cs)
  {
    forall i | 0 <= i < |ms|
      ensures Has(ns, ms[i].key, cs) && Same(ms[i].value, ns[Find(ns, ms[i].key, cs)].value, cs)
    {
      if i > 0 { LaterMember(ms, ns, i, cs); }
    }
    forall j | 0 <= j < |ns| ensures Has(ms, ns[j].key, cs) {
      if j > 0 {
        FindBehindHead(ns, ms, j, cs);
        assert Has(ms[1..], ns[1..][j - 1].key, cs);
      }
    }
  }

  lemma LaterMember(ms: seq<Member>, ns: seq<Member>, i: nat, cs: bool)
    requires ns != [] && 0 < i < |ms| && Distinct(ms, cs) && KeyEq(ms[0].key, ns[0].key, cs)
    requires SameMembers(ms[1..], ns[1..], cs)
    ensures Has(ns, ms[i].key, cs) && Same(ms[i].value, ns[Find(ns, ms[i].key, cs)].value, cs)
  {
    FindBehindHead(ms, ns, i, cs);
    assert Has(ns[1..], ms[1..][i - 1].key, cs);
  }

  /** Of two ascending lists with different least keys, one lacks the other's. */
  lemma LeastKeyMissing(ms: seq<Member>, ns: seq<Member>, cs: bool)
    requires ms != [] && ns != [] && Increasing(ms, cs) && Increasing(ns, cs)
    requires !KeyEq(ms[0].key, ns[0].key, cs)
    ensures !SameMembers(ms, ns, cs)
  {
    var a, b := Key(ms[0].key, cs), Key(ns[0].key, cs);
    CompareEqual(a, b);
    CompareAntisymmetric(a, b);
    if Compare(a, b) < 0 {
      NotAmongLarger(ms[0].key, ns, cs);
    } else {
      NotAmongLarger(ns[0].key, ms, cs);
    }
  }

  lemma NotAmongLarger(key: string, ns: seq<Member>, cs: bool)
    requires ns != [] && Increasing(ns, cs) && Compare(Key(key, cs), Key(ns[0].key, cs)) < 0
    ensures !Has(ns, key, cs)
  {
    forall j | 0 <= j < |ns| ensures !KeyEq(ns[j].key, key, cs) {
      if j > 0 { CompareTransitive(Key(key, cs), Key(ns[0].key, cs), Key(ns[j].key, cs)); }
      CompareEqual(Key(key, cs), Key(ns[j].key, cs));
    }
  }
}

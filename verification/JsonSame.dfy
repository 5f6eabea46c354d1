/** Equality up to member order is an equivalence, and comparing two documents leaves each of them the same. */
module JsonSame {

  import opened CStrings
  import opened JsonTree
  import opened MergeSort

  // ----- an equivalence -----

  /** The partner of a member on the other side, and back. */
  lemma Partner(ms: seq<Member>, ns: seq<Member>, j: nat, cs: bool) returns (i: nat)
    requires Distinct(ms, cs) && Distinct(ns, cs) && SameMembers(ms, ns, cs) && j < |ns|
    ensures i < |ms| && Find(ms, ns[j].key, cs) == i && Find(ns, ms[i].key, cs) == j && Same(ms[i].value, ns[j].value, cs)
  {
    i := Find(ms, ns[j].key, cs);
    FindDistinct(ns, ms[i].key, cs, j);
  }

  lemma {:induction false} SameSymmetric(a: Json, b: Json, cs: bool)
    requires Same(a, b, cs)
    ensures Same(b, a, cs)
    decreases a
  {
    match a
    case Array(xs) => forall i | 0 <= i < |xs| ensures Same(b.items[i], xs[i], cs) { SameSymmetric(xs[i], b.items[i], cs); }
    case Object(ms) =>
      var ns := b.members;
      forall j | 0 <= j < |ns| ensures Has(ms, ns[j].key, cs) && Same(ns[j].value, ms[Find(ms, ns[j].key, cs)].value, cs) {
        var i := Partner(ms, ns, j, cs);
        SameSymmetric(ms[i].value, ns[j].value, cs);
      }
    case _ =>
  }

  lemma {:induction false} SameTransitive(a: Json, b: Json, c: Json, cs: bool)
    requires Same(a, b, cs) && Same(b, c, cs)
    ensures Same(a, c, cs)
    decreases a
  {
    match a
    case Array(xs) =>
      forall i | 0 <= i < |xs| ensures Same(xs[i], c.items[i], cs) { SameTransitive(xs[i], b.items[i], c.items[i], cs); }
    case Object(ms) => MembersTransitive(ms, b.members, c.members, cs);
    case _ =>
  }

  lemma {:induction false} MembersTransitive(ms: seq<Member>, ns: seq<Member>, os: seq<Member>, cs: bool)
    requires Distinct(ms, cs) && Distinct(ns, cs) && Distinct(os, cs) && SameMembers(ms, ns, cs) && SameMembers(ns, os, cs)
    ensures SameMembers(ms, os, cs)
    decreases ms
  {
    forall i | 0 <= i < |ms| ensures Has(os, ms[i].key, cs) && Same(ms[i].value, os[Find(os, ms[i].key, cs)].value, cs) {
      var j := Find(ns, ms[i].key, cs);
      FindCongruent(os, ms[i].key, ns[j].key, cs);
      SameTransitive(ms[i].value, ns[j].value, os[Find(os, ns[j].key, cs)].value, cs);
    }
    forall k | 0 <= k < |os| ensures Has(ms, os[k].key, cs) {
      var j := Find(ns, os[k].key, cs);
      FindCongruent(ms, ns[j].key, os[k].key, cs);
    }
  }

  /** Replacing one side by the same document changes nothing. */
  lemma SameCongruent(a: Json, b: Json, b': Json, cs: bool)
    requires Same(b', b, cs)
    ensures Same(a, b', cs) <==> Same(a, b, cs)
    ensures Same(b', a, cs) <==> Same(b, a, cs)
  {
    hide Same;
    SameSymmetric(b', b, cs);
    if Same(a, b', cs) { SameTransitive(a, b', b, cs); }
    if Same(a, b, cs) { SameTransitive(a, b, b', cs); }
    if Same(b', a, cs) { SameTransitive(b, b', a, cs); }
    if Same(b, a, cs) { SameTransitive(b', b, a, cs); }
  }

  lemma {:induction false} SamePlain(a: Json, b: Json, cs: bool)
    requires Same(a, b, cs) && Plain(b)
    ensures Plain(a)
  {
    match a
    case Array(xs) =>
      forall i | 0 <= i < |xs| ensures Plain(xs[i]) { SamePlain(xs[i], b.items[i], cs); }
    case Object(ms) =>
      forall i | 0 <= i < |ms| ensures Plain(ms[i].value) {
        SamePlain(ms[i].value, b.members[Find(b.members, ms[i].key, cs)].value, cs);
      }
    case _ =>
  }

  // ----- comparing leaves the heights -----

  lemma {:induction false} ItemsHeightBelow(xs: seq<Json>, h: nat)
    requires LowerItems(xs, h) && h > 0
    ensures ItemsHeight(xs) < h
  {
    if xs != [] { ItemsHeightBelow(xs[1..], h); }
  }

  lemma {:induction false} MembersHeightBelow(ms: seq<Member>, h: nat)
    requires LowerMembers(ms, h) && h > 0
    ensures MembersHeight(ms) < h
  {
    if ms != [] { MembersHeightBelow(ms[1..], h); }
  }

  lemma {:induction false} LeftLower(a: Json, b: Json, cs: bool)
    ensures Height(Left(a, b, cs).0) <= Height(a)
    decreases Height(a), 1, 0
  {
    if a.Array? && b.Array? {
      LeftItemsLower(a.items, b.items, cs, Height(a));
      ItemsHeightBelow(LeftItems(a.items, b.items, cs, Height(a)).0, Height(a));
    } else if a.Object? && b.Object? {
      SortedLower(a.members, cs, Height(a));
      var s, t := SortMembers(a.members, cs), SortMembers(b.members, cs);
      LeftMembersLower(s, t, cs, Height(a));
      MembersHeightBelow(LeftMembers(s, t, cs, Height(a)).0, Height(a));
    }
  }

  lemma {:induction false} LeftItemsLower(xs: seq<Json>, ys: seq<Json>, cs: bool, h: nat)
    requires LowerItems(xs, h)
    ensures LowerItems(LeftItems(xs, ys, cs, h).0, h)
    decreases h, 0, |xs|
  {
    hide CompareJson, Left, Height;
    if xs != [] && ys != [] {
      LeftLower(xs[0], ys[0], cs);
      LeftItemsLower(xs[1..], ys[1..], cs, h);
    }
  }

  lemma {:induction false} LeftMembersLower(ms: seq<Member>, ns: seq<Member>, cs: bool, h: nat)
    requires LowerMembers(ms, h)
    ensures LowerMembers(LeftMembers(ms, ns, cs, h).0, h)
    decreases h, 0, |ms|
  {
    hide CompareJson, Left, Height, Compare;
    if ms != [] && ns != [] {
      LeftLower(ms[0].value, ns[0].value, cs);
      LeftMembersLower(ms[1..], ns[1..], cs, h);
    }
  }

  // ----- comparing leaves the documents -----

  ghost predicate SameItems(xs: seq<Json>, ys: seq<Json>, cs: bool) {
    |xs| == |ys| && forall i :: 0 <= i < |xs| ==> Same(xs[i], ys[i], cs)
  }

  /** The same keys in the same order, over the same values. */
  ghost predicate SameInOrder(ps: seq<Member>, ms: seq<Member>, cs: bool) {
    |ps| == |ms| && forall i :: 0 <= i < |ps| ==> ps[i].key == ms[i].key && Same(ps[i].value, ms[i].value, cs)
  }

  lemma SameAfterSorting(ps: seq<Member>, s: seq<Member>, ms: seq<Member>, cs: bool)
    requires Distinct(ms, cs) && multiset(s) == multiset(ms) && SameInOrder(ps, s, cs)
    ensures Same(Object(ps), Object(ms), cs)
  {
    hide Same;
    DistinctPermutation(ms, s, cs);
    assert Distinct(ps, cs) by {
      forall i, j | 0 <= i < j < |ps| ensures !KeyEq(ps[i].key, ps[j].key, cs) { assert !KeyEq(s[i].key, s[j].key, cs); }
    }
    forall i | 0 <= i < |ps| ensures Find(s, ps[i].key, cs) == i && Find(ps, s[i].key, cs) == i {
      FindDistinct(s, ps[i].key, cs, i);
      FindDistinct(ps, s[i].key, cs, i);
    }
    assert SameMembers(ps, s, cs);
    SameMembersPermutation(ps, s, ps, ms, cs);
    ObjectsSame(ps, ms, cs);
  }

  lemma ObjectsSame(ps: seq<Member>, ms: seq<Member>, cs: bool)
    requires Distinct(ps, cs) && Distinct(ms, cs) && SameMembers(ps, ms, cs)
    ensures Same(Object(ps), Object(ms), cs)
  {
  }

  /** Comparing in any mode leaves both documents the same. */
  lemma {:induction false} LeftSame(a: Json, b: Json, gs: bool, cs: bool)
    requires Unique(a, cs) && Unique(b, cs)
    ensures Same(Left(a, b, gs).0, a, cs) && Same(Left(a, b, gs).1, b, cs)
    decreases Height(a), 1, 0
  {
    if a.Array? && b.Array? {
      LeftItemsSame(a.items, b.items, gs, cs, Height(a));
    } else if a.Object? && b.Object? {
      LeftObjectsSame(a, b, gs, cs);
    } else {
      SameReflexive(a, cs);
      SameReflexive(b, cs);
    }
  }

  lemma {:induction false} LeftObjectsSame(a: Json, b: Json, gs: bool, cs: bool)
    requires a.Object? && b.Object? && Unique(a, cs) && Unique(b, cs)
    ensures Same(Left(a, b, gs).0, a, cs) && Same(Left(a, b, gs).1, b, cs)
    decreases Height(a), 0
  {
    hide LeftMembers, SortMembers, Same, Distinct;
    var s, t := SortMembers(a.members, gs), SortMembers(b.members, gs);
    SortedLower(a.members, gs, Height(a));
    forall i | 0 <= i < |s| ensures Unique(s[i].value, cs) { var k := SameElements(s, a.members, i); }
    forall i | 0 <= i < |t| ensures Unique(t[i].value, cs) { var k := SameElements(t, b.members, i); }
    LeftMembersSame(s, t, gs, cs, Height(a));
    var (p, q) := LeftMembers(s, t, gs, Height(a));
    SameAfterSorting(p, s, a.members, cs);
    SameAfterSorting(q, t, b.members, cs);
  }

  lemma {:induction false} LeftItemsSame(xs: seq<Json>, ys: seq<Json>, gs: bool, cs: bool, h: nat)
    requires LowerItems(xs, h)
    requires (forall i :: 0 <= i < |xs| ==> Unique(xs[i], cs)) && forall i :: 0 <= i < |ys| ==> Unique(ys[i], cs)
    ensures SameItems(LeftItems(xs, ys, gs, h).0, xs, cs) && SameItems(LeftItems(xs, ys, gs, h).1, ys, cs)
    decreases h, 0, |xs|
  {
    hide CompareJson, Left, Same, Unique;
    ItemsSame(xs, cs);
    ItemsSame(ys, cs);
    if xs != [] && ys != [] {
      LeftSame(xs[0], ys[0], gs, cs);
      LeftItemsSame(xs[1..], ys[1..], gs, cs, h);
    }
  }

  lemma ItemsSame(xs: seq<Json>, cs: bool)
    requires forall i :: 0 <= i < |xs| ==> Unique(xs[i], cs)
    ensures SameItems(xs, xs, cs)
  {
    hide Same, Unique;
    forall i | 0 <= i < |xs| ensures Same(xs[i], xs[i], cs) { SameReflexive(xs[i], cs); }
  }

  lemma MembersSame(ms: seq<Member>, cs: bool)
    requires forall i :: 0 <= i < |ms| ==> Unique(ms[i].value, cs)
    ensures SameInOrder(ms, ms, cs)
  {
    hide Same, Unique;
    forall i | 0 <= i < |ms| ensures Same(ms[i].value, ms[i].value, cs) { SameReflexive(ms[i].value, cs); }
  }

  lemma {:induction false} LeftMembersSame(ms: seq<Member>, ns: seq<Member>, gs: bool, cs: bool, h: nat)
    requires LowerMembers(ms, h)
    requires (forall i :: 0 <= i < |ms| ==> Unique(ms[i].value, cs)) && forall i :: 0 <= i < |ns| ==> Unique(ns[i].value, cs)
    ensures SameInOrder(LeftMembers(ms, ns, gs, h).0, ms, cs) && SameInOrder(LeftMembers(ms, ns, gs, h).1, ns, cs)
    decreases h, 0, |ms|
  {
    hide CompareJson, Left, Same, Unique, Compare;
    MembersSame(ms, cs);
    MembersSame(ns, cs);
    if ms != [] && ns != [] {
      LeftSame(ms[0].value, ns[0].value, gs, cs);
      LeftMembersSame(ms[1..], ns[1..], gs, cs, h);
    }
  }
}

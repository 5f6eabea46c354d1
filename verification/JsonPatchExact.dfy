/** Exactly which documents the generated patches lead to, in either mode and with raw items. */
module JsonPatchExact {

  import opened CStrings
  import opened JsonPatch
  import opened JsonPatchBelow
  import opened JsonPatchOutcome
  import opened JsonPatchRoundTrip
  import opened JsonPatchTilde
  import opened JsonPaths
  import opened JsonPointer
  import opened JsonSame
  import opened JsonTree
  import opened MergeSort
  import opened Options
  import opened Sequences

  /** Keys without a slash, unique in each object; array positions that fit a `size_t`. */
  predicate Nameable(t: Json, cs: bool) {
    match t
    case Array(xs) => |xs| <= SIZE_LIMIT && forall i :: 0 <= i < |xs| ==> Nameable(xs[i], cs)
    case Object(ms) =>
      Distinct(ms, cs) && forall i :: 0 <= i < |ms| ==> SlashFree(ms[i].key) && Nameable(ms[i].value, cs)
    case _ => true
  }

  lemma {:induction false} NameableIsUnique(t: Json, cs: bool)
    requires Nameable(t, cs)
    ensures Unique(t, cs)
  {
    match t
    case Array(xs) => forall i | 0 <= i < |xs| ensures Unique(xs[i], cs) { NameableIsUnique(xs[i], cs); }
    case Object(ms) => forall i | 0 <= i < |ms| ensures Unique(ms[i].value, cs) { NameableIsUnique(ms[i].value, cs); }
    case _ =>
  }

  // ----- the old document as the generator leaves it -----

  /** `create_patches` sorts the objects that it compares. */
  function Arranged(a: Json, b: Json, cs: bool): (r: Json)
    decreases Height(a), 1, 0
  {
    match a
    case Array(xs) => if b.Array? then Array(ArrangedItems(xs, b.items, cs, Height(a))) else a
    case Object(ms) =>
      if b.Object? then
        (SortedLower(ms, cs, Height(a));
         Object(ArrangedMembers(SortMembers(ms, cs), SortMembers(b.members, cs), cs, Height(a))))
      else a
    case _ => a
  }

  function ArrangedItems(xs: seq<Json>, ys: seq<Json>, cs: bool, ghost h: nat): (r: seq<Json>)
    requires LowerItems(xs, h)
    ensures |r| == |xs|
    decreases h, 0, |xs| + |ys|
  {
    if xs == [] || ys == [] then xs else [Arranged(xs[0], ys[0], cs)] + ArrangedItems(xs[1..], ys[1..], cs, h)
  }

  function ArrangedMembers(ms: seq<Member>, ns: seq<Member>, cs: bool, ghost h: nat): (r: seq<Member>)
    requires LowerMembers(ms, h)
    ensures |r| == |ms|
    decreases h, 0, |ms| + |ns|
  {
    if ms == [] || ns == [] then ms
    else
      var diff := KeyOrder(ms, ns, cs);
      if diff == 0 then
        [Member(ms[0].key, Arranged(ms[0].value, ns[0].value, cs))] + ArrangedMembers(ms[1..], ns[1..], cs, h)
      else if diff < 0 then [ms[0]] + ArrangedMembers(ms[1..], ns, cs, h)
      else ArrangedMembers(ms, ns[1..], cs, h)
  }

  lemma {:induction false} ArrangedKeys(ms: seq<Member>, ns: seq<Member>, cs: bool, h: nat)
    requires LowerMembers(ms, h)
    ensures forall k :: 0 <= k < |ms| ==> ArrangedMembers(ms, ns, cs, h)[k].key == ms[k].key
    decreases |ms| + |ns|
  {
    hide Arranged, KeyOrder;
    if ms != [] && ns != [] {
      var diff := KeyOrder(ms, ns, cs);
      ArrangedKeys(if diff <= 0 then ms[1..] else ms, if diff >= 0 then ns[1..] else ns, cs, h);
    }
  }

  // ----- the condition -----

  /** The member stays in its place: the new object has its key, and its value is not replaced as a whole. */
  predicate Stays(m: Member, ns: seq<Member>, cs: bool) {
    Has(ns, m.key, cs) && !Replaced(m.value, ns[Find(ns, m.key, cs)].value)
  }

  predicate NoVariant(kept: seq<Member>, key: string) {
    forall j :: 0 <= j < |kept| ==> !KeyEq(kept[j].key, key, false)
  }

  /** Of the sorted members, none that is removed or replaced has a case variant in front of it that stays, be
      it one of those `kept` already; and in those that stay all is well. */
  ghost predicate OrderlyMembers(kept: seq<Member>, ms: seq<Member>, ns: seq<Member>, cs: bool, h: nat)
    requires LowerMembers(ms, h)
    decreases h, 0
  {
    && (forall i :: 0 <= i < |ms| && !Stays(ms[i], ns, cs) ==> NoVariant(kept, ms[i].key))
    && (forall i, j :: 0 <= j < i < |ms| && !Stays(ms[i], ns, cs) && Stays(ms[j], ns, cs) ==> !KeyEq(ms[j].key, ms[i].key, false))
    && (forall i :: 0 <= i < |ms| && Stays(ms[i], ns, cs) ==> OrderlyBelow(ms[i], ns[Find(ns, ms[i].key, cs)].value, cs))
  }

  /** No patch can name what is below a key with a tilde: there nothing may change. */
  ghost predicate OrderlyBelow(m: Member, b: Json, cs: bool)
    decreases Height(m.value), 2
  {
    if '~' in m.key then Same(m.value, b, cs) else Orderly(m.value, b, cs)
  }

  /** A key that is removed, replaced or added has no tilde but at its end. */
  predicate TildesFit(ms: seq<Member>, ns: seq<Member>, cs: bool) {
    && (forall i :: 0 <= i < |ms| && !Stays(ms[i], ns, cs) ==> TildeOnlyAtEnd(ms[i].key))
    && (forall k :: 0 <= k < |ns| && !Has(ms, ns[k].key, cs) ==> TildeOnlyAtEnd(ns[k].key))
  }

  ghost predicate OrderlyItems(xs: seq<Json>, ys: seq<Json>, cs: bool, h: nat)
    requires LowerItems(xs, h)
    decreases h, 0
  {
    forall k :: 0 <= k < |xs| && k < |ys| ==> Orderly(xs[k], ys[k], cs)
  }

  /** The patches lead from `a` to `b`: raw items are replaced or equal, objects are orderly, and patches can name
      the keys that they are about. */
  ghost predicate Orderly(a: Json, b: Json, cs: bool)
    decreases Height(a), 1
  {
    Replaced(a, b) ||
    match a
    case Raw(_) => a == b
    case Array(xs) => OrderlyItems(xs, b.items, cs, Height(a))
    case Object(ms) =>
      SortedLower(ms, cs, Height(a));
      && OrderlyMembers([], SortMembers(ms, cs), SortMembers(b.members, cs), cs, Height(a))
      && TildesFit(SortMembers(ms, cs), SortMembers(b.members, cs), cs)
    case _ => true
  }

  // ----- one step of the walk -----

  /** The heads of two sorted lists: which keys the rests cannot have. */
  lemma Heads(ms: seq<Member>, ns: seq<Member>, cs: bool)
    requires Increasing(ms, cs) && Increasing(ns, cs) && (ms != [] || ns != [])
    ensures var diff := KeyOrder(ms, ns, cs);
      && (diff <= 0 ==> ms != []) && (diff >= 0 ==> ns != [])
      && (diff < 0 ==> forall k :: 0 <= k < |ns| ==> !KeyEq(ns[k].key, ms[0].key, cs))
      && (diff > 0 ==> forall k :: 0 <= k < |ms| ==> !KeyEq(ns[0].key, ms[k].key, cs))
      && (diff == 0 ==> KeyEq(ms[0].key, ns[0].key, cs) && forall k :: 1 <= k < |ms| ==> !KeyEq(ns[0].key, ms[k].key, cs))
    ensures ms != [] ==> Increasing(ms[1..], cs) && forall k :: 1 <= k < |ms| ==> !KeyEq(ms[0].key, ms[k].key, cs)
    ensures ns != [] ==> Increasing(ns[1..], cs) && forall k :: 1 <= k < |ns| ==> !KeyEq(ns[0].key, ns[k].key, cs)
  {
    hide Key, Compare;
    if ms != [] { BehindHead(ms, cs); }
    if ns != [] { BehindHead(ns, cs); }
    var diff := KeyOrder(ms, ns, cs);
    if diff < 0 && ns != [] {
      forall k | 0 <= k < |ns| ensures !KeyEq(ns[k].key, ms[0].key, cs) { OldKeyNotNew(ms, ns, k, cs); }
    }
    if diff > 0 && ms != [] {
      forall k | 0 <= k < |ms| ensures !KeyEq(ns[0].key, ms[k].key, cs) { NewKeyNotOld(ms, ns, k, cs); }
    }
    if diff == 0 {
      CompareEqual(Key(ms[0].key, cs), Key(ns[0].key, cs));
      forall k | 1 <= k < |ms| ensures !KeyEq(ns[0].key, ms[k].key, cs) { NewKeyNotOld(ms, ns, k, cs); }
    }
  }

  lemma BehindHead(ms: seq<Member>, cs: bool)
    requires Increasing(ms, cs) && ms != []
    ensures Increasing(ms[1..], cs) && forall k :: 1 <= k < |ms| ==> !KeyEq(ms[0].key, ms[k].key, cs)
  {
    hide Key;
    forall k | 1 <= k < |ms| ensures !KeyEq(ms[0].key, ms[k].key, cs) { CompareEqual(Key(ms[0].key, cs), Key(ms[k].key, cs)); }
  }

  lemma OldKeyNotNew(ms: seq<Member>, ns: seq<Member>, k: nat, cs: bool)
    requires Increasing(ns, cs) && ms != [] && ns != [] && k < |ns| && KeyOrder(ms, ns, cs) < 0
    ensures !KeyEq(ns[k].key, ms[0].key, cs)
  {
    var a, b, c := Key(ms[0].key, cs), Key(ns[0].key, cs), Key(ns[k].key, cs);
    if k > 0 { CompareTransitive(a, b, c); }
    CompareEqual(a, c);
  }

  lemma StaysTail(m: Member, ns: seq<Member>, cs: bool)
    requires ns != [] && !KeyEq(ns[0].key, m.key, cs)
    ensures Stays(m, ns, cs) == Stays(m, ns[1..], cs)
    ensures Has(ns, m.key, cs) ==> ns[Find(ns, m.key, cs)] == ns[1..][Find(ns[1..], m.key, cs)]
  {
    hide Key;
  }

  /** What the condition says at the first step. */
  lemma OrderlyStep(kept: seq<Member>, ms: seq<Member>, ns: seq<Member>, x: Member, cs: bool, h: nat)
    requires LowerMembers(ms, h) && Increasing(ms, cs) && Increasing(ns, cs) && (ms != [] || ns != [])
    requires ms != [] ==> x.key == ms[0].key
    ensures var diff := KeyOrder(ms, ns, cs);
      && (diff <= 0 ==> ms != []) && (diff >= 0 ==> ns != [])
      && OrderlyMembers(kept, ms, ns, cs, h)
         == if diff > 0 then OrderlyMembers(kept, ms, ns[1..], cs, h)
            else if diff < 0 then NoVariant(kept, ms[0].key) && OrderlyMembers(kept, ms[1..], ns, cs, h)
            else if Replaced(ms[0].value, ns[0].value) then NoVariant(kept, ms[0].key) && OrderlyMembers(kept, ms[1..], ns[1..], cs, h)
            else OrderlyBelow(ms[0], ns[0].value, cs) && OrderlyMembers(kept + [x], ms[1..], ns[1..], cs, h)
  {
    hide Key, Find, KeyOrder, OrderlyBelow, Replaced, KeyEq, Increasing;
    var diff := KeyOrder(ms, ns, cs);
    Heads(ms, ns, cs);
    if diff > 0 {
      SameTail(ms, ns, cs);
    } else if diff < 0 {
      OrderlyFirst(kept, ms, ns, x, cs, h);
      HeadMissing(ms[0], ns, cs);
    } else {
      OrderlyFirst(kept, ms, ns, x, cs, h);
      HeadFound(ms[0], ns, cs);
      SameTail(ms[1..], ns, cs);
      OrderlySame(kept, ms[1..], ns, ns[1..], cs, h);
      OrderlySame(kept + [x], ms[1..], ns, ns[1..], cs, h);
    }
    if diff > 0 { OrderlySame(kept, ms, ns, ns[1..], cs, h); }
  }

  lemma HeadMissing(m: Member, ns: seq<Member>, cs: bool)
    requires forall k :: 0 <= k < |ns| ==> !KeyEq(ns[k].key, m.key, cs)
    ensures !Stays(m, ns, cs)
  {
  }

  lemma HeadFound(m: Member, ns: seq<Member>, cs: bool)
    requires ns != [] && KeyEq(m.key, ns[0].key, cs)
    ensures Find(ns, m.key, cs) == 0 && Has(ns, m.key, cs) && Stays(m, ns, cs) == !Replaced(m.value, ns[0].value)
  {
  }

  ghost predicate SameFate(ms: seq<Member>, ns: seq<Member>, ns': seq<Member>, cs: bool) {
    forall k :: 0 <= k < |ms| ==>
      && Stays(ms[k], ns, cs) == Stays(ms[k], ns', cs)
      && (Stays(ms[k], ns, cs) ==> ns[Find(ns, ms[k].key, cs)] == ns'[Find(ns', ms[k].key, cs)])
  }

  lemma SameTail(ms: seq<Member>, ns: seq<Member>, cs: bool)
    requires ns != [] && forall k :: 0 <= k < |ms| ==> !KeyEq(ns[0].key, ms[k].key, cs)
    ensures SameFate(ms, ns, ns[1..], cs)
  {
    hide Find, KeyEq, Replaced;
    forall k | 0 <= k < |ms|
      ensures Stays(ms[k], ns, cs) == Stays(ms[k], ns[1..], cs)
      ensures Stays(ms[k], ns, cs) ==> ns[Find(ns, ms[k].key, cs)] == ns[1..][Find(ns[1..], ms[k].key, cs)]
    {
      StaysTail(ms[k], ns, cs);
    }
  }

  lemma OrderlySame(kept: seq<Member>, ms: seq<Member>, ns: seq<Member>, ns': seq<Member>, cs: bool, h: nat)
    requires LowerMembers(ms, h) && SameFate(ms, ns, ns', cs)
    ensures OrderlyMembers(kept, ms, ns, cs, h) == OrderlyMembers(kept, ms, ns', cs, h)
  {
    hide Find, KeyEq, Replaced, OrderlyBelow, NoVariant;
  }

  lemma StaysFound(m: Member, ns: seq<Member>, cs: bool)
    ensures Stays(m, ns, cs) ==> Find(ns, m.key, cs) < |ns|
  {
  }

  lemma VariantAppended(kept: seq<Member>, x: Member, key: string)
    ensures NoVariant(kept + [x], key) <==> NoVariant(kept, key) && !KeyEq(x.key, key, false)
  {
    hide KeyEq;
    if NoVariant(kept + [x], key) {
      assert (kept + [x])[|kept|] == x;
      forall j | 0 <= j < |kept| ensures !KeyEq(kept[j].key, key, false) { assert (kept + [x])[j] == kept[j]; }
    }
  }

  /** The first member apart from the others. */
  lemma OrderlyFirst(kept: seq<Member>, ms: seq<Member>, ns: seq<Member>, x: Member, cs: bool, h: nat)
    requires LowerMembers(ms, h) && ms != [] && x.key == ms[0].key
    ensures OrderlyMembers(kept, ms, ns, cs, h)
         == if Stays(ms[0], ns, cs) then OrderlyBelow(ms[0], ns[Find(ns, ms[0].key, cs)].value, cs) && OrderlyMembers(kept + [x], ms[1..], ns, cs, h)
            else NoVariant(kept, ms[0].key) && OrderlyMembers(kept, ms[1..], ns, cs, h)
  {
    hide Find, KeyEq, Replaced, OrderlyBelow, NoVariant, Stays;
    forall i | 0 <= i < |ms| ensures Stays(ms[i], ns, cs) ==> Find(ns, ms[i].key, cs) < |ns| { StaysFound(ms[i], ns, cs); }
    var kept' := if Stays(ms[0], ns, cs) then kept + [x] else kept;
    var tail := ms[1..];
    forall i | 0 <= i < |tail| ensures NoVariant(kept + [x], tail[i].key) <==> NoVariant(kept, tail[i].key) && !KeyEq(ms[0].key, ms[i + 1].key, false) {
      VariantAppended(kept, x, tail[i].key);
    }
    if OrderlyMembers(kept, ms, ns, cs, h) {
      forall i | 0 <= i < |tail| && !Stays(tail[i], ns, cs) ensures NoVariant(kept', tail[i].key) {
        assert tail[i] == ms[i + 1];
      }
      forall i, j | 0 <= j < i < |tail| && !Stays(tail[i], ns, cs) && Stays(tail[j], ns, cs) ensures !KeyEq(tail[j].key, tail[i].key, false) {
        assert tail[i] == ms[i + 1] && tail[j] == ms[j + 1];
      }
    }
    if OrderlyMembers(kept', tail, ns, cs, h) && (if Stays(ms[0], ns, cs) then OrderlyBelow(ms[0], ns[Find(ns, ms[0].key, cs)].value, cs) else NoVariant(kept, ms[0].key)) {
      forall i | 0 <= i < |ms| && !Stays(ms[i], ns, cs) ensures NoVariant(kept, ms[i].key) {
        if i > 0 { assert tail[i - 1] == ms[i]; }
      }
      forall i, j | 0 <= j < i < |ms| && !Stays(ms[i], ns, cs) && Stays(ms[j], ns, cs) ensures !KeyEq(ms[j].key, ms[i].key, false) {
        assert tail[i - 1] == ms[i];
        if j > 0 { assert tail[j - 1] == ms[j]; }
      }
      forall i | 0 <= i < |ms| && Stays(ms[i], ns, cs) ensures OrderlyBelow(ms[i], ns[Find(ns, ms[i].key, cs)].value, cs) {
        if i > 0 { assert tail[i - 1] == ms[i]; }
      }
    }
  }

  /** The lists with or without their heads. */
  lemma TildesSplit(ms: seq<Member>, ns: seq<Member>, i: nat, j: nat, cs: bool)
    requires i <= 1 && i <= |ms| && j <= 1 && j <= |ns|
    requires forall k :: 0 <= k < |ms[i..]| ==> Stays(ms[i..][k], ns, cs) == Stays(ms[i..][k], ns[j..], cs)
    requires forall k :: 0 <= k < |ns[j..]| ==> Has(ms, ns[j..][k].key, cs) == Has(ms[i..], ns[j..][k].key, cs)
    ensures TildesFit(ms, ns, cs) ==
      ((i == 1 && !Stays(ms[0], ns, cs) ==> TildeOnlyAtEnd(ms[0].key))
       && (j == 1 && !Has(ms, ns[0].key, cs) ==> TildeOnlyAtEnd(ns[0].key))
       && TildesFit(ms[i..], ns[j..], cs))
  {
    hide Stays, TildeOnlyAtEnd, Has;
    if TildesFit(ms, ns, cs) {
      forall k | 0 <= k < |ms[i..]| && !Stays(ms[i..][k], ns[j..], cs) ensures TildeOnlyAtEnd(ms[i..][k].key) { assert ms[i..][k] == ms[i + k]; }
      forall k | 0 <= k < |ns[j..]| && !Has(ms[i..], ns[j..][k].key, cs) ensures TildeOnlyAtEnd(ns[j..][k].key) { assert ns[j..][k] == ns[j + k]; }
    }
    if TildesFit(ms[i..], ns[j..], cs) && (i == 1 && !Stays(ms[0], ns, cs) ==> TildeOnlyAtEnd(ms[0].key)) && (j == 1 && !Has(ms, ns[0].key, cs) ==> TildeOnlyAtEnd(ns[0].key)) {
      forall k | 0 <= k < |ms| && !Stays(ms[k], ns, cs) ensures TildeOnlyAtEnd(ms[k].key) { if k >= i { assert ms[k] == ms[i..][k - i]; } }
      forall k | 0 <= k < |ns| && !Has(ms, ns[k].key, cs) ensures TildeOnlyAtEnd(ns[k].key) { if k >= j { assert ns[k] == ns[j..][k - j]; } }
    }
  }

  lemma HasBehind(ms: seq<Member>, key: string, cs: bool)
    requires ms != [] && !KeyEq(key, ms[0].key, cs)
    ensures Has(ms, key, cs) == Has(ms[1..], key, cs)
  {
    KeyEqSymmetric(key, ms[0].key, cs);
    HasTail(ms, key, cs);
  }

  lemma AbsentKey(ms: seq<Member>, key: string, cs: bool)
    requires forall k :: 0 <= k < |ms| ==> !KeyEq(key, ms[k].key, cs)
    ensures !Has(ms, key, cs)
  {
    hide KeyEq;
    forall k | 0 <= k < |ms| ensures !KeyEq(ms[k].key, key, cs) { KeyEqSymmetric(key, ms[k].key, cs); }
    NotFound(ms, key, cs);
  }

  /** The first step of the walk, for the tildes. */
  lemma TildesStep(ms: seq<Member>, ns: seq<Member>, cs: bool)
    requires Increasing(ms, cs) && Increasing(ns, cs) && (ms != [] || ns != [])
    ensures var diff := KeyOrder(ms, ns, cs);
      && (diff <= 0 ==> ms != []) && (diff >= 0 ==> ns != [])
      && TildesFit(ms, ns, cs)
         == if diff > 0 then TildeOnlyAtEnd(ns[0].key) && TildesFit(ms, ns[1..], cs)
            else if diff < 0 then TildeOnlyAtEnd(ms[0].key) && TildesFit(ms[1..], ns, cs)
            else (Replaced(ms[0].value, ns[0].value) ==> TildeOnlyAtEnd(ms[0].key)) && TildesFit(ms[1..], ns[1..], cs)
  {
    hide Key, Find, KeyOrder, Replaced, KeyEq, Increasing, Stays, TildeOnlyAtEnd, Has, TildesFit;
    var diff := KeyOrder(ms, ns, cs);
    Heads(ms, ns, cs);
    assert ms[0..] == ms && ns[0..] == ns;
    if diff > 0 {
      SameTail(ms, ns, cs);
      AbsentKey(ms, ns[0].key, cs);
      TildesSplit(ms, ns, 0, 1, cs);
    } else if diff < 0 {
      HeadMissing(ms[0], ns, cs);
      forall k | 0 <= k < |ns| ensures Has(ms, ns[k].key, cs) == Has(ms[1..], ns[k].key, cs) { HasBehind(ms, ns[k].key, cs); }
      TildesSplit(ms, ns, 1, 0, cs);
    } else {
      HeadFound(ms[0], ns, cs);
      KeyEqSymmetric(ms[0].key, ns[0].key, cs);
      HeadHas(ms, ns[0].key, cs);
      SameTail(ms[1..], ns, cs);
      forall k | 0 <= k < |ns[1..]| ensures Has(ms, ns[1..][k].key, cs) == Has(ms[1..], ns[1..][k].key, cs) {
        OtherThanHead(ns[k + 1].key, ms[0].key, ns[0].key, cs);
        HasBehind(ms, ns[k + 1].key, cs);
      }
      TildesSplit(ms, ns, 1, 1, cs);
    }
  }

  lemma HeadHas(ms: seq<Member>, key: string, cs: bool)
    requires ms != [] && KeyEq(ms[0].key, key, cs)
    ensures Has(ms, key, cs)
  {
  }

  lemma OtherThanHead(key: string, a: string, b: string, cs: bool)
    requires KeyEq(a, b, cs) && !KeyEq(b, key, cs)
    ensures !KeyEq(key, a, cs)
  {
  }

  // ----- documents that are the same -----

  /** What is arranged stays the same. */
  lemma {:induction false} ArrangedSame(a: Json, b: Json, cs: bool)
    requires Unique(a, cs)
    ensures Same(Arranged(a, b, cs), a, cs)
    decreases Height(a), 1, 0
  {
    hide ArrangedMembers, ArrangedItems, SortMembers, Same, Distinct;
    SameReflexive(a, cs);
    if a.Array? && b.Array? {
      ArrangedItemsSame(a.items, b.items, cs, Height(a));
      ItemsAreSame(ArrangedItems(a.items, b.items, cs, Height(a)), a.items, cs);
    } else if a.Object? && b.Object? {
      var s, t := SortMembers(a.members, cs), SortMembers(b.members, cs);
      SortedLower(a.members, cs, Height(a));
      forall i | 0 <= i < |s| ensures Unique(s[i].value, cs) { var k := SameElements(s, a.members, i); }
      ArrangedMembersSame(s, t, cs, Height(a));
      SameAfterSorting(ArrangedMembers(s, t, cs, Height(a)), s, a.members, cs);
    }
  }

  lemma ItemsAreSame(xs: seq<Json>, ys: seq<Json>, cs: bool)
    requires SameItems(xs, ys, cs)
    ensures Same(Array(xs), Array(ys), cs)
  {
  }

  lemma {:induction false} ArrangedItemsSame(xs: seq<Json>, ys: seq<Json>, cs: bool, h: nat)
    requires LowerItems(xs, h) && forall i :: 0 <= i < |xs| ==> Unique(xs[i], cs)
    ensures SameItems(ArrangedItems(xs, ys, cs, h), xs, cs)
    decreases h, 0, |xs| + |ys|
  {
    hide Arranged, Same, Unique;
    ItemsSame(xs, cs);
    if xs != [] && ys != [] {
      ArrangedSame(xs[0], ys[0], cs);
      ArrangedItemsSame(xs[1..], ys[1..], cs, h);
    }
  }

  lemma {:induction false} ArrangedMembersSame(ms: seq<Member>, ns: seq<Member>, cs: bool, h: nat)
    requires LowerMembers(ms, h) && forall i :: 0 <= i < |ms| ==> Unique(ms[i].value, cs)
    ensures SameInOrder(ArrangedMembers(ms, ns, cs, h), ms, cs)
    decreases h, 0, |ms| + |ns|
  {
    hide Arranged, Same, Unique, KeyOrder;
    MembersSame(ms, cs);
    if ms != [] && ns != [] {
      var diff := KeyOrder(ms, ns, cs);
      if diff == 0 { ArrangedSame(ms[0].value, ns[0].value, cs); }
      ArrangedMembersSame(if diff <= 0 then ms[1..] else ms, if diff >= 0 then ns[1..] else ns, cs, h);
    }
  }

  /** For a document that is the same there is nothing to patch. */
  lemma {:induction false} SameNeedsNothing(path: string, a: Json, b: Json, u: char, cs: bool)
    requires Unique(a, cs) && Unique(b, cs) && Same(a, b, cs)
    ensures Diff(path, a, b, u, cs) == []
    decreases Height(a), 1, 0
  {
    if a.Array? {
      ItemsNeedNothing(path, a.items, b.items, 0, u, cs, Height(a));
    } else if a.Object? {
      ObjectNeedsNothing(path, a, b, u, cs);
    }
  }

  lemma {:induction false} ObjectNeedsNothing(path: string, a: Json, b: Json, u: char, cs: bool)
    requires Unique(a, cs) && Unique(b, cs) && Same(a, b, cs) && a.Object? && b.Object?
    ensures Diff(path, a, b, u, cs) == []
    decreases Height(a), 0, |a.members| + |b.members| + 1
  {
    var ms, ns := a.members, b.members;
    assert Distinct(ms, cs) && Distinct(ns, cs) && SameMembers(ms, ns, cs);
    hide DiffMembers, Distinct, SameMembers;
    var s, t := SortMembers(ms, cs), SortMembers(ns, cs);
    SortedLower(ms, cs, Height(a));
    SortIncreasing(ms, cs);
    SortIncreasing(ns, cs);
    SameMembersSorted(ms, ns, cs);
    forall i | 0 <= i < |s| ensures Unique(s[i].value, cs) { var k := SameElements(s, ms, i); }
    forall i | 0 <= i < |t| ensures Unique(t[i].value, cs) { var k := SameElements(t, ns, i); }
    MembersNeedNothing(path, s, t, u, cs, Height(a));
  }

  lemma {:induction false} ItemsNeedNothing(path: string, xs: seq<Json>, ys: seq<Json>, index: nat, u: char, cs: bool, h: nat)
    requires LowerItems(xs, h) && |xs| == |ys|
    requires forall i :: 0 <= i < |xs| ==> Unique(xs[i], cs) && Unique(ys[i], cs) && Same(xs[i], ys[i], cs)
    ensures DiffItems(path, xs, ys, index, u, cs, h) == []
    decreases h, 0, |xs| + |ys|
  {
    hide Diff, Same, Unique, Decimal;
    if xs != [] {
      SameNeedsNothing(path + ("/" + Decimal(index)), xs[0], ys[0], u, cs);
      ItemsNeedNothing(path, xs[1..], ys[1..], index + 1, u, cs, h);
    }
  }

  lemma {:induction false} MembersNeedNothing(path: string, ms: seq<Member>, ns: seq<Member>, u: char, cs: bool, h: nat)
    requires LowerMembers(ms, h) && Increasing(ms, cs) && Increasing(ns, cs) && Distinct(ms, cs) && Distinct(ns, cs) && SameMembers(ms, ns, cs)
    requires (forall i :: 0 <= i < |ms| ==> Unique(ms[i].value, cs)) && forall i :: 0 <= i < |ns| ==> Unique(ns[i].value, cs)
    ensures DiffMembers(path, ms, ns, u, cs, h) == []
    decreases h, 0, |ms| + |ns|
  {
    hide Diff, Same, Unique, SubPath, Compare, SameMembers, KeyOrder;
    NoneWithout(ms, ns, cs);
    if ms != [] && ns != [] {
      if !KeyEq(ms[0].key, ns[0].key, cs) { LeastKeyMissing(ms, ns, cs); }
      CompareEqual(Key(ms[0].key, cs), Key(ns[0].key, cs));
      SameMembersCons(ms, ns, cs);
      SameNeedsNothing(SubPath(path, ms[0].key, u), ms[0].value, ns[0].value, u, cs);
      MembersNeedNothing(path, ms[1..], ns[1..], u, cs, h);
      BothHeads(path, ms, ns, u, cs, h);
    }
  }

  lemma NoneWithout(ms: seq<Member>, ns: seq<Member>, cs: bool)
    requires SameMembers(ms, ns, cs)
    ensures ms == [] <==> ns == []
  {
    if ns != [] { NotEmpty(ms, ns[0].key, cs); }
    if ms != [] { NotEmpty(ns, ms[0].key, cs); }
  }

  lemma NotEmpty(ms: seq<Member>, key: string, cs: bool)
    requires Has(ms, key, cs)
    ensures ms != []
  {
  }

  lemma BothHeads(path: string, ms: seq<Member>, ns: seq<Member>, u: char, cs: bool, h: nat)
    requires LowerMembers(ms, h) && ms != [] && ns != [] && Compare(Key(ms[0].key, cs), Key(ns[0].key, cs)) == 0
    ensures DiffMembers(path, ms, ns, u, cs, h)
      == Diff(SubPath(path, ms[0].key, u), ms[0].value, ns[0].value, u, cs) + DiffMembers(path, ms[1..], ns[1..], u, cs, h)
  {
    hide Diff, SubPath, Compare;
  }

  // ----- arrays -----

  lemma {:induction false} ItemsOutcome(done: seq<Json>, xs: seq<Json>, ys: seq<Json>, u: char, cs: bool, h: nat)
    requires LowerItems(xs, h) && (xs != [] ==> |done| + |xs| <= SIZE_LIMIT)
    requires (forall k :: 0 <= k < |xs| ==> Nameable(xs[k], cs)) && forall k :: 0 <= k < |ys| ==> Nameable(ys[k], cs)
    ensures var (s, r) := Run(Array(done + ArrangedItems(xs, ys, cs, h)), DiffItems("", xs, ys, |done|, u, cs, h), cs);
      && (s == 0 ==> IsLonger(r, done, ys))
      && (s == 0 && ItemsGoal(r, done, ys, cs) <==> OrderlyItems(xs, ys, cs, h))
    decreases h, 0, |xs| + |ys|
  {
    hide Decimal, EncodeKey, SubPath, Perform, Diff, RemoveAt, Nameable, Run, Orderly, Arranged;
    var i := |done|;
    if xs != [] && ys != [] {
      ItemOutcome(done, xs, ys, u, cs, h);
    } else if xs != [] {
      var p := SurplusRemoved(done, xs, u, cs);
      ItemsOutcome(done, xs[1..], ys, u, cs, h);
      assert ArrangedItems(xs, ys, cs, h) == xs && ArrangedItems(xs[1..], ys, cs, h) == xs[1..];
      RunAppend(Array(done + xs), [p], DiffItems("", xs[1..], ys, i, u, cs, h), cs);
    } else if ys != [] {
      assert done + [] == done && done + [ys[0]] + [] == done + [ys[0]];
      AppendedItem(done, ys[0], u, cs);
      var p := Patch(Add, SubPath("", "-", u), Some(ys[0]));
      ItemsOutcome(done + [ys[0]], [], ys[1..], u, cs, h);
      RunAppend(Array(done), [p], DiffItems("", xs, ys[1..], i + 1, u, cs, h), cs);
      var r := Run(Array(done + [ys[0]]), DiffItems("", xs, ys[1..], i + 1, u, cs, h), cs).1;
      NameableIsUnique(ys[0], cs);
      SameReflexive(ys[0], cs);
      LongerCons(r, done, ys[0], ys);
      GoalCons(r, done, ys[0], ys, cs);
    } else {
      assert done + [] == done;
      RunNothing(Array(done), cs);
    }
  }

  /** The common part stays in front, and the length is right. */
  predicate IsLonger(r: Json, done: seq<Json>, ys: seq<Json>) {
    r.Array? && |r.items| == |done| + |ys| && r.items[..|done|] == done
  }

  lemma LongerCons(r: Json, done: seq<Json>, c: Json, ys: seq<Json>)
    requires ys != [] && IsLonger(r, done + [c], ys[1..])
    ensures IsLonger(r, done, ys) && r.items[|done|] == c
  {
    var i := |done|;
    assert r.items[..i] == r.items[..i + 1][..i] == done;
    assert r.items[i] == r.items[..i + 1][i] == c;
  }

  lemma GoalCons(r: Json, done: seq<Json>, c: Json, ys: seq<Json>, cs: bool)
    requires ys != [] && IsLonger(r, done + [c], ys[1..])
    ensures ItemsGoal(r, done, ys, cs) <==> Same(c, ys[0], cs) && ItemsGoal(r, done + [c], ys[1..], cs)
  {
    hide Same;
    var i := |done|;
    LongerCons(r, done, c, ys);
    if ItemsGoal(r, done, ys, cs) {
      assert Same(r.items[i + 0], ys[0], cs);
      forall k | 0 <= k < |ys[1..]| ensures Same(r.items[|done + [c]| + k], ys[1..][k], cs) {
        assert Same(r.items[i + (k + 1)], ys[k + 1], cs);
      }
    }
    if Same(c, ys[0], cs) && ItemsGoal(r, done + [c], ys[1..], cs) { ItemsGoalCons(r, done, c, ys, cs); }
  }

  lemma AppendedItem(done: seq<Json>, v: Json, u: char, cs: bool)
    ensures Run(Array(done), [Patch(Add, SubPath("", "-", u), Some(v))], cs) == (0, Array(done + [v]))
  {
    hide Perform;
    var p := Patch(Add, SubPath("", "-", u), Some(v));
    assert p.path == "/" + EncodeKey("-", u);
    AppendItem(done, v, u, cs);
    RunOne(Array(done), p, cs);
  }

  /** The patches for one item do in the array what they do to the item. */
  lemma ItemRun(xs: seq<Json>, i: nat, a: Json, b: Json, u: char, cs: bool)
    requires i < |xs| <= SIZE_LIMIT
    ensures var c := Run(xs[i], Diff("", a, b, u, cs), cs);
      var r := Run(Array(xs), Diff("" + ("/" + Decimal(i)), a, b, u, cs), cs);
      r.0 == c.0 && (r.0 == 0 ==> r.1 == Array(xs[i := c.1]))
  {
    hide Decimal, Perform, Diff;
    var ps, token := Diff("", a, b, u, cs), Decimal(i);
    ChildPatches(token, a, b, u, cs);
    ReplacedPatches(a, b, u, cs);
    if Replaced(a, b) {
      RootReplaced(xs[i], b, cs);
      ReplaceItem(xs, i, b, cs);
      RunSingle(Array(xs), Patch(Replace, "/" + token, Some(b)), cs);
    } else {
      ItemSelected(xs, i, cs);
      RunBelow(Array(xs), token, i, ps, cs);
    }
  }

  lemma RootReplaced(t: Json, b: Json, cs: bool)
    ensures Run(t, [Patch(Replace, "", Some(b))], cs) == (0, b)
  {
    RunSingle(t, Patch(Replace, "", Some(b)), cs);
  }

  lemma {:induction false} ItemOutcome(done: seq<Json>, xs: seq<Json>, ys: seq<Json>, u: char, cs: bool, h: nat)
    requires LowerItems(xs, h) && |done| + |xs| <= SIZE_LIMIT && xs != [] && ys != []
    requires (forall k :: 0 <= k < |xs| ==> Nameable(xs[k], cs)) && forall k :: 0 <= k < |ys| ==> Nameable(ys[k], cs)
    ensures var (s, r) := Run(Array(done + ArrangedItems(xs, ys, cs, h)), DiffItems("", xs, ys, |done|, u, cs, h), cs);
      && (s == 0 ==> IsLonger(r, done, ys))
      && (s == 0 && ItemsGoal(r, done, ys, cs) <==> OrderlyItems(xs, ys, cs, h))
    decreases h, 0, |xs| + |ys| - 1
  {
    hide Decimal, EncodeKey, SubPath, Perform, Diff, RemoveAt, Nameable, Run, Orderly, Arranged, DiffItems, Same;
    var i := |done|;
    var first, rest := Arranged(xs[0], ys[0], cs), ArrangedItems(xs[1..], ys[1..], cs, h);
    var all := done + ([first] + rest);
    Outcome(xs[0], ys[0], u, cs);
    ItemRun(all, i, xs[0], ys[0], u, cs);
    var ps, qs := Diff("" + ("/" + Decimal(i)), xs[0], ys[0], u, cs), DiffItems("", xs[1..], ys[1..], i + 1, u, cs, h);
    DiffItemsStep(xs, ys, i, u, cs, h);
    OrderlyItemsStep(xs, ys, cs, h);
    var (s, c) := Run(first, Diff("", xs[0], ys[0], u, cs), cs);
    if s == 0 {
      assert all[i := c] == (done + [c]) + rest;
      ItemsOutcome(done + [c], xs[1..], ys[1..], u, cs, h);
      RunAppend(Array(all), ps, qs, cs);
      var (s', r) := Run(Array(done + [c] + rest), qs, cs);
      if s' == 0 {
        LongerCons(r, done, c, ys);
        GoalCons(r, done, c, ys, cs);
      }
    } else {
      RunStops(Array(all), ps, qs, cs);
    }
  }

  lemma DiffItemsStep(xs: seq<Json>, ys: seq<Json>, i: nat, u: char, cs: bool, h: nat)
    requires LowerItems(xs, h) && xs != [] && ys != []
    ensures DiffItems("", xs, ys, i, u, cs, h) == Diff("" + ("/" + Decimal(i)), xs[0], ys[0], u, cs) + DiffItems("", xs[1..], ys[1..], i + 1, u, cs, h)
    ensures ArrangedItems(xs, ys, cs, h) == [Arranged(xs[0], ys[0], cs)] + ArrangedItems(xs[1..], ys[1..], cs, h)
  {
    hide Diff, Decimal, Arranged;
  }

  lemma OrderlyItemsStep(xs: seq<Json>, ys: seq<Json>, cs: bool, h: nat)
    requires LowerItems(xs, h) && xs != [] && ys != []
    ensures OrderlyItems(xs, ys, cs, h) <==> Orderly(xs[0], ys[0], cs) && OrderlyItems(xs[1..], ys[1..], cs, h)
  {
    hide Orderly;
    if Orderly(xs[0], ys[0], cs) && OrderlyItems(xs[1..], ys[1..], cs, h) {
      forall k | 0 <= k < |xs| && k < |ys| ensures Orderly(xs[k], ys[k], cs) {
        if k > 0 { assert xs[k] == xs[1..][k - 1] && ys[k] == ys[1..][k - 1]; }
      }
    }
    if OrderlyItems(xs, ys, cs, h) {
      forall k | 0 <= k < |xs[1..]| && k < |ys[1..]| ensures Orderly(xs[1..][k], ys[1..][k], cs) {
        assert xs[k + 1] == xs[1..][k] && ys[k + 1] == ys[1..][k];
      }
    }
  }

  // ----- objects -----

  /** The walk so far: of the members treated, `kept` stand in their places and `moved` at the end; together
      they are the members `tp` of the new object. The rests of both sorted lists are still to come. */
  ghost predicate Progress(kept: seq<Member>, moved: seq<Member>, ms: seq<Member>, tp: seq<Member>, tr: seq<Member>, cs: bool) {
    && Increasing(ms, cs) && Increasing(tr, cs) && Distinct(tp + tr, cs) && Distinct(kept + ms + moved, cs)
    && (forall j, k :: 0 <= j < |tp| && 0 <= k < |ms| ==> !KeyEq(tp[j].key, ms[k].key, cs))
    && Done(kept + moved, tp, cs) && AllSlashFree(tp)
    && (forall k :: 0 <= k < |ms| ==> SlashFree(ms[k].key) && Nameable(ms[k].value, cs))
    && (forall k :: 0 <= k < |tr| ==> SlashFree(tr[k].key) && Nameable(tr[k].value, cs))
  }

  ghost predicate Done(cur: seq<Member>, tp: seq<Member>, cs: bool) {
    && (forall k :: 0 <= k < |tp| ==> Settled(cur, tp[k], cs))
    && (forall i :: 0 <= i < |cur| ==> Has(tp, cur[i].key, cs))
  }

  /** The whole list has come out right. */
  ghost predicate Right(run: (nat, Json), tp: seq<Member>, cs: bool) {
    run.0 == 0 && Same(run.1, Object(tp), cs)
  }

  /** A member of the new object is lost, and nothing that is still to come brings it back. */
  ghost predicate Lost(cur: seq<Member>, tp: seq<Member>, ms: seq<Member>, tr: seq<Member>, cs: bool) {
    && Distinct(cur, cs) && Distinct(tp + tr, cs)
    && exists k :: 0 <= k < |tp| && SlashFree(tp[k].key) && !Settled(cur, tp[k], cs) && Elsewhere(ms, tp[k].key, cs) && Elsewhere(tr, tp[k].key, cs)
  }

  lemma LostIsWrong(cur: seq<Member>, tp: seq<Member>, ms: seq<Member>, tr: seq<Member>, u: char, cs: bool, h: nat)
    requires LowerMembers(ms, h) && Lost(cur, tp, ms, tr, cs)
    ensures !Right(Run(Object(cur), DiffMembers("", ms, tr, u, cs, h), cs), tp + tr, cs)
  {
    hide Settled, Elsewhere, Key, Find, Run, DiffMembers, Distinct, SlashFree;
    var k :| 0 <= k < |tp| && SlashFree(tp[k].key) && !Settled(cur, tp[k], cs) && Elsewhere(ms, tp[k].key, cs) && Elsewhere(tr, tp[k].key, cs);
    StaysWrong(cur, ms, tr, tp[k], u, cs, h);
    var run := Run(Object(cur), DiffMembers("", ms, tr, u, cs, h), cs);
    assert (tp + tr)[k] == tp[k];
    if run.0 == 0 { WrongIsNotSame(run.1.members, tp + tr, k, cs); }
  }

  lemma WrongIsNotSame(ms: seq<Member>, ns: seq<Member>, k: nat, cs: bool)
    requires k < |ns| && !Settled(ms, ns[k], cs)
    ensures !Same(Object(ms), Object(ns), cs)
  {
    hide Key, Find;
    if Same(Object(ms), Object(ns), cs) {
      assert SameMembers(ms, ns, cs);
      assert Has(ms, ns[k].key, cs);
      var i := Find(ms, ns[k].key, cs);
      FindDistinct(ns, ms[i].key, cs, k);
      assert false;
    }
  }

  /** All keys are treated: the object is the new one. */
  lemma DoneIsSame(cur: seq<Member>, tp: seq<Member>, cs: bool)
    requires Distinct(cur, cs) && Distinct(tp, cs) && Done(cur, tp, cs)
    ensures Same(Object(cur), Object(tp), cs)
  {
    hide Key, Find;
    forall i | 0 <= i < |cur|
      ensures Has(tp, cur[i].key, cs) && Same(cur[i].value, tp[Find(tp, cur[i].key, cs)].value, cs)
    {
      var k := Find(tp, cur[i].key, cs);
      assert Settled(cur, tp[k], cs);
      FindDistinct(cur, tp[k].key, cs, i);
    }
    forall k | 0 <= k < |tp| ensures Has(cur, tp[k].key, cs) { assert Settled(cur, tp[k], cs); }
  }

  lemma SameKeysDistinct(a: seq<Member>, b: seq<Member>, cs: bool)
    requires |a| == |b| && Distinct(a, cs) && forall k :: 0 <= k < |a| ==> a[k].key == b[k].key
    ensures Distinct(b, cs)
  {
    hide Key;
  }

  /** The member to be treated is found first unless a variant of its key has stayed. */
  lemma FirstFound(kept: seq<Member>, arr: seq<Member>, moved: seq<Member>, key: string)
    requires arr != [] && arr[0].key == key
    ensures var i := Find(kept + arr + moved, key, false);
      if NoVariant(kept, key) then i == |kept| else i < |kept|
  {
    hide Key, Find;
    var cur := kept + arr + moved;
    assert cur[|kept|] == arr[0];
    var i := Find(cur, key, false);
    if NoVariant(kept, key) {
      forall j | 0 <= j < |kept| ensures !KeyEq(cur[j].key, key, false) { assert cur[j] == kept[j]; }
      FindIs(cur, key, false, |kept|);
    } else {
      var j :| 0 <= j < |kept| && KeyEq(kept[j].key, key, false);
      assert cur[j] == kept[j];
    }
  }

  /** Taking the first of the members to be treated. */
  lemma TakenOut(kept: seq<Member>, arr: seq<Member>, moved: seq<Member>)
    requires arr != []
    ensures RemoveAt(kept + arr + moved, |kept|) == kept + arr[1..] + moved
  {
  }

  /** A member that stayed is taken by mistake. */
  lemma KeptLost(kept: seq<Member>, moved: seq<Member>, cur: seq<Member>, i: nat, ms: seq<Member>, tp: seq<Member>, tr: seq<Member>, cs: bool)
    returns (k: nat)
    requires Distinct(cur, cs) && i < |kept| && |kept| <= |cur| && cur[..|kept|] == kept && Done(kept + moved, tp, cs)
    ensures k < |tp| && !Settled(RemoveAt(cur, i), tp[k], cs) && Distinct(RemoveAt(cur, i), cs)
  {
    hide Key, Find;
    assert (kept + moved)[i] == kept[i] && cur[i] == cur[..|kept|][i];
    k := Find(tp, kept[i].key, cs);
    assert Has(tp, (kept + moved)[i].key, cs);
    DistinctRemoved(cur, i, cs);
    var r := RemoveAt(cur, i);
    forall j | 0 <= j < |r| ensures !KeyEq(r[j].key, tp[k].key, cs) {
      var j' := if j < i then j else j + 1;
      assert !KeyEq(cur[i].key, cur[j'].key, cs);
    }
    NotFound(r, tp[k].key, cs);
  }

  lemma DistinctParts(kept: seq<Member>, ms: seq<Member>, moved: seq<Member>, cs: bool)
    requires Distinct(kept + ms + moved, cs)
    ensures ms != [] ==> Distinct(kept + ms[1..] + moved, cs)
    ensures Distinct(kept + moved, cs)
    ensures ms != [] ==> !Has(kept + ms[1..] + moved, ms[0].key, cs)
  {
    hide Key, Find;
    var all := kept + ms + moved;
    var both := kept + moved;
    forall i, j | 0 <= i < j < |both| ensures !KeyEq(both[i].key, both[j].key, cs) {
      var i', j' := (if i < |kept| then i else i + |ms|), (if j < |kept| then j else j + |ms|);
      assert both[i] == all[i'] && both[j] == all[j'] && !KeyEq(all[i'].key, all[j'].key, cs);
    }
    if ms != [] {
      var some := kept + ms[1..] + moved;
      forall i, j | 0 <= i < j < |some| ensures !KeyEq(some[i].key, some[j].key, cs) {
        var i', j' := (if i < |kept| then i else i + 1), (if j < |kept| then j else j + 1);
        assert some[i] == all[i'] && some[j] == all[j'] && !KeyEq(all[i'].key, all[j'].key, cs);
      }
      forall j | 0 <= j < |some| ensures !KeyEq(some[j].key, ms[0].key, cs) {
        var j' := if j < |kept| then j else j + 1;
        assert some[j] == all[j'] && all[|kept|] == ms[0];
      }
      NotFound(some, ms[0].key, cs);
    }
  }

  lemma RestElsewhere(tp: seq<Member>, ms: seq<Member>, tr: seq<Member>, k: nat, cs: bool)
    requires k < |tp| && Distinct(tp + tr, cs) && forall j :: 0 <= j < |ms| ==> !KeyEq(tp[k].key, ms[j].key, cs)
    requires (forall j :: 0 <= j < |ms| ==> SlashFree(ms[j].key)) && forall j :: 0 <= j < |tr| ==> SlashFree(tr[j].key)
    ensures Elsewhere(ms, tp[k].key, cs) && Elsewhere(tr, tp[k].key, cs)
  {
    hide Key, SlashFree;
    forall j | 0 <= j < |tr| ensures !KeyEq(tr[j].key, tp[k].key, cs) {
      assert (tp + tr)[k] == tp[k] && (tp + tr)[|tp| + j] == tr[j];
    }
  }

  lemma OldStep(kept: seq<Member>, moved: seq<Member>, ms: seq<Member>, tp: seq<Member>, tr: seq<Member>, u: char, cs: bool, h: nat)
    returns (p: Patch, cur': seq<Member>)
    requires LowerMembers(ms, h) && Progress(kept, moved, ms, tp, tr, cs) && ms != [] && KeyOrder(ms, tr, cs) < 0
    requires TildeOnlyAtEnd(ms[0].key)
    ensures p == Patch(Remove, SubPath("", ms[0].key, u), None)
    ensures Run(Object(kept + ArrangedMembers(ms, tr, cs, h) + moved), [p], cs) == (0, Object(cur'))
    ensures if NoVariant(kept, ms[0].key)
      then cur' == kept + ArrangedMembers(ms[1..], tr, cs, h) + moved && Progress(kept, moved, ms[1..], tp, tr, cs)
      else Lost(cur', tp, ms[1..], tr, cs)
  {
    hide Key, Find, SlashFree, Nameable, EncodeKey, Perform, Settled, NoVariant, KeyOrder, RemoveAt, Elsewhere, Arranged, LandsOn, SubPath, Run, Same, Increasing;
    var key := ms[0].key;
    LandsOnIff(key, u);
    SubPathIs(key, u);
    p := Patch(Remove, SubPath("", key, u), None);
    var arr := ArrangedMembers(ms, tr, cs, h);
    var cur := kept + arr + moved;
    ArrangedOld(ms, tr, cs, h);
    ArrangedKeys(ms, tr, cs, h);
    var i := Find(cur, key, false);
    FirstFound(kept, arr, moved, key);
    RemoveOutcome(cur, key, u, cs);
    RunSingle(Object(cur), p, cs);
    cur' := RemoveAt(cur, i);
    Heads(ms, tr, cs);
    DistinctParts(kept, ms, moved, cs);
    SameKeysDistinct(kept + ms + moved, cur, cs);
    if NoVariant(kept, key) {
      TakenOut(kept, arr, moved);
    } else {
      assert cur[..|kept|] == kept;
      var k := KeptLost(kept, moved, cur, i, ms, tp, tr, cs);
      RestElsewhere(tp, ms[1..], tr, k, cs);
    }
  }

  /** A member that should go under a key that no patch can name. */
  lemma OldStuck(kept: seq<Member>, moved: seq<Member>, ms: seq<Member>, tp: seq<Member>, tr: seq<Member>, u: char, cs: bool, h: nat)
    requires LowerMembers(ms, h) && Progress(kept, moved, ms, tp, tr, cs) && ms != [] && KeyOrder(ms, tr, cs) < 0
    requires !TildeOnlyAtEnd(ms[0].key)
    ensures !Right(Run(Object(kept + ArrangedMembers(ms, tr, cs, h) + moved), DiffMembers("", ms, tr, u, cs, h), cs), tp + tr, cs)
  {
    hide Key, Find, SlashFree, Nameable, Settled, KeyOrder, Arranged, DiffMembers, Run, Same, Done, TildeOnlyAtEnd;
    var key, cur := ms[0].key, kept + ArrangedMembers(ms, tr, cs, h) + moved;
    ArrangedKeys(ms, tr, cs, h);
    Heads(ms, tr, cs);
    SameKeysDistinct(kept + ms + moved, cur, cs);
    FoundThere(cur, |kept|, key, cs);
    StaysStuck(cur, ms, tr, key, u, cs, h);
    forall k | 0 <= k < |tp + tr| ensures !KeyEq((tp + tr)[k].key, key, cs) {
      if k < |tp| { assert (tp + tr)[k] == tp[k]; } else { assert (tp + tr)[k] == tr[k - |tp|]; }
    }
    var run := Run(Object(cur), DiffMembers("", ms, tr, u, cs, h), cs);
    if run.0 == 0 { ExtraIsNotSame(run.1.members, tp + tr, key, cs); }
  }

  lemma ExtraIsNotSame(ms: seq<Member>, ns: seq<Member>, key: string, cs: bool)
    requires Has(ms, key, cs) && forall k :: 0 <= k < |ns| ==> !KeyEq(ns[k].key, key, cs)
    ensures !Same(Object(ms), Object(ns), cs)
  {
    hide Key;
    var i := Find(ms, key, cs);
    forall k | 0 <= k < |ns| ensures !KeyEq(ns[k].key, ms[i].key, cs) { OtherClass(ns[k].key, key, ms[i].key, cs); }
    NotFound(ns, ms[i].key, cs);
    MissingIsNotSame(ms, ns, i, cs);
  }

  lemma MissingIsNotSame(ms: seq<Member>, ns: seq<Member>, i: nat, cs: bool)
    requires i < |ms| && !Has(ns, ms[i].key, cs)
    ensures !Same(Object(ms), Object(ns), cs)
  {
  }

  lemma OtherClass(a: string, b: string, c: string, cs: bool)
    requires !KeyEq(a, b, cs) && KeyEq(c, b, cs)
    ensures !KeyEq(a, c, cs)
  {
  }

  lemma ArrangedOld(ms: seq<Member>, tr: seq<Member>, cs: bool, h: nat)
    requires LowerMembers(ms, h) && ms != [] && KeyOrder(ms, tr, cs) < 0
    ensures ArrangedMembers(ms, tr, cs, h)[1..] == ArrangedMembers(ms[1..], tr, cs, h)
  {
    hide KeyOrder, Arranged;
  }

  lemma ArrangedNew(ms: seq<Member>, tr: seq<Member>, cs: bool, h: nat)
    requires LowerMembers(ms, h) && tr != [] && KeyOrder(ms, tr, cs) > 0
    ensures ArrangedMembers(ms, tr, cs, h) == ArrangedMembers(ms, tr[1..], cs, h)
  {
    hide KeyOrder, Arranged;
  }

  lemma ArrangedBoth(ms: seq<Member>, tr: seq<Member>, cs: bool, h: nat)
    requires LowerMembers(ms, h) && ms != [] && tr != [] && KeyOrder(ms, tr, cs) == 0
    ensures ArrangedMembers(ms, tr, cs, h) == [Member(ms[0].key, Arranged(ms[0].value, tr[0].value, cs))] + ArrangedMembers(ms[1..], tr[1..], cs, h)
  {
    hide KeyOrder, Arranged;
  }

  lemma MovedDone(kept: seq<Member>, moved: seq<Member>, tp: seq<Member>, x: Member, n: Member, cs: bool)
    requires Done(kept + moved, tp, cs) && KeyEq(x.key, n.key, cs) && Same(x.value, n.value, cs)
    requires !Has(kept + moved, x.key, cs)
    ensures Done(kept + (moved + [x]), tp + [n], cs)
  {
    hide Key, Find;
    var cur := kept + moved;
    var cur' := kept + (moved + [x]);
    assert cur' == cur + [x];
    forall k | 0 <= k < |tp + [n]| ensures Settled(cur', (tp + [n])[k], cs) {
      FindAppended(cur, x, (tp + [n])[k].key, cs);
      if k < |tp| { assert Settled(cur, tp[k], cs); } else { FindCongruent(cur, x.key, n.key, cs); }
    }
    forall i | 0 <= i < |cur'| ensures Has(tp + [n], cur'[i].key, cs) { FindAppended(tp, n, cur'[i].key, cs); }
  }

  lemma KeptDone(kept: seq<Member>, moved: seq<Member>, tp: seq<Member>, x: Member, n: Member, cs: bool)
    requires Done(kept + moved, tp, cs) && KeyEq(x.key, n.key, cs) && Same(x.value, n.value, cs)
    requires Distinct(kept + [x] + moved, cs)
    ensures Done(kept + [x] + moved, tp + [n], cs)
  {
    hide Key, Find, Distinct, Same, Settled;
    var cur, cur' := kept + moved, kept + [x] + moved;
    forall k | 0 <= k < |tp + [n]| ensures Settled(cur', (tp + [n])[k], cs) {
      if k < |tp| {
        assert Settled(cur, tp[k], cs);
        KeptSettled(kept, moved, x, tp[k], cs);
      } else {
        assert cur'[|kept|] == x;
        SettledHere(cur', |kept|, n, cs);
      }
    }
    forall i | 0 <= i < |cur'| ensures Has(tp + [n], cur'[i].key, cs) {
      FindAppended(tp, n, cur'[i].key, cs);
      if i < |kept| { assert cur'[i] == cur[i]; } else if i > |kept| { assert cur'[i] == cur[i - 1]; }
    }
  }

  lemma SettledHere(cur: seq<Member>, i: nat, n: Member, cs: bool)
    requires Distinct(cur, cs) && i < |cur| && KeyEq(cur[i].key, n.key, cs) && Same(cur[i].value, n.value, cs)
    ensures Settled(cur, n, cs)
  {
    FindDistinct(cur, n.key, cs, i);
  }

  lemma KeptSettled(kept: seq<Member>, moved: seq<Member>, x: Member, n: Member, cs: bool)
    requires Settled(kept + moved, n, cs) && Distinct(kept + [x] + moved, cs)
    ensures Settled(kept + [x] + moved, n, cs)
  {
    hide Key, Find, Distinct, Same;
    var cur, cur' := kept + moved, kept + [x] + moved;
    var i := Find(cur, n.key, cs);
    var i' := if i < |kept| then i else i + 1;
    assert cur'[i'] == cur[i];
    SettledHere(cur', i', n, cs);
  }

  lemma NewStep(kept: seq<Member>, moved: seq<Member>, ms: seq<Member>, tp: seq<Member>, tr: seq<Member>, u: char, cs: bool, h: nat)
    returns (p: Patch)
    requires LowerMembers(ms, h) && Progress(kept, moved, ms, tp, tr, cs) && tr != [] && KeyOrder(ms, tr, cs) > 0
    requires TildeOnlyAtEnd(tr[0].key)
    ensures p == Patch(Add, SubPath("", tr[0].key, u), Some(tr[0].value))
    ensures Run(Object(kept + ArrangedMembers(ms, tr, cs, h) + moved), [p], cs)
         == (0, Object(kept + ArrangedMembers(ms, tr[1..], cs, h) + (moved + [tr[0]])))
    ensures Progress(kept, moved + [tr[0]], ms, tp + [tr[0]], tr[1..], cs)
  {
    hide Key, Find, SlashFree, Nameable, EncodeKey, Perform, Settled, KeyOrder, RemoveAt, Arranged, Done, Same, Distinct, Increasing, KeyEq, ArrangedMembers, Has, SubPath, Run, LandsOn;
    var n := tr[0];
    LandsOnIff(n.key, u);
    p := Patch(Add, SubPath("", n.key, u), Some(n.value));
    SubPathIs(n.key, u);
    ArrangedNew(ms, tr, cs, h);
    ArrangedKeys(ms, tr, cs, h);
    Heads(ms, tr, cs);
    var arr := ArrangedMembers(ms, tr, cs, h);
    var cur := kept + arr + moved;
    NewKeyMissing(kept, moved, ms, tp, tr, cs);
    SameKeysMissing(kept + ms + moved, cur, n.key, cs);
    AddOutcome(cur, n.key, n.value, u, cs);
    RunSingle(Object(cur), p, cs);
    assert cur + [Member(n.key, n.value)] == kept + arr + (moved + [n]);
    NameableIsUnique(n.value, cs);
    SameReflexive(n.value, cs);
    MissingInParts(kept, ms, moved, n.key, cs);
    KeyEqReflexive(n.key, cs);
    WithMissing(cur, n.key, n.value, cs);
    MovedDone(kept, moved, tp, n, n, cs);
    DistinctAppended(kept + ms + moved, n, cs);
    assert kept + ms + moved + [n] == kept + ms + (moved + [n]);
    NewsShift(tp, ms, tr, cs);
  }

  /** A new member under a key that no patch can name. */
  lemma NewWrong(kept: seq<Member>, moved: seq<Member>, ms: seq<Member>, tp: seq<Member>, tr: seq<Member>, u: char, cs: bool, h: nat)
    requires LowerMembers(ms, h) && Progress(kept, moved, ms, tp, tr, cs) && tr != [] && KeyOrder(ms, tr, cs) > 0
    requires !TildeOnlyAtEnd(tr[0].key)
    ensures !Right(Run(Object(kept + ArrangedMembers(ms, tr, cs, h) + moved), DiffMembers("", ms, tr, u, cs, h), cs), tp + tr, cs)
  {
    hide Key, Find, SlashFree, Nameable, EncodeKey, Perform, Settled, KeyOrder, Arranged, Done, Same, Increasing, KeyEq, ArrangedMembers, SubPath, Run, LandsOn, DiffMembers, WithMember, TildeOnlyAtEnd, Elsewhere;
    var n, cur := tr[0], kept + ArrangedMembers(ms, tr, cs, h) + moved;
    LandsOnIff(n.key, u);
    SlashIsElsewhere(n.key, LandsOn(n.key), cs);
    SubPathIs(n.key, u);
    ArrangedKeys(ms, tr, cs, h);
    Heads(ms, tr, cs);
    NewKeyMissing(kept, moved, ms, tp, tr, cs);
    SameKeysMissing(kept + ms + moved, cur, n.key, cs);
    SameKeysDistinct(kept + ms + moved, cur, cs);
    var p := Patch(Add, SubPath("", n.key, u), Some(n.value));
    AddOutcome(cur, n.key, n.value, u, cs);
    RunSingle(Object(cur), p, cs);
    MissingNotSettled(cur, n, cs);
    WithMemberKeeps(cur, LandsOn(n.key), n.value, n, cs);
    NewsShift(tp, ms, tr, cs);
    assert (tp + [n])[|tp|] == n;
    RestElsewhere(tp + [n], ms, tr[1..], |tp|, cs);
    DiffStep(ms, tr, u, cs, h);
    RunAppend(Object(cur), [p], DiffMembers("", ms, tr[1..], u, cs, h), cs);
    LostIsWrong(WithMember(cur, LandsOn(n.key), n.value, cs), tp + [n], ms, tr[1..], u, cs, h);
    HeadMoves(tp, tr);
  }

  lemma MissingNotSettled(cur: seq<Member>, n: Member, cs: bool)
    requires !Has(cur, n.key, cs)
    ensures !Settled(cur, n, cs)
  {
  }

  lemma SubPathIs(key: string, u: char)
    ensures SubPath("", key, u) == "/" + EncodeKey(key, u)
  {
    hide EncodeKey;
  }

  lemma NewsShift(tp: seq<Member>, ms: seq<Member>, tr: seq<Member>, cs: bool)
    requires tr != [] && Distinct(tp + tr, cs)
    requires forall j, k :: 0 <= j < |tp| && 0 <= k < |ms| ==> !KeyEq(tp[j].key, ms[k].key, cs)
    requires forall k :: 0 <= k < |ms| ==> !KeyEq(tr[0].key, ms[k].key, cs)
    ensures Distinct(tp + [tr[0]] + tr[1..], cs)
    ensures forall j, k :: 0 <= j < |tp + [tr[0]]| && 0 <= k < |ms| ==> !KeyEq((tp + [tr[0]])[j].key, ms[k].key, cs)
  {
    hide Key;
    assert tp + [tr[0]] + tr[1..] == tp + tr;
  }

  /** A key of the new object that neither stands nor is to be treated is not in the object. */
  lemma NewKeyMissing(kept: seq<Member>, moved: seq<Member>, ms: seq<Member>, tp: seq<Member>, tr: seq<Member>, cs: bool)
    requires Done(kept + moved, tp, cs) && Distinct(tp + tr, cs) && tr != []
    requires forall k :: 0 <= k < |ms| ==> !KeyEq(tr[0].key, ms[k].key, cs)
    ensures !Has(kept + ms + moved, tr[0].key, cs)
  {
    hide Key, Find, Settled;
    var n, all := tr[0], kept + ms + moved;
    forall j | 0 <= j < |all| ensures !KeyEq(all[j].key, n.key, cs) {
      if |kept| <= j < |kept| + |ms| {
        assert all[j] == ms[j - |kept|];
      } else {
        var i := if j < |kept| then j else j - |ms|;
        assert all[j] == (kept + moved)[i];
        assert Has(tp, (kept + moved)[i].key, cs);
        var k := Find(tp, all[j].key, cs);
        assert (tp + tr)[k] == tp[k] && (tp + tr)[|tp|] == n;
      }
    }
    NotFound(all, n.key, cs);
  }

  lemma SameKeysMissing(a: seq<Member>, b: seq<Member>, key: string, cs: bool)
    requires |a| == |b| && !Has(a, key, cs) && forall k :: 0 <= k < |a| ==> a[k].key == b[k].key
    ensures !Has(b, key, cs)
  {
    hide Key, Find;
    forall j | 0 <= j < |b| ensures !KeyEq(b[j].key, key, cs) { NotFoundAt(a, key, cs, j); }
    NotFound(b, key, cs);
  }

  lemma MissingInParts(kept: seq<Member>, ms: seq<Member>, moved: seq<Member>, key: string, cs: bool)
    requires !Has(kept + ms + moved, key, cs)
    ensures !Has(kept + moved, key, cs)
  {
    hide Key, Find;
    var all, both := kept + ms + moved, kept + moved;
    forall j | 0 <= j < |both| ensures !KeyEq(both[j].key, key, cs) {
      var j' := if j < |kept| then j else j + |ms|;
      NotFoundAt(all, key, cs, j');
      assert both[j] == all[j'];
    }
    NotFound(both, key, cs);
  }

  /** What is known of the next member that both objects have. */
  lemma BothNext(kept: seq<Member>, moved: seq<Member>, ms: seq<Member>, tp: seq<Member>, tr: seq<Member>, cs: bool)
    requires Progress(kept, moved, ms, tp, tr, cs) && ms != [] && tr != [] && KeyOrder(ms, tr, cs) == 0
    ensures KeyEq(ms[0].key, tr[0].key, cs) && Increasing(ms[1..], cs) && Increasing(tr[1..], cs)
    ensures Distinct(tp + [tr[0]] + tr[1..], cs) && Distinct(kept + ms[1..] + moved, cs)
    ensures forall j, k :: 0 <= j < |tp + [tr[0]]| && 0 <= k < |ms[1..]| ==> !KeyEq((tp + [tr[0]])[j].key, ms[1..][k].key, cs)
    ensures !Has(kept + ms[1..] + moved, ms[0].key, cs) && !Has(kept + moved, ms[0].key, cs)
  {
    hide Key, Find, SlashFree, Nameable, Settled, KeyOrder, Done;
    Heads(ms, tr, cs);
    DistinctParts(kept, ms, moved, cs);
    NewsShift(tp, ms[1..], tr, cs);
    MissingInParts(kept, ms[1..], moved, ms[0].key, cs);
  }

  lemma ReplaceStep(kept: seq<Member>, moved: seq<Member>, ms: seq<Member>, tp: seq<Member>, tr: seq<Member>, u: char, cs: bool, h: nat)
    returns (moved': seq<Member>, cur': seq<Member>)
    requires LowerMembers(ms, h) && Progress(kept, moved, ms, tp, tr, cs)
    requires ms != [] && tr != [] && KeyOrder(ms, tr, cs) == 0 && Replaced(ms[0].value, tr[0].value)
    requires TildeOnlyAtEnd(ms[0].key)
    ensures Run(Object(kept + ArrangedMembers(ms, tr, cs, h) + moved), Diff(SubPath("", ms[0].key, u), ms[0].value, tr[0].value, u, cs), cs) == (0, Object(cur'))
    ensures if NoVariant(kept, ms[0].key)
      then cur' == kept + ArrangedMembers(ms[1..], tr[1..], cs, h) + moved' && Progress(kept, moved', ms[1..], tp + [tr[0]], tr[1..], cs)
      else Lost(cur', tp + [tr[0]], ms[1..], tr[1..], cs)
  {
    hide Key, Find, SlashFree, Nameable, EncodeKey, SubPath, Diff, Run, Settled, NoVariant, KeyOrder, RemoveAt, Elsewhere, Arranged, Done, Same, Increasing, WithMember, LandsOn;
    var m, n := ms[0], tr[0];
    LandsOnIff(m.key, u);
    var x := Member(m.key, n.value);
    var arr := ArrangedMembers(ms, tr, cs, h);
    var cur := kept + arr + moved;
    ArrangedBoth(ms, tr, cs, h);
    ArrangedKeys(ms, tr, cs, h);
    ArrangedKeys(ms[1..], tr[1..], cs, h);
    BothNext(kept, moved, ms, tp, tr, cs);
    var i := Find(cur, m.key, false);
    FirstFound(kept, arr, moved, m.key);
    MemberOutcome(cur, m.key, m.value, n.value, u, cs);
    cur' := WithMember(RemoveAt(cur, i), m.key, n.value, cs);
    moved' := moved + [x];
    if NoVariant(kept, m.key) {
      TakenOut(kept, arr, moved);
      var rest := kept + arr[1..] + moved;
      SameKeysMissing(kept + ms[1..] + moved, rest, m.key, cs);
      WithMissing(rest, m.key, n.value, cs);
      assert rest + [x] == kept + arr[1..] + moved';
      NameableIsUnique(n.value, cs);
      SameReflexive(n.value, cs);
      MovedDone(kept, moved, tp, x, n, cs);
      DistinctAppended(kept + ms[1..] + moved, x, cs);
      assert kept + ms[1..] + moved + [x] == kept + ms[1..] + moved';
    } else {
      SameKeysDistinct(kept + ms + moved, cur, cs);
      assert cur[..|kept|] == kept;
      var k := KeptLost(kept, moved, cur, i, ms, tp, tr, cs);
      var tp' := tp + [n];
      assert tp'[k] == tp[k];
      assert !KeyEq(tp[k].key, m.key, cs);
      KeyEqSymmetric(tp[k].key, m.key, cs);
      WithMemberKeeps(RemoveAt(cur, i), m.key, n.value, tp[k], cs);
      RestElsewhere(tp', ms[1..], tr[1..], k, cs);
    }
  }

  /** A member whose value is replaced, under a key that no patch can name. */
  lemma ReplaceWrong(kept: seq<Member>, moved: seq<Member>, ms: seq<Member>, tp: seq<Member>, tr: seq<Member>, u: char, cs: bool, h: nat)
    requires LowerMembers(ms, h) && Progress(kept, moved, ms, tp, tr, cs)
    requires ms != [] && tr != [] && KeyOrder(ms, tr, cs) == 0 && Replaced(ms[0].value, tr[0].value)
    requires !TildeOnlyAtEnd(ms[0].key)
    ensures !Right(Run(Object(kept + ArrangedMembers(ms, tr, cs, h) + moved), DiffMembers("", ms, tr, u, cs, h), cs), tp + tr, cs)
  {
    hide Key, Find, SlashFree, Nameable, EncodeKey, SubPath, Diff, Run, Settled, KeyOrder, RemoveAt, Elsewhere, Arranged, Done, Same, Increasing, WithMember, LandsOn, DiffMembers, Replaced, TildeOnlyAtEnd, KeyEq, ArrangedMembers;
    var m, n, cur := ms[0], tr[0], kept + ArrangedMembers(ms, tr, cs, h) + moved;
    OtherValue(kept, moved, ms, tp, tr, cs, h);
    ReplacedDiffer(m.value, n.value, cs);
    LandsOnIff(m.key, u);
    SlashIsElsewhere(n.key, LandsOn(m.key), cs);
    MemberOutcome(cur, m.key, m.value, n.value, u, cs);
    DiffStep(ms, tr, u, cs, h);
    HeadMoves(tp, tr);
    var ps, qs := Diff(SubPath("", m.key, u), m.value, n.value, u, cs), DiffMembers("", ms[1..], tr[1..], u, cs, h);
    var i := Find(cur, LandsOn(m.key), false);
    if i < |cur| {
      DistinctRemoved(cur, i, cs);
      WrongAfterRemoval(cur, i, n, cs);
      WithMemberKeeps(RemoveAt(cur, i), LandsOn(m.key), n.value, n, cs);
      RunAppend(Object(cur), ps, qs, cs);
      LostHere(WithMember(RemoveAt(cur, i), LandsOn(m.key), n.value, cs), kept, moved, ms, tp, tr, u, cs, h);
    } else {
      RunStops(Object(cur), ps, qs, cs);
    }
  }

  lemma ReplacedDiffer(a: Json, b: Json, cs: bool)
    requires Replaced(a, b)
    ensures !Same(a, b, cs) && Arranged(a, b, cs) == a
  {
  }

  /** The member to be treated still has the value it was arranged with. */
  lemma OtherValue(kept: seq<Member>, moved: seq<Member>, ms: seq<Member>, tp: seq<Member>, tr: seq<Member>, cs: bool, h: nat)
    requires LowerMembers(ms, h) && Progress(kept, moved, ms, tp, tr, cs) && ms != [] && tr != [] && KeyOrder(ms, tr, cs) == 0
    ensures var cur := kept + ArrangedMembers(ms, tr, cs, h) + moved;
      var v := Arranged(ms[0].value, tr[0].value, cs);
      && Distinct(cur, cs) && |kept| < |cur| && cur[|kept|] == Member(ms[0].key, v)
      && KeyEq(ms[0].key, tr[0].key, cs) && SlashFree(ms[0].key) && SlashFree(tr[0].key)
      && (!Same(v, tr[0].value, cs) ==> !Settled(cur, tr[0], cs))
  {
    hide Key, Find, SlashFree, Nameable, Settled, KeyOrder, Arranged, Done, Same;
    var cur := kept + ArrangedMembers(ms, tr, cs, h) + moved;
    ArrangedBoth(ms, tr, cs, h);
    ArrangedKeys(ms, tr, cs, h);
    BothNext(kept, moved, ms, tp, tr, cs);
    SameKeysDistinct(kept + ms + moved, cur, cs);
    if !Same(cur[|kept|].value, tr[0].value, cs) { WrongHere(cur, |kept|, tr[0], cs); }
  }

  /** The next member of the new object is lost. */
  lemma LostHere(cur: seq<Member>, kept: seq<Member>, moved: seq<Member>, ms: seq<Member>, tp: seq<Member>, tr: seq<Member>, u: char, cs: bool, h: nat)
    requires LowerMembers(ms, h) && Progress(kept, moved, ms, tp, tr, cs) && ms != [] && tr != [] && KeyOrder(ms, tr, cs) == 0
    requires Distinct(cur, cs) && !Settled(cur, tr[0], cs)
    ensures !Right(Run(Object(cur), DiffMembers("", ms[1..], tr[1..], u, cs, h), cs), tp + [tr[0]] + tr[1..], cs)
  {
    hide Key, Find, SlashFree, Nameable, Settled, KeyOrder, Done, Same, Run, DiffMembers, Elsewhere, KeyEq;
    BothNext(kept, moved, ms, tp, tr, cs);
    var tp' := tp + [tr[0]];
    assert tp'[|tp|] == tr[0];
    RestElsewhere(tp', ms[1..], tr[1..], |tp|, cs);
    LostIsWrong(cur, tp', ms[1..], tr[1..], u, cs, h);
  }

  /** A member that stays, under a key with a tilde: what is below cannot be named. */
  lemma TildeStay(kept: seq<Member>, moved: seq<Member>, ms: seq<Member>, tp: seq<Member>, tr: seq<Member>, u: char, cs: bool, h: nat)
    requires LowerMembers(ms, h) && Progress(kept, moved, ms, tp, tr, cs)
    requires ms != [] && tr != [] && KeyOrder(ms, tr, cs) == 0 && !Replaced(ms[0].value, tr[0].value) && '~' in ms[0].key
    requires !Same(ms[0].value, tr[0].value, cs)
    ensures !Right(Run(Object(kept + ArrangedMembers(ms, tr, cs, h) + moved), DiffMembers("", ms, tr, u, cs, h), cs), tp + tr, cs)
  {
    hide Key, Find, SlashFree, Nameable, EncodeKey, SubPath, Diff, Run, Settled, KeyOrder, RemoveAt, Elsewhere, Arranged, Done, Same, Increasing, Meant, DiffMembers, Replaced, KeyEq, ArrangedMembers;
    var m, n, cur := ms[0], tr[0], kept + ArrangedMembers(ms, tr, cs, h) + moved;
    OtherValue(kept, moved, ms, tp, tr, cs, h);
    NameableIsUnique(m.value, cs) by { ProgressSorted(kept, moved, ms, tp, tr, cs); }
    ArrangedSame(m.value, n.value, cs);
    SameCongruent(n.value, m.value, Arranged(m.value, n.value, cs), cs);
    MeantIs(m.key);
    SlashIsElsewhere(n.key, Meant(m.key), cs);
    MemberOutcome(cur, m.key, m.value, n.value, u, cs);
    DiffStep(ms, tr, u, cs, h);
    HeadMoves(tp, tr);
    var ps, qs := Diff(SubPath("", m.key, u), m.value, n.value, u, cs), DiffMembers("", ms[1..], tr[1..], u, cs, h);
    var (s, r) := Run(Object(cur), ps, cs);
    if s != 0 {
      RunStops(Object(cur), ps, qs, cs);
    } else {
      RunAppend(Object(cur), ps, qs, cs);
      if Diff("", m.value, n.value, u, cs) != [] {
        var i := Find(cur, Meant(m.key), cs);
        SameClass(cur[i].key, Meant(m.key), n.key, cs);
        UpdateKeeps(cur, i, Run(cur[i].value, Diff("", m.value, n.value, u, cs), cs).1, n, cs);
      }
      LostHere(r.members, kept, moved, ms, tp, tr, u, cs, h);
    }
  }

  lemma WithMissing(ms: seq<Member>, key: string, v: Json, cs: bool)
    requires !Has(ms, key, cs)
    ensures WithMember(ms, key, v, cs) == ms + [Member(key, v)]
  {
  }

  /** The member keeps its place, whatever becomes of its value. */
  lemma StayStep(kept: seq<Member>, moved: seq<Member>, ms: seq<Member>, tp: seq<Member>, tr: seq<Member>, c: Json, u: char, cs: bool, h: nat)
    requires LowerMembers(ms, h) && Progress(kept, moved, ms, tp, tr, cs)
    requires ms != [] && tr != [] && KeyOrder(ms, tr, cs) == 0 && !Replaced(ms[0].value, tr[0].value)
    requires '~' !in ms[0].key || Same(ms[0].value, tr[0].value, cs)
    requires c == Run(Arranged(ms[0].value, tr[0].value, cs), Diff("", ms[0].value, tr[0].value, u, cs), cs).1
    ensures var kept' := kept + [Member(ms[0].key, c)];
      var cur' := kept' + ArrangedMembers(ms[1..], tr[1..], cs, h) + moved;
      && Run(Object(kept + ArrangedMembers(ms, tr, cs, h) + moved), Diff(SubPath("", ms[0].key, u), ms[0].value, tr[0].value, u, cs), cs)
         == (Run(Arranged(ms[0].value, tr[0].value, cs), Diff("", ms[0].value, tr[0].value, u, cs), cs).0, Object(cur'))
      && if Same(c, tr[0].value, cs) then Progress(kept', moved, ms[1..], tp + [tr[0]], tr[1..], cs)
         else Lost(cur', tp + [tr[0]], ms[1..], tr[1..], cs)
  {
    hide Key, Find, SlashFree, Nameable, EncodeKey, SubPath, Diff, Run, Settled, KeyOrder, RemoveAt, Elsewhere, Arranged, Done, Same, Increasing, Replaced, Distinct, KeyEq, Has, ArrangedMembers, Meant;
    var m, n := ms[0], tr[0];
    var x := Member(m.key, c);
    var arr := ArrangedMembers(ms, tr, cs, h);
    var cur, cur' := kept + arr + moved, kept + [x] + ArrangedMembers(ms[1..], tr[1..], cs, h) + moved;
    ArrangedBoth(ms, tr, cs, h);
    ArrangedKeys(ms, tr, cs, h);
    ArrangedKeys(ms[1..], tr[1..], cs, h);
    BothNext(kept, moved, ms, tp, tr, cs);
    SameKeysDistinct(kept + ms + moved, cur, cs);
    assert cur[|kept|] == Member(m.key, Arranged(m.value, n.value, cs));
    if '~' in m.key { NothingToPatch(kept, moved, ms, tp, tr, u, cs); }
    StayRun(cur, |kept|, m.value, n.value, u, cs);
    assert cur[|kept| := x] == cur';
    SameKeysDistinct(kept + ms + moved, kept + [x] + ms[1..] + moved, cs);
    SameKeysDistinct(cur, cur', cs);
    if Same(c, n.value, cs) {
      DistinctEnds(kept, x, ms[1..], moved, cs);
      KeptDone(kept, moved, tp, x, n, cs);
    } else {
      var tp' := tp + [n];
      assert tp'[|tp|] == n && cur'[|kept|] == x;
      WrongHere(cur', |kept|, n, cs);
      RestElsewhere(tp', ms[1..], tr[1..], |tp|, cs);
    }
  }

  /** The patches of a member that stays do to its value what they would do to that alone. */
  lemma StayRun(cur: seq<Member>, i: nat, a: Json, b: Json, u: char, cs: bool)
    requires Distinct(cur, cs) && i < |cur| && SlashFree(cur[i].key) && !Replaced(a, b)
    requires '~' in cur[i].key ==> Diff("", a, b, u, cs) == []
    ensures var c := Run(cur[i].value, Diff("", a, b, u, cs), cs);
      Run(Object(cur), Diff(SubPath("", cur[i].key, u), a, b, u, cs), cs) == (c.0, Object(cur[i := Member(cur[i].key, c.1)]))
  {
    hide Key, Find, SlashFree, EncodeKey, SubPath, Diff, Run, Replaced, Distinct, KeyEq, Meant, Has;
    var key := cur[i].key;
    MemberOutcome(cur, key, a, b, u, cs);
    if Diff("", a, b, u, cs) == [] {
      RunNothing(cur[i].value, cs);
      assert cur[i := Member(key, cur[i].value)] == cur;
    } else {
      MeantIs(key);
      FoundThere(cur, i, key, cs);
    }
  }

  lemma NothingToPatch(kept: seq<Member>, moved: seq<Member>, ms: seq<Member>, tp: seq<Member>, tr: seq<Member>, u: char, cs: bool)
    requires Progress(kept, moved, ms, tp, tr, cs) && ms != [] && tr != [] && Same(ms[0].value, tr[0].value, cs)
    ensures Diff("", ms[0].value, tr[0].value, u, cs) == []
  {
    hide Same, Diff;
    ProgressSorted(kept, moved, ms, tp, tr, cs);
    NameableIsUnique(ms[0].value, cs);
    NameableIsUnique(tr[0].value, cs);
    SameNeedsNothing("", ms[0].value, tr[0].value, u, cs);
  }

  lemma FoundThere(cur: seq<Member>, i: nat, key: string, cs: bool)
    requires Distinct(cur, cs) && i < |cur| && cur[i].key == key
    ensures Find(cur, key, cs) == i && Has(cur, key, cs)
  {
    KeyEqReflexive(key, cs);
    FindDistinct(cur, key, cs, i);
  }

  lemma DistinctEnds(kept: seq<Member>, x: Member, ms: seq<Member>, moved: seq<Member>, cs: bool)
    requires Distinct(kept + [x] + ms + moved, cs)
    ensures Distinct(kept + [x] + moved, cs)
  {
    hide Key;
    DistinctParts(kept + [x], ms, moved, cs);
  }

  lemma WrongHere(cur: seq<Member>, i: nat, n: Member, cs: bool)
    requires Distinct(cur, cs) && i < |cur| && KeyEq(cur[i].key, n.key, cs) && !Same(cur[i].value, n.value, cs)
    ensures !Settled(cur, n, cs)
  {
    FindDistinct(cur, n.key, cs, i);
  }

  // ----- the walk -----

  lemma {:induction false} MembersOutcome(kept: seq<Member>, moved: seq<Member>, ms: seq<Member>, tp: seq<Member>, tr: seq<Member>, u: char, cs: bool, h: nat)
    requires LowerMembers(ms, h) && Progress(kept, moved, ms, tp, tr, cs)
    ensures Right(Run(Object(kept + ArrangedMembers(ms, tr, cs, h) + moved), DiffMembers("", ms, tr, u, cs, h), cs), tp + tr, cs)
         <==> OrderlyMembers(kept, ms, tr, cs, h) && TildesFit(ms, tr, cs)
    decreases h, 0, |ms| + |tr|, 2
  {
    hide Progress, Lost, OrderlyMembers, OrderlyBelow, NoVariant, Right, Replaced, Arranged, ArrangedMembers, DiffMembers, Diff, Run, KeyOrder, SubPath, Same, Key, Find, TildesFit, TildeOnlyAtEnd;
    var start := Object(kept + ArrangedMembers(ms, tr, cs, h) + moved);
    if ms == [] && tr == [] {
      AllTreated(kept, moved, tp, u, cs, h);
      return;
    }
    ProgressSorted(kept, moved, ms, tp, tr, cs);
    Heads(ms, tr, cs);
    var diff := KeyOrder(ms, tr, cs);
    DiffStep(ms, tr, u, cs, h);
    TildesStep(ms, tr, cs);
    if diff < 0 {
      OldOutcome(kept, moved, ms, tp, tr, u, cs, h);
    } else if diff > 0 {
      OrderlyStep(kept, ms, tr, if ms == [] then tr[0] else ms[0], cs, h);
      if TildeOnlyAtEnd(tr[0].key) {
        var p := NewStep(kept, moved, ms, tp, tr, u, cs, h);
        RunAppend(start, [p], DiffMembers("", ms, tr[1..], u, cs, h), cs);
        MembersOutcome(kept, moved + [tr[0]], ms, tp + [tr[0]], tr[1..], u, cs, h);
        HeadMoves(tp, tr);
      } else {
        NewWrong(kept, moved, ms, tp, tr, u, cs, h);
      }
    } else {
      BothOutcome(kept, moved, ms, tp, tr, u, cs, h);
    }
  }

  lemma {:induction false} OldOutcome(kept: seq<Member>, moved: seq<Member>, ms: seq<Member>, tp: seq<Member>, tr: seq<Member>, u: char, cs: bool, h: nat)
    requires LowerMembers(ms, h) && Progress(kept, moved, ms, tp, tr, cs) && ms != [] && KeyOrder(ms, tr, cs) < 0
    ensures Right(Run(Object(kept + ArrangedMembers(ms, tr, cs, h) + moved), DiffMembers("", ms, tr, u, cs, h), cs), tp + tr, cs)
         <==> OrderlyMembers(kept, ms, tr, cs, h) && TildesFit(ms, tr, cs)
    decreases h, 0, |ms| + |tr|, 1
  {
    hide Progress, Lost, OrderlyMembers, OrderlyBelow, NoVariant, Right, Replaced, Arranged, ArrangedMembers, DiffMembers, Diff, Run, KeyOrder, SubPath, Same, Key, Find, TildesFit, TildeOnlyAtEnd;
    ProgressSorted(kept, moved, ms, tp, tr, cs);
    DiffStep(ms, tr, u, cs, h);
    TildesStep(ms, tr, cs);
    OrderlyStep(kept, ms, tr, ms[0], cs, h);
    if TildeOnlyAtEnd(ms[0].key) {
      var p, cur' := OldStep(kept, moved, ms, tp, tr, u, cs, h);
      RunAppend(Object(kept + ArrangedMembers(ms, tr, cs, h) + moved), [p], DiffMembers("", ms[1..], tr, u, cs, h), cs);
      if NoVariant(kept, ms[0].key) { MembersOutcome(kept, moved, ms[1..], tp, tr, u, cs, h); } else { LostIsWrong(cur', tp, ms[1..], tr, u, cs, h); }
    } else {
      OldStuck(kept, moved, ms, tp, tr, u, cs, h);
    }
  }

  lemma ProgressSorted(kept: seq<Member>, moved: seq<Member>, ms: seq<Member>, tp: seq<Member>, tr: seq<Member>, cs: bool)
    requires Progress(kept, moved, ms, tp, tr, cs)
    ensures Increasing(ms, cs) && Increasing(tr, cs)
    ensures ms != [] ==> Nameable(ms[0].value, cs)
    ensures tr != [] ==> Nameable(tr[0].value, cs)
  {
  }

  lemma DiffStep(ms: seq<Member>, tr: seq<Member>, u: char, cs: bool, h: nat)
    requires LowerMembers(ms, h) && (ms != [] || tr != [])
    ensures var diff := KeyOrder(ms, tr, cs);
      && (diff <= 0 ==> ms != []) && (diff >= 0 ==> tr != [])
      && DiffMembers("", ms, tr, u, cs, h)
         == if diff == 0 then Diff(SubPath("", ms[0].key, u), ms[0].value, tr[0].value, u, cs) + DiffMembers("", ms[1..], tr[1..], u, cs, h)
            else if diff < 0 then [Patch(Remove, SubPath("", ms[0].key, u), None)] + DiffMembers("", ms[1..], tr, u, cs, h)
            else [Patch(Add, SubPath("", tr[0].key, u), Some(tr[0].value))] + DiffMembers("", ms, tr[1..], u, cs, h)
  {
    hide Diff, SubPath, Compare;
  }

  lemma AllTreated(kept: seq<Member>, moved: seq<Member>, tp: seq<Member>, u: char, cs: bool, h: nat)
    requires Progress(kept, moved, [], tp, [], cs)
    ensures Right(Run(Object(kept + ArrangedMembers([], [], cs, h) + moved), DiffMembers("", [], [], u, cs, h), cs), tp + [], cs)
    ensures OrderlyMembers(kept, [], [], cs, h) && TildesFit([], [], cs)
  {
    hide Key, Find, Settled, Same, Done;
    assert kept + [] + moved == kept + moved && tp + [] == tp;
    RunNothing(Object(kept + moved), cs);
    DoneIsSame(kept + moved, tp, cs);
  }

  lemma {:induction false} BothOutcome(kept: seq<Member>, moved: seq<Member>, ms: seq<Member>, tp: seq<Member>, tr: seq<Member>, u: char, cs: bool, h: nat)
    requires LowerMembers(ms, h) && Progress(kept, moved, ms, tp, tr, cs) && ms != [] && tr != [] && KeyOrder(ms, tr, cs) == 0
    ensures Right(Run(Object(kept + ArrangedMembers(ms, tr, cs, h) + moved), DiffMembers("", ms, tr, u, cs, h), cs), tp + tr, cs)
         <==> OrderlyMembers(kept, ms, tr, cs, h) && TildesFit(ms, tr, cs)
    decreases h, 0, |ms| + |tr|, 1
  {
    hide Progress, Lost, OrderlyMembers, Orderly, NoVariant, Replaced, Arranged, ArrangedMembers, DiffMembers, Diff, Run, KeyOrder, SubPath, Same, Key, Find, TildesFit, TildeOnlyAtEnd;
    var start := Object(kept + ArrangedMembers(ms, tr, cs, h) + moved);
    var a, b := ms[0].value, tr[0].value;
    var ps, qs := Diff(SubPath("", ms[0].key, u), a, b, u, cs), DiffMembers("", ms[1..], tr[1..], u, cs, h);
    ProgressSorted(kept, moved, ms, tp, tr, cs);
    DiffStep(ms, tr, u, cs, h);
    TildesStep(ms, tr, cs);
    HeadMoves(tp, tr);
    if !Replaced(a, b) {
      StayOutcome(kept, moved, ms, tp, tr, u, cs, h);
    } else if TildeOnlyAtEnd(ms[0].key) {
      var moved', cur' := ReplaceStep(kept, moved, ms, tp, tr, u, cs, h);
      OrderlyStep(kept, ms, tr, ms[0], cs, h);
      RunAppend(start, ps, qs, cs);
      if NoVariant(kept, ms[0].key) { MembersOutcome(kept, moved', ms[1..], tp + [tr[0]], tr[1..], u, cs, h); } else { LostIsWrong(cur', tp + [tr[0]], ms[1..], tr[1..], u, cs, h); }
    } else {
      ReplaceWrong(kept, moved, ms, tp, tr, u, cs, h);
    }
  }

  lemma {:induction false} StayOutcome(kept: seq<Member>, moved: seq<Member>, ms: seq<Member>, tp: seq<Member>, tr: seq<Member>, u: char, cs: bool, h: nat)
    requires LowerMembers(ms, h) && Progress(kept, moved, ms, tp, tr, cs) && ms != [] && tr != [] && KeyOrder(ms, tr, cs) == 0
    requires !Replaced(ms[0].value, tr[0].value)
    ensures Right(Run(Object(kept + ArrangedMembers(ms, tr, cs, h) + moved), DiffMembers("", ms, tr, u, cs, h), cs), tp + tr, cs)
         <==> OrderlyMembers(kept, ms, tr, cs, h) && TildesFit(ms, tr, cs)
    decreases h, 0, |ms| + |tr|, 0
  {
    hide Progress, Lost, OrderlyMembers, Orderly, NoVariant, Replaced, Arranged, ArrangedMembers, DiffMembers, Diff, Run, KeyOrder, SubPath, Same, Key, Find, TildesFit, TildeOnlyAtEnd;
    var start := Object(kept + ArrangedMembers(ms, tr, cs, h) + moved);
    var a, b := ms[0].value, tr[0].value;
    var ps, qs := Diff(SubPath("", ms[0].key, u), a, b, u, cs), DiffMembers("", ms[1..], tr[1..], u, cs, h);
    ProgressSorted(kept, moved, ms, tp, tr, cs);
    DiffStep(ms, tr, u, cs, h);
    TildesStep(ms, tr, cs);
    HeadMoves(tp, tr);
    var (s, c) := Run(Arranged(a, b, cs), Diff("", a, b, u, cs), cs);
    var x := Member(ms[0].key, c);
    OrderlyStep(kept, ms, tr, x, cs, h);
    if '~' in ms[0].key && !Same(a, b, cs) {
      TildeStay(kept, moved, ms, tp, tr, u, cs, h);
      return;
    }
    StayRight(kept, moved, ms, tp, tr, u, cs);
    Outcome(a, b, u, cs);
    StayStep(kept, moved, ms, tp, tr, c, u, cs, h);
    if s != 0 {
      RunStops(start, ps, qs, cs);
    } else {
      RunAppend(start, ps, qs, cs);
      if Same(c, b, cs) { MembersOutcome(kept + [x], moved, ms[1..], tp + [tr[0]], tr[1..], u, cs, h); }
      else { LostIsWrong(kept + [x] + ArrangedMembers(ms[1..], tr[1..], cs, h) + moved, tp + [tr[0]], ms[1..], tr[1..], u, cs, h); }
    }
  }

  /** A value that is the same already comes out the same. */
  lemma StayRight(kept: seq<Member>, moved: seq<Member>, ms: seq<Member>, tp: seq<Member>, tr: seq<Member>, u: char, cs: bool)
    requires Progress(kept, moved, ms, tp, tr, cs) && ms != [] && tr != []
    ensures Same(ms[0].value, tr[0].value, cs) ==>
      var (s, c) := Run(Arranged(ms[0].value, tr[0].value, cs), Diff("", ms[0].value, tr[0].value, u, cs), cs);
      s == 0 && Same(c, tr[0].value, cs)
  {
    hide Same, Diff, Arranged, Run;
    var a, b := ms[0].value, tr[0].value;
    ProgressSorted(kept, moved, ms, tp, tr, cs);
    NameableIsUnique(a, cs);
    if Same(a, b, cs) {
      NothingToPatch(kept, moved, ms, tp, tr, u, cs);
      RunNothing(Arranged(a, b, cs), cs);
      ArrangedSame(a, b, cs);
      SameTransitive(Arranged(a, b, cs), a, b, cs);
    }
  }

  // ----- the whole document -----

  lemma {:induction false} Outcome(a: Json, b: Json, u: char, cs: bool)
    requires Nameable(a, cs) && Nameable(b, cs)
    ensures var (s, r) := Run(Arranged(a, b, cs), Diff("", a, b, u, cs), cs);
      s == 0 && Same(r, b, cs) <==> Orderly(a, b, cs)
    decreases Height(a), 1, 0
  {
    NameableIsUnique(b, cs);
    SameReflexive(b, cs);
    if Replaced(a, b) {
      RootReplaced(Arranged(a, b, cs), b, cs);
    } else if a.Array? {
      ArrayOutcome(a, b, u, cs);
    } else if a.Object? {
      ObjectOutcome(a, b, u, cs);
    } else {
      RunNothing(a, cs);
    }
  }

  lemma {:induction false} ArrayOutcome(a: Json, b: Json, u: char, cs: bool)
    requires Nameable(a, cs) && Nameable(b, cs) && a.Array? && b.Array?
    ensures var (s, r) := Run(Arranged(a, b, cs), Diff("", a, b, u, cs), cs);
      s == 0 && Same(r, b, cs) <==> Orderly(a, b, cs)
    decreases Height(a), 0, |a.items| + |b.items| + 1
  {
    hide DiffItems, ArrangedItems, OrderlyItems, Run;
    var xs, ys := a.items, b.items;
    ItemsOutcome([], xs, ys, u, cs, Height(a));
    assert [] + ArrangedItems(xs, ys, cs, Height(a)) == ArrangedItems(xs, ys, cs, Height(a));
    var (s, r) := Run(Arranged(a, b, cs), Diff("", a, b, u, cs), cs);
    if s == 0 { GoalIsSame(r, ys, cs); }
  }

  lemma GoalIsSame(r: Json, ys: seq<Json>, cs: bool)
    requires IsLonger(r, [], ys)
    ensures ItemsGoal(r, [], ys, cs) <==> Same(r, Array(ys), cs)
  {
    if ItemsGoal(r, [], ys, cs) {
      forall k | 0 <= k < |ys| ensures Same(r.items[k], ys[k], cs) { assert Same(r.items[0 + k], ys[k], cs); }
    }
  }

  lemma {:induction false} ObjectOutcome(a: Json, b: Json, u: char, cs: bool)
    requires Nameable(a, cs) && Nameable(b, cs) && a.Object? && b.Object?
    ensures var (s, r) := Run(Arranged(a, b, cs), Diff("", a, b, u, cs), cs);
      s == 0 && Same(r, b, cs) <==> Orderly(a, b, cs)
    decreases Height(a), 0, |a.members| + |b.members| + 1
  {
    hide DiffMembers, ArrangedMembers, OrderlyMembers, Run, Progress, TildesFit;
    var ms, tr := SortMembers(a.members, cs), SortMembers(b.members, cs);
    SortedLower(a.members, cs, Height(a));
    ProgressStart(a, b, cs);
    MembersOutcome([], [], ms, [], tr, u, cs, Height(a));
    var arr := ArrangedMembers(ms, tr, cs, Height(a));
    assert [] + arr + [] == arr && [] + tr == tr;
    var (s, r) := Run(Arranged(a, b, cs), Diff("", a, b, u, cs), cs);
    SameSorted(r, b, cs);
  }

  lemma ProgressStart(a: Json, b: Json, cs: bool)
    requires Nameable(a, cs) && Nameable(b, cs) && a.Object? && b.Object?
    ensures Progress([], [], SortMembers(a.members, cs), [], SortMembers(b.members, cs), cs)
  {
    var ms, tr := SortMembers(a.members, cs), SortMembers(b.members, cs);
    SortIncreasing(a.members, cs);
    SortIncreasing(b.members, cs);
    assert [] + tr == tr && [] + ms + [] == ms;
    forall k | 0 <= k < |ms| ensures SlashFree(ms[k].key) && Nameable(ms[k].value, cs) { var j := SameElements(ms, a.members, k); }
    forall k | 0 <= k < |tr| ensures SlashFree(tr[k].key) && Nameable(tr[k].value, cs) { var j := SameElements(tr, b.members, k); }
  }

  /** Sorting the new object does not change what equals it. */
  lemma SameSorted(r: Json, b: Json, cs: bool)
    requires b.Object? && Distinct(b.members, cs)
    ensures Same(r, Object(SortMembers(b.members, cs)), cs) <==> Same(r, b, cs)
  {
    var tr := SortMembers(b.members, cs);
    DistinctPermutation(b.members, tr, cs);
    if r.Object? && Distinct(r.members, cs) {
      if SameMembers(r.members, b.members, cs) { SameMembersPermutation(r.members, b.members, r.members, tr, cs); }
      if SameMembers(r.members, tr, cs) { SameMembersPermutation(r.members, tr, r.members, b.members, cs); }
    }
  }

  /** Patches generated from two documents and applied to the first, as the generator leaves it, report success
      and leave a document equal to the second if and only if the documents are orderly. */
  lemma PatchRoundTripIff(from: Json, to: Json, u: char, cs: bool)
    requires Nameable(from, cs) && Nameable(to, cs)
    ensures var (status, r) := ApplyFrom(Arranged(from, to, cs), GeneratePatches(from, to, u, cs).items, cs);
      status == 0 && Same(r, to, cs) <==> Orderly(from, to, cs)
  {
    DiffPrefixed("", from, to, u, cs);
    ApplyIsRun(Arranged(from, to, cs), Diff("", from, to, u, cs), cs);
    Outcome(from, to, u, cs);
  }
}

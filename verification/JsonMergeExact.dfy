/** Exactly when a generated merge patch, merged into the old document, gives the new one. */
module JsonMergeExact {

  import opened CStrings
  import opened JsonMerge
  import opened JsonMergeGenerate
  import opened JsonPatchOutcome
  import opened JsonPatchRoundTrip
  import opened JsonSame
  import opened JsonTree
  import opened MergeSort
  import opened Options
  import opened Sequences

  /** What merging the patch generated from `from` and `to` into `doc` leads to; without a patch nothing is merged. */
  function Merged(doc: Json, from: Json, to: Json, gs: bool, cs: bool): Json {
    var g := GenerateMerge(from, to, gs);
    if g.None? then doc else MergePatch(Some(doc), g.value, cs)
  }

  // ----- what merging does to one key -----

  function Effect(v: Option<Json>, p: Json, cs: bool): Option<Json> {
    if p.Null? then None else Some(MergePatch(v, p, cs))
  }

  function Effects(v: Option<Json>, ps: seq<Json>, cs: bool): Option<Json>
    decreases |ps|
  {
    if ps == [] then v else Effects(Effect(v, ps[0], cs), ps[1..], cs)
  }

  /** The values that a patch has for a key, in their order. */
  function Entries(ps: seq<Member>, key: string, cs: bool): seq<Json> {
    if ps == [] then []
    else (if KeyEq(ps[0].key, key, cs) then [ps[0].value] else []) + Entries(ps[1..], key, cs)
  }

  lemma {:induction false} MergedValue(ms: seq<Member>, ps: seq<Member>, key: string, cs: bool)
    requires Distinct(ms, cs)
    ensures Distinct(MergeMembers(ms, ps, cs), cs)
    ensures ValueOf(MergeMembers(ms, ps, cs), key, cs) == Effects(ValueOf(ms, key, cs), Entries(ps, key, cs), cs)
    decreases |ps|
  {
    hide Key, Find, MergePatch, KeyEq, Distinct, WithoutKey, ValueOf;
    if ps != [] {
      var p := ps[0];
      var rest := WithoutKey(ms, p.key, cs);
      var x := Member(p.key, MergePatch(ValueOf(ms, p.key, cs), p.value, cs));
      var next := if p.value.Null? then rest else rest + [x];
      WithoutValue(ms, p.key, key, cs);
      if !p.value.Null? {
        DistinctAppended(rest, x, cs);
        AppendedValue(rest, x, key, cs);
      }
      MergedValue(next, ps[1..], key, cs);
      if KeyEq(p.key, key, cs) {
        ValueOfClass(ms, p.key, key, cs);
        assert Entries(ps, key, cs)[0] == p.value && Entries(ps, key, cs)[1..] == Entries(ps[1..], key, cs);
      } else {
        assert Entries(ps, key, cs) == Entries(ps[1..], key, cs);
      }
    }
  }

  lemma WithoutValue(ms: seq<Member>, key: string, other: string, cs: bool)
    requires Distinct(ms, cs)
    ensures var r := WithoutKey(ms, key, cs);
      && Distinct(r, cs) && !Has(r, key, cs)
      && ValueOf(r, other, cs) == if KeyEq(key, other, cs) then None else ValueOf(ms, other, cs)
  {
    hide Key, Find;
    var r, i := WithoutKey(ms, key, cs), Find(ms, key, cs);
    if i < |ms| {
      DistinctRemoved(ms, i, cs);
      forall j | 0 <= j < |r| ensures !KeyEq(r[j].key, key, cs) {
        var k := if j < i then j else j + 1;
        assert !KeyEq(ms[i].key, ms[k].key, cs);
      }
      NotFound(r, key, cs);
      if !KeyEq(key, other, cs) { FindRemoved(ms, i, other, cs); }
    }
    if KeyEq(key, other, cs) { FindCongruent(r, key, other, cs); }
  }

  lemma AppendedValue(ms: seq<Member>, x: Member, key: string, cs: bool)
    requires !Has(ms, x.key, cs)
    ensures ValueOf(ms + [x], key, cs) == if KeyEq(x.key, key, cs) then Some(x.value) else ValueOf(ms, key, cs)
  {
    hide Key, Find;
    FindAppended(ms, x, key, cs);
    if KeyEq(x.key, key, cs) { FindCongruent(ms, x.key, key, cs); }
  }

  lemma ValueOfClass(ms: seq<Member>, key: string, other: string, cs: bool)
    requires KeyEq(key, other, cs)
    ensures ValueOf(ms, key, cs) == ValueOf(ms, other, cs) && Has(ms, key, cs) == Has(ms, other, cs)
  {
    FindCongruent(ms, key, other, cs);
  }

  // ----- what is generated for one key -----

  /** Which of the two lists reaches a key first on the walk by `strcmp`. */
  datatype Meeting = Together | OldFirst | NewFirst

  function Meets(ms: seq<Member>, ns: seq<Member>, key: string, cs: bool): Meeting
    decreases |ms| + |ns|
  {
    if ms == [] && ns == [] then Together
    else
      var diff := MergeOrder(ms, ns);
      if diff < 0 then (if KeyEq(ms[0].key, key, cs) then OldFirst else Meets(ms[1..], ns, key, cs))
      else if diff > 0 then (if KeyEq(ns[0].key, key, cs) then NewFirst else Meets(ms, ns[1..], key, cs))
      else if KeyEq(ms[0].key, key, cs) then Together
      else Meets(ms[1..], ns[1..], key, cs)
  }

  /** For a member that both lists reach together. */
  function Difference(a: Json, b: Json, gs: bool): (r: seq<Json>)
    ensures |r| <= 1
  {
    if CompareJson(a, b, gs) then []
    else
      var l := Left(a, b, gs);
      var g := GenerateMerge(l.0, l.1, false);
      if g.None? then [] else [g.value]
  }

  function Selected(m: Option<Json>, n: Option<Json>, meeting: Meeting, gs: bool): seq<Json> {
    if m.None? then (if n.None? then [] else [n.value])
    else if n.None? then [Null]
    else
      match meeting
      case Together => Difference(m.value, n.value, gs)
      case OldFirst => [Null, n.value]
      case NewFirst => [n.value, Null]
  }

  lemma {:induction false} EntriesGenerated(ms: seq<Member>, ns: seq<Member>, key: string, gs: bool, cs: bool, h: nat)
    requires LowerMembers(ms, h) && Distinct(ms, cs) && Distinct(ns, cs)
    ensures Entries(GenerateMembers(ms, ns, gs, h), key, cs)
         == Selected(ValueOf(ms, key, cs), ValueOf(ns, key, cs), Meets(ms, ns, key, cs), gs)
    decreases |ms| + |ns|
  {
    hide Key, Find, KeyEq, Distinct, CompareJson, GenerateMerge, MergeOrder, ValueOf, Difference, GenerateMembers, Meets, Entries;
    if ms == [] && ns == [] {
      NothingSelected(key, gs, cs, h);
      return;
    }
    var diff := MergeOrder(ms, ns);
    GenerateAtHeads(ms, ns, gs, h);
    MeetsStep(ms, ns, key, cs);
    var ms', ns' := (if diff <= 0 then ms[1..] else ms), (if diff >= 0 then ns[1..] else ns);
    if ms != [] { HeadValue(ms, key, cs); }
    if ns != [] { HeadValue(ns, key, cs); }
    EntriesGenerated(ms', ns', key, gs, cs, h);
    var rest := GenerateMembers(ms', ns', gs, h);
    if diff < 0 {
      EntriesCons([Member(ms[0].key, Null)], rest, key, cs);
      EntriesOne(Member(ms[0].key, Null), key, cs);
    } else if diff > 0 {
      EntriesCons([ns[0]], rest, key, cs);
      EntriesOne(ns[0], key, cs);
    } else {
      var d := Difference(ms[0].value, ns[0].value, gs);
      var head := if d == [] then [] else [Member(ns[0].key, d[0])];
      EntriesCons(head, rest, key, cs);
      if d != [] { EntriesOne(head[0], key, cs); } else { EntriesNone(key, cs); }
      assert d == if d == [] then [] else [d[0]];
    }
  }

  lemma MeetsStep(ms: seq<Member>, ns: seq<Member>, key: string, cs: bool)
    requires ms != [] || ns != []
    ensures var diff := MergeOrder(ms, ns);
      && (diff <= 0 ==> ms != []) && (diff >= 0 ==> ns != [])
      && Meets(ms, ns, key, cs)
         == if diff < 0 then (if KeyEq(ms[0].key, key, cs) then OldFirst else Meets(ms[1..], ns, key, cs))
            else if diff > 0 then (if KeyEq(ns[0].key, key, cs) then NewFirst else Meets(ms, ns[1..], key, cs))
            else if KeyEq(ms[0].key, key, cs) then Together
            else Meets(ms[1..], ns[1..], key, cs)
  {
    hide KeyEq, Compare;
  }

  lemma NothingSelected(key: string, gs: bool, cs: bool, h: nat)
    ensures Entries(GenerateMembers([], [], gs, h), key, cs) == [] && ValueOf([], key, cs) == None
  {
  }

  lemma {:induction false} EntriesCons(a: seq<Member>, b: seq<Member>, key: string, cs: bool)
    ensures Entries(a + b, key, cs) == Entries(a, key, cs) + Entries(b, key, cs)
    decreases |a|
  {
    hide KeyEq;
    if a == [] {
      assert a + b == b;
    } else {
      assert (a + b)[1..] == a[1..] + b;
      EntriesCons(a[1..], b, key, cs);
    }
  }

  lemma EntriesNone(key: string, cs: bool)
    ensures Entries([], key, cs) == []
  {
  }

  lemma EntriesOne(m: Member, key: string, cs: bool)
    ensures Entries([m], key, cs) == if KeyEq(m.key, key, cs) then [m.value] else []
  {
    assert [m][1..] == [];
  }

  lemma HeadValue(ms: seq<Member>, key: string, cs: bool)
    requires Distinct(ms, cs) && ms != []
    ensures Distinct(ms[1..], cs)
    ensures if KeyEq(ms[0].key, key, cs) then ValueOf(ms, key, cs) == Some(ms[0].value) && ValueOf(ms[1..], key, cs) == None
      else ValueOf(ms, key, cs) == ValueOf(ms[1..], key, cs)
  {
    hide Key;
    if KeyEq(ms[0].key, key, cs) {
      forall j | 0 <= j < |ms[1..]| ensures !KeyEq(ms[1..][j].key, key, cs) { DifferentClass(ms[0].key, key, ms[j + 1].key, cs); }
      NotFound(ms[1..], key, cs);
    }
  }

  lemma DifferentClass(a: string, b: string, c: string, cs: bool)
    requires KeyEq(a, b, cs) && !KeyEq(a, c, cs)
    ensures !KeyEq(c, b, cs)
  {
  }

  lemma GenerateAtHeads(ms: seq<Member>, ns: seq<Member>, gs: bool, h: nat)
    requires LowerMembers(ms, h) && (ms != [] || ns != [])
    ensures var diff := MergeOrder(ms, ns);
      && (diff <= 0 ==> ms != []) && (diff >= 0 ==> ns != [])
      && (diff == 0 ==> ms[0].key == ns[0].key)
      && GenerateMembers(ms, ns, gs, h)
         == if diff < 0 then [Member(ms[0].key, Null)] + GenerateMembers(ms[1..], ns, gs, h)
            else if diff > 0 then [ns[0]] + GenerateMembers(ms, ns[1..], gs, h)
            else
              var d := Difference(ms[0].value, ns[0].value, gs);
              (if d == [] then [] else [Member(ns[0].key, d[0])]) + GenerateMembers(ms[1..], ns[1..], gs, h)
  {
    hide CompareJson, GenerateMerge, Compare, Left;
    if ms != [] && ns != [] { CompareEqual(ms[0].key, ns[0].key); }
  }

  // ----- merging into nothing -----

  /** No null stands where only objects are around it. */
  predicate NullFree(t: Json) {
    t.Object? ==> forall i :: 0 <= i < |t.members| ==> !t.members[i].value.Null? && NullFree(t.members[i].value)
  }

  /** Two objects are equal exactly when they have equal values for every key. */
  lemma SameByValue(ms: seq<Member>, ns: seq<Member>, cs: bool)
    requires Distinct(ms, cs) && Distinct(ns, cs)
    ensures Same(Object(ms), Object(ns), cs) <==> forall key :: SameValue(ValueOf(ms, key, cs), ValueOf(ns, key, cs), cs)
  {
    hide Key, Find, Distinct;
    if Same(Object(ms), Object(ns), cs) {
      assert SameMembers(ms, ns, cs);
      forall key ensures SameValue(ValueOf(ms, key, cs), ValueOf(ns, key, cs), cs) { SameAtKey(ms, ns, key, cs); }
    }
    if forall key :: SameValue(ValueOf(ms, key, cs), ValueOf(ns, key, cs), cs) {
      forall i | 0 <= i < |ms| ensures Has(ns, ms[i].key, cs) && Same(ms[i].value, ns[Find(ns, ms[i].key, cs)].value, cs) {
        FoundSelf(ms, i, cs);
        assert SameValue(ValueOf(ms, ms[i].key, cs), ValueOf(ns, ms[i].key, cs), cs);
      }
      forall j | 0 <= j < |ns| ensures Has(ms, ns[j].key, cs) {
        FoundSelf(ns, j, cs);
        assert SameValue(ValueOf(ms, ns[j].key, cs), ValueOf(ns, ns[j].key, cs), cs);
      }
    }
  }

  ghost predicate SameValue(a: Option<Json>, b: Option<Json>, cs: bool) {
    (a.Some? <==> b.Some?) && (a.Some? ==> Same(a.value, b.value, cs))
  }

  lemma FoundSelf(ms: seq<Member>, i: nat, cs: bool)
    requires Distinct(ms, cs) && i < |ms|
    ensures Find(ms, ms[i].key, cs) == i && ValueOf(ms, ms[i].key, cs) == Some(ms[i].value)
  {
    FindDistinct(ms, ms[i].key, cs, i);
  }

  lemma SameAtKey(ms: seq<Member>, ns: seq<Member>, key: string, cs: bool)
    requires Distinct(ms, cs) && Distinct(ns, cs) && SameMembers(ms, ns, cs)
    ensures SameValue(ValueOf(ms, key, cs), ValueOf(ns, key, cs), cs)
  {
    hide Key, Find, Distinct;
    if Has(ms, key, cs) {
      var i := Find(ms, key, cs);
      ValueOfClass(ns, ms[i].key, key, cs);
      FindCongruent(ns, ms[i].key, key, cs);
    }
    if Has(ns, key, cs) {
      var j := Find(ns, key, cs);
      ValueOfClass(ms, ns[j].key, key, cs);
    }
  }

  /** With one entry for each key a patch has at most one effect on it. */
  lemma {:induction false} EntriesDistinct(ps: seq<Member>, key: string, cs: bool)
    requires Distinct(ps, cs)
    ensures Entries(ps, key, cs) == if ValueOf(ps, key, cs).Some? then [ValueOf(ps, key, cs).value] else []
    decreases |ps|
  {
    hide Key, KeyEq, ValueOf;
    if ps == [] {
      NothingSelected(key, false, cs, 0);
    } else {
      HeadValue(ps, key, cs);
      EntriesDistinct(ps[1..], key, cs);
    }
  }

  /** A document merged into what is no object comes out as it is exactly when it is free of such nulls. */
  lemma {:induction false} MergedIntoNothing(v: Option<Json>, t: Json, cs: bool)
    requires Unique(t, cs) && (v.Some? ==> !v.value.Object?)
    ensures Same(MergePatch(v, t, cs), t, cs) <==> NullFree(t)
    decreases t
  {
    if !t.Object? {
      SameReflexive(t, cs);
      return;
    }
    hide Key, Find, MergePatch, NullFree, Distinct;
    var ns := t.members;
    var r := MergeMembers([], ns, cs);
    EmptyDistinct(cs);
    MergedObject(v, t, cs);
    forall key
      ensures Distinct(r, cs) && SameValue(ValueOf(r, key, cs), ValueOf(ns, key, cs), cs)
        <==> (Has(ns, key, cs) ==> var n := ns[Find(ns, key, cs)].value; !n.Null? && NullFree(n))
    {
      MergedValue([], ns, key, cs);
      EntriesDistinct(ns, key, cs);
      NoValue(key, cs);
      if Has(ns, key, cs) {
        var n := ns[Find(ns, key, cs)].value;
        assert ValueOf(ns, key, cs) == Some(n);
        OneEffect(None, n, cs);
        MergedIntoNothing(None, n, cs);
      } else {
        assert Effects(None, [], cs) == None;
      }
    }
    MergedValue([], ns, "", cs);
    SameByValue(r, ns, cs);
    NullFreeByKey(ns, cs);
  }

  lemma EmptyDistinct(cs: bool)
    ensures Distinct([], cs)
  {
  }

  lemma NoValue(key: string, cs: bool)
    ensures ValueOf([], key, cs) == None
  {
  }

  lemma MergedObject(v: Option<Json>, t: Json, cs: bool)
    requires t.Object?
    ensures MergePatch(v, t, cs) == Object(MergeMembers(if v.Some? && v.value.Object? then v.value.members else [], t.members, cs))
  {
  }

  lemma OneEffect(v: Option<Json>, p: Json, cs: bool)
    ensures Effects(v, [p], cs) == Effect(v, p, cs)
  {
    assert [p][1..] == [];
  }

  lemma NullFreeByKey(ns: seq<Member>, cs: bool)
    requires Distinct(ns, cs)
    ensures NullFree(Object(ns)) <==> forall key :: Has(ns, key, cs) ==> var n := ns[Find(ns, key, cs)].value; !n.Null? && NullFree(n)
  {
    hide Key, Find, Distinct;
    if forall key :: Has(ns, key, cs) ==> var n := ns[Find(ns, key, cs)].value; !n.Null? && NullFree(n) {
      forall i | 0 <= i < |ns| ensures !ns[i].value.Null? && NullFree(ns[i].value) {
        FoundSelf(ns, i, cs);
        assert Has(ns, ns[i].key, cs);
      }
    }
  }

  // ----- the condition -----

  /** What the new object has under a key: if the walk reaches the key in both lists together, the rest of the
      document decides, as comparing leaves it; if it reaches it in the old list first, or only in the new one, only nulls can go wrong;
      if it reaches it in the new list first, the value is lost. */
  ghost predicate KeyFollows(m: Option<Json>, n: Json, meeting: Meeting, gs: bool, cs: bool, h: nat)
    requires m.Some? ==> Height(m.value) < h
    decreases h, 0
  {
    if m.Some? && meeting == Together then
      if CompareJson(m.value, n, gs) then Same(m.value, n, cs)
      else
        LeftLower(m.value, n, gs);
        !n.Null? && Follows(Left(m.value, n, gs).0, Left(m.value, n, gs).1, false, cs)
    else (m.Some? ==> meeting == OldFirst) && !n.Null? && NullFree(n)
  }

  lemma LowerValue(ms: seq<Member>, key: string, cs: bool, h: nat)
    requires LowerMembers(ms, h)
    ensures ValueOf(ms, key, cs).Some? ==> Height(ValueOf(ms, key, cs).value) < h
  {
  }

  ghost predicate FollowsMembers(ms: seq<Member>, ns: seq<Member>, gs: bool, cs: bool, h: nat)
    requires LowerMembers(ms, h)
    decreases h, 1
  {
    forall j :: 0 <= j < |ns| ==> KeyFollows(ValueOf(ms, ns[j].key, cs), ns[j].value, Meets(ms, ns, ns[j].key, cs), gs, cs, h)
  }

  /** `gs` is the mode of the generation, at the root that of the merging and below it always the one without
      regard to letter case; `cs` is the mode of the merging. */
  ghost predicate Follows(from: Json, to: Json, gs: bool, cs: bool)
    decreases Height(from), 2
  {
    to.Object? ==>
      if !from.Object? then NullFree(to)
      else
        SortedLower(from.members, gs, Height(from));
        FollowsMembers(SortMembers(from.members, gs), SortMembers(to.members, gs), gs, cs, Height(from))
  }

  lemma {:induction false} MeetsClass(ms: seq<Member>, ns: seq<Member>, a: string, b: string, cs: bool)
    requires KeyEq(a, b, cs)
    ensures Meets(ms, ns, a, cs) == Meets(ms, ns, b, cs)
    decreases |ms| + |ns|
  {
    hide KeyEq, Meets, MergeOrder;
    if ms != [] || ns != [] {
      MeetsStep(ms, ns, a, cs);
      MeetsStep(ms, ns, b, cs);
      var diff := MergeOrder(ms, ns);
      MeetsClass(if diff <= 0 then ms[1..] else ms, if diff >= 0 then ns[1..] else ns, a, b, cs);
      if ms != [] { SameClasses(ms[0].key, a, b, cs); }
      if ns != [] { SameClasses(ns[0].key, a, b, cs); }
    } else {
      MeetsNothing(a, b, cs);
    }
  }

  lemma MeetsNothing(a: string, b: string, cs: bool)
    ensures Meets([], [], a, cs) == Meets([], [], b, cs)
  {
  }

  lemma SameClasses(x: string, a: string, b: string, cs: bool)
    requires KeyEq(a, b, cs)
    ensures KeyEq(x, a, cs) <==> KeyEq(x, b, cs)
  {
  }

  // ----- one key -----

  lemma AfterNothing(n: Json, cs: bool)
    requires Unique(n, cs)
    ensures SameValue(Effect(None, n, cs), Some(n), cs) <==> !n.Null? && NullFree(n)
  {
    hide NullFree, MergePatch, Same;
    MergedIntoNothing(None, n, cs);
  }

  lemma TwoEffects(v: Option<Json>, p: Json, q: Json, cs: bool)
    ensures Effects(v, [p, q], cs) == Effect(Effect(v, p, cs), q, cs)
  {
    assert [p, q][1..] == [q];
    OneEffect(Effect(v, p, cs), q, cs);
  }

  /** What becomes of one key is right exactly under the condition; `d` is the value it had. */
  lemma KeyOutcome(d: Option<Json>, m: Option<Json>, n: Option<Json>, meeting: Meeting, gs: bool, cs: bool, h: nat)
    requires (m.Some? ==> Height(m.value) < h) && SameValue(d, m, cs)
    requires n.Some? ==> Unique(n.value, cs)
    requires m.Some? && n.Some? ==>
      var l := Left(m.value, n.value, gs);
      Same(l.1, n.value, cs) && (Same(Merged(d.value, l.0, l.1, false, cs), l.1, cs) <==> Follows(l.0, l.1, false, cs))
    ensures SameValue(Effects(d, Selected(m, n, meeting, gs), cs), n, cs) <==> (n.Some? ==> KeyFollows(m, n.value, meeting, gs, cs, h))
  {
    hide NullFree, MergePatch, Same, CompareJson, Follows, GenerateMerge, Effects, Left;
    if n.None? {
      NoEffects(d, cs);
      if m.Some? { OneEffect(d, Null, cs); }
    } else if m.None? {
      OneEffect(d, n.value, cs);
      AfterNothing(n.value, cs);
    } else if meeting == Together {
      NoEffects(d, cs);
      SameCongruent(n.value, d.value, m.value, cs) by { SameSymmetric(d.value, m.value, cs); }
      var l := Left(m.value, n.value, gs);
      var g := GenerateMerge(l.0, l.1, false);
      SameCongruent(Merged(d.value, l.0, l.1, false, cs), n.value, l.1, cs);
      GeneratedNullIff(l.0, l.1);
      NullIsKept(l.1, n.value, cs);
      if g.Some? { OneEffect(d, g.value, cs); }
    } else if meeting == OldFirst {
      TwoEffects(d, Null, n.value, cs);
      AfterNothing(n.value, cs);
    } else {
      TwoEffects(d, n.value, Null, cs);
    }
  }

  lemma NullIsKept(a: Json, b: Json, cs: bool)
    requires Same(a, b, cs)
    ensures (a.Null? <==> b.Null?) && (a.Object? <==> b.Object?)
  {
  }

  lemma NoEffects(v: Option<Json>, cs: bool)
    ensures Effects(v, [], cs) == v
  {
  }

  lemma GeneratedNullIff(a: Json, b: Json)
    ensures var g := GenerateMerge(a, b, false);
      if g.None? then a.Object? && b.Object? else g.value.Null? <==> b.Null?
  {
    hide GenerateMembers;
  }

  // ----- the whole document -----

  lemma SortedValue(ms: seq<Member>, key: string, gs: bool, cs: bool)
    requires Distinct(ms, cs)
    ensures Distinct(SortMembers(ms, gs), cs) && ValueOf(SortMembers(ms, gs), key, cs) == ValueOf(ms, key, cs)
  {
    DistinctPermutation(ms, SortMembers(ms, gs), cs);
    FindPermutation(ms, SortMembers(ms, gs), key, cs);
  }

  lemma SameAsSorted(r: Json, to: Json, gs: bool, cs: bool)
    requires to.Object? && Distinct(to.members, cs)
    ensures Same(r, Object(SortMembers(to.members, gs)), cs) <==> Same(r, to, cs)
  {
    var ns := SortMembers(to.members, gs);
    DistinctPermutation(to.members, ns, cs);
    if r.Object? && Distinct(r.members, cs) {
      if SameMembers(r.members, to.members, cs) { SameMembersPermutation(r.members, to.members, r.members, ns, cs); }
      if SameMembers(r.members, ns, cs) { SameMembersPermutation(r.members, ns, r.members, to.members, cs); }
    }
  }

  /** Merging the generated patch into the old document, in whatever order its members stand, leads to the new one
      if and only if the documents follow each other. */
  lemma {:induction false} MergeRoundTripIff(doc: Json, from: Json, to: Json, gs: bool, cs: bool)
    requires Unique(from, cs) && Unique(to, cs) && Same(doc, from, cs)
    ensures Same(Merged(doc, from, to, gs, cs), to, cs) <==> Follows(from, to, gs, cs)
    decreases Height(from), 1
  {
    if !to.Object? {
      SameReflexive(to, cs);
    } else if !from.Object? {
      MergedIntoNothing(Some(doc), to, cs);
    } else {
      MergedObjectsIff(doc, from, to, gs, cs);
    }
  }

  lemma {:induction false} MergedObjectsIff(doc: Json, from: Json, to: Json, gs: bool, cs: bool)
    requires Unique(from, cs) && Unique(to, cs) && from.Object? && to.Object? && Same(doc, from, cs) && doc.Object?
    ensures Same(Merged(doc, from, to, gs, cs), to, cs) <==> Follows(from, to, gs, cs)
    decreases Height(from), 0
  {
    assert Distinct(doc.members, cs) && SameMembers(doc.members, from.members, cs);
    hide Key, Find, Distinct, GenerateMembers, MergeMembers, Entries, Effects, Selected, Meets, Same, SameMembers, FollowsMembers, KeyFollows, CompareJson, NullFree, ValueOf, SortMembers, Left;
    var dr, fr, ms, ns := doc.members, from.members, SortMembers(from.members, gs), SortMembers(to.members, gs);
    SortedLower(fr, gs, Height(from));
    var ps := GenerateMembers(ms, ns, gs, Height(from));
    var r := MergeMembers(dr, ps, cs);
    MergedIs(doc, from, to, gs, cs);
    MergedValue(dr, ps, "", cs);
    SortedValue(to.members, "", gs, cs);
    SameAsSorted(Object(r), to, gs, cs);
    SameByValue(r, ns, cs);
    forall key ensures ValueOf(ms, key, cs).Some? ==> Height(ValueOf(ms, key, cs).value) < Height(from) { LowerValue(ms, key, cs, Height(from)); }
    forall key
      ensures SameValue(ValueOf(r, key, cs), ValueOf(ns, key, cs), cs)
        <==> (ValueOf(ns, key, cs).Some? ==> KeyFollows(ValueOf(ms, key, cs), ValueOf(ns, key, cs).value, Meets(ms, ns, key, cs), gs, cs, Height(from)))
    {
      MergedValue(dr, ps, key, cs);
      SameAtKey(dr, fr, key, cs);
      SortedValue(fr, key, gs, cs);
      EntriesGenerated(ms, ns, key, gs, cs, Height(from));
      var d, m, n := ValueOf(dr, key, cs), ValueOf(ms, key, cs), ValueOf(ns, key, cs);
      SortedValue(to.members, key, gs, cs);
      ValueFacts(fr, key, cs);
      ValueFacts(to.members, key, cs);
      if m.Some? && n.Some? {
        var l := Left(m.value, n.value, gs);
        ComparedSame(m.value, n.value, gs, cs);
        LeftLower(m.value, n.value, gs);
        SameSymmetric(l.0, m.value, cs);
        SameTransitive(d.value, m.value, l.0, cs);
        MergeRoundTripIff(d.value, l.0, l.1, false, cs);
      }
      KeyOutcome(d, m, n, Meets(ms, ns, key, cs), gs, cs, Height(from));
    }
    FollowsByKey(ms, ns, gs, cs, Height(from));
  }

  /** So it is for the two documents as the generator leaves them. */
  lemma KeptRoundTripIff(from: Json, to: Json, gs: bool, cs: bool)
    requires Unique(from, cs) && Unique(to, cs)
    ensures var k := Kept(from, to, gs);
      Same(Merged(k.0, from, to, gs, cs), k.1, cs) <==> Follows(from, to, gs, cs)
  {
    hide Same, Follows, Merged, Kept;
    var k := Kept(from, to, gs);
    KeptSame(from, to, gs, cs);
    MergeRoundTripIff(k.0, from, to, gs, cs);
    SameCongruent(Merged(k.0, from, to, gs, cs), to, k.1, cs);
  }

  lemma ValueFacts(ms: seq<Member>, key: string, cs: bool)
    ensures ValueOf(ms, key, cs).Some? ==> exists i :: 0 <= i < |ms| && ValueOf(ms, key, cs).value == ms[i].value
  {
  }

  lemma MergedIs(doc: Json, from: Json, to: Json, gs: bool, cs: bool)
    requires doc.Object? && from.Object? && to.Object?
    ensures LowerMembers(SortMembers(from.members, gs), Height(from))
    ensures Merged(doc, from, to, gs, cs)
      == Object(MergeMembers(doc.members, GenerateMembers(SortMembers(from.members, gs), SortMembers(to.members, gs), gs, Height(from)), cs))
  {
    hide GenerateMembers;
    SortedLower(from.members, gs, Height(from));
  }

  lemma FollowsByKey(ms: seq<Member>, ns: seq<Member>, gs: bool, cs: bool, h: nat)
    requires LowerMembers(ms, h) && Distinct(ns, cs)
    requires forall key :: ValueOf(ms, key, cs).Some? ==> Height(ValueOf(ms, key, cs).value) < h
    ensures FollowsMembers(ms, ns, gs, cs, h)
      <==> forall key :: ValueOf(ns, key, cs).Some? ==> KeyFollows(ValueOf(ms, key, cs), ValueOf(ns, key, cs).value, Meets(ms, ns, key, cs), gs, cs, h)
  {
    hide Key, Find, Distinct, Meets, KeyFollows, ValueOf;
    if FollowsMembers(ms, ns, gs, cs, h) {
      forall key | ValueOf(ns, key, cs).Some? ensures KeyFollows(ValueOf(ms, key, cs), ValueOf(ns, key, cs).value, Meets(ms, ns, key, cs), gs, cs, h) {
        FoundBy(ns, key, cs);
        var j := Find(ns, key, cs);
        ValueOfClass(ms, ns[j].key, key, cs);
        MeetsClass(ms, ns, ns[j].key, key, cs);
      }
    }
    if forall key :: ValueOf(ns, key, cs).Some? ==> KeyFollows(ValueOf(ms, key, cs), ValueOf(ns, key, cs).value, Meets(ms, ns, key, cs), gs, cs, h) {
      forall j | 0 <= j < |ns| ensures KeyFollows(ValueOf(ms, ns[j].key, cs), ns[j].value, Meets(ms, ns, ns[j].key, cs), gs, cs, h) {
        FoundSelf(ns, j, cs);
      }
    }
  }

  lemma FoundBy(ns: seq<Member>, key: string, cs: bool)
    requires ValueOf(ns, key, cs).Some?
    ensures var j := Find(ns, key, cs); j < |ns| && KeyEq(ns[j].key, key, cs) && ValueOf(ns, key, cs) == Some(ns[j].value)
  {
  }

  // ----- when nothing is generated -----

  /** Two objects whose sorted members have the same keys, letter for letter, and values that compare equal or
      are such objects again. */
  ghost predicate SameText(a: Json, b: Json, gs: bool)
    decreases Height(a), 1
  {
    a.Object? && b.Object? &&
    (SortedLower(a.members, gs, Height(a));
     SameTextMembers(SortMembers(a.members, gs), SortMembers(b.members, gs), gs, Height(a)))
  }

  ghost predicate SameTextMembers(ms: seq<Member>, ns: seq<Member>, gs: bool, h: nat)
    requires LowerMembers(ms, h)
    decreases h, 0
  {
    && |ms| == |ns|
    && forall i :: 0 <= i < |ms| ==>
         ms[i].key == ns[i].key && (CompareJson(ms[i].value, ns[i].value, gs) || SameTextLeft(ms[i].value, ns[i].value, gs))
  }

  /** For the two values as comparing leaves them. */
  ghost predicate SameTextLeft(a: Json, b: Json, gs: bool)
    decreases Height(a), 2
  {
    LeftLower(a, b, gs);
    SameText(Left(a, b, gs).0, Left(a, b, gs).1, false)
  }

  /** No patch is generated exactly for two such objects. */
  lemma {:induction false} NothingGeneratedIff(a: Json, b: Json, gs: bool)
    ensures GenerateMerge(a, b, gs).None? <==> SameText(a, b, gs)
    decreases Height(a), 1
  {
    hide SortMembers, GenerateMembers, SameTextMembers;
    if a.Object? && b.Object? {
      SortedLower(a.members, gs, Height(a));
      NoMembersIff(SortMembers(a.members, gs), SortMembers(b.members, gs), gs, Height(a));
    }
  }

  lemma {:induction false} NoMembersIff(ms: seq<Member>, ns: seq<Member>, gs: bool, h: nat)
    requires LowerMembers(ms, h)
    ensures GenerateMembers(ms, ns, gs, h) == [] <==> SameTextMembers(ms, ns, gs, h)
    decreases h, 0, |ms| + |ns|
  {
    hide GenerateMembers, CompareJson, SameText, MergeOrder, GenerateMerge, Left;
    if ms == [] && ns == [] {
      NothingGenerated(gs, h);
      return;
    }
    GenerateAtHeads(ms, ns, gs, h);
    var diff := MergeOrder(ms, ns);
    HeadsDiffer(ms, ns);
    if diff == 0 {
      var l := Left(ms[0].value, ns[0].value, gs);
      LeftLower(ms[0].value, ns[0].value, gs);
      NothingGeneratedIff(l.0, l.1, false);
      NoMembersIff(ms[1..], ns[1..], gs, h);
      SameTextStep(ms, ns, gs, h);
    }
  }

  lemma HeadsDiffer(ms: seq<Member>, ns: seq<Member>)
    ensures ms != [] && ns != [] && ms[0].key == ns[0].key ==> MergeOrder(ms, ns) == 0
  {
    if ms != [] && ns != [] { CompareEqual(ms[0].key, ns[0].key); }
  }

  lemma SameTextStep(ms: seq<Member>, ns: seq<Member>, gs: bool, h: nat)
    requires LowerMembers(ms, h) && ms != [] && ns != []
    ensures SameTextMembers(ms, ns, gs, h)
      <==> ms[0].key == ns[0].key && (CompareJson(ms[0].value, ns[0].value, gs) || SameTextLeft(ms[0].value, ns[0].value, gs)) && SameTextMembers(ms[1..], ns[1..], gs, h)
  {
    hide CompareJson, SameTextLeft;
    if SameTextMembers(ms[1..], ns[1..], gs, h) {
      assert forall i :: 1 <= i < |ms| ==> ms[i] == ms[1..][i - 1];
      assert forall i :: 1 <= i < |ns| ==> ns[i] == ns[1..][i - 1];
    }
  }

  // ----- two families of documents -----

  /** In lists sorted by `strcmp` a key that both have is reached in both together. */
  lemma {:induction false} SortedTogether(ms: seq<Member>, ns: seq<Member>, key: string)
    requires Increasing(ms, true) && Increasing(ns, true) && Has(ms, key, true) && Has(ns, key, true)
    ensures Meets(ms, ns, key, true) == Together
    decreases |ms| + |ns|
  {
    MeetsStep(ms, ns, key, true);
    HeadsSorted(ms, ns);
    var diff := MergeOrder(ms, ns);
    if diff < 0 {
      assert ms[0].key != key;
      SortedTogether(ms[1..], ns, key);
    } else if diff > 0 {
      assert ns[0].key != key;
      SortedTogether(ms, ns[1..], key);
    } else if ms[0].key != key {
      SortedTogether(ms[1..], ns[1..], key);
    }
  }

  lemma HeadsSorted(ms: seq<Member>, ns: seq<Member>)
    requires Increasing(ms, true) && Increasing(ns, true) && ms != [] && ns != []
    ensures Increasing(ms[1..], true) && Increasing(ns[1..], true)
    ensures MergeOrder(ms, ns) < 0 ==> forall k :: 0 <= k < |ns| ==> ns[k].key != ms[0].key
    ensures MergeOrder(ms, ns) > 0 ==> forall k :: 0 <= k < |ms| ==> ms[k].key != ns[0].key
    ensures MergeOrder(ms, ns) == 0 ==> ms[0].key == ns[0].key
  {
    var a, b := ms[0].key, ns[0].key;
    CompareEqual(a, b);
    CompareAntisymmetric(a, b);
    forall k | 0 < k < |ns| ensures Compare(a, b) < 0 ==> ns[k].key != a {
      if Compare(a, b) < 0 { CompareTransitive(a, b, ns[k].key); CompareEqual(a, ns[k].key); }
    }
    forall k | 0 < k < |ms| ensures Compare(b, a) < 0 ==> ms[k].key != b {
      if Compare(b, a) < 0 { CompareTransitive(b, a, ms[k].key); CompareEqual(b, ms[k].key); }
    }
  }

  /** In the case-sensitive mode the keys of the root may be any: only values can go wrong. */
  lemma CaseSensitiveRoot(from: Json, to: Json)
    requires from.Object? && to.Object? && Unique(from, true) && Unique(to, true)
    ensures Same(Merged(from, from, to, true, true), to, true) <==>
      var ns := SortMembers(to.members, true);
      forall j :: 0 <= j < |ns| ==> KeyFollows(Low(from, ns[j].key), ns[j].value, Together, true, true, Height(from))
  {
    hide Find, Distinct, KeyFollows, ValueOf, Key, Meets, SortMembers, Has;
    var ms, ns := SortMembers(from.members, true), SortMembers(to.members, true);
    SameReflexive(from, true);
    MergeRoundTripIff(from, from, to, true, true);
    SortedLower(from.members, true, Height(from));
    SortIncreasing(from.members, true);
    SortIncreasing(to.members, true);
    forall j | 0 <= j < |ns|
      ensures ValueOf(ms, ns[j].key, true) == Low(from, ns[j].key)
      ensures KeyFollows(ValueOf(ms, ns[j].key, true), ns[j].value, Meets(ms, ns, ns[j].key, true), true, true, Height(from))
        <==> KeyFollows(Low(from, ns[j].key), ns[j].value, Together, true, true, Height(from))
    {
      SortedValue(from.members, ns[j].key, true, true);
      FoundSelf(ns, j, true);
      MeetingTogether(ms, ns, j, Height(from));
    }
  }

  lemma MeetingTogether(ms: seq<Member>, ns: seq<Member>, j: nat, h: nat)
    requires Increasing(ms, true) && Increasing(ns, true) && j < |ns| && LowerMembers(ms, h)
    requires Find(ns, ns[j].key, true) == j
    ensures var m := ValueOf(ms, ns[j].key, true);
      && (m.Some? ==> Height(m.value) < h)
      && (KeyFollows(m, ns[j].value, Meets(ms, ns, ns[j].key, true), true, true, h) <==> KeyFollows(m, ns[j].value, Together, true, true, h))
  {
    hide Find, KeyFollows, Meets;
    LowerValue(ms, ns[j].key, true, h);
    if Has(ms, ns[j].key, true) { SortedTogether(ms, ns, ns[j].key); } else { OneSided(ns[j].value, Meets(ms, ns, ns[j].key, true), h); }
  }

  function Low(from: Json, key: string): (v: Option<Json>)
    requires from.Object?
    ensures v == ValueOf(from.members, key, true) && (v.Some? ==> Height(v.value) < Height(from))
  {
    LowerValue(from.members, key, true, Height(from));
    ValueOf(from.members, key, true)
  }

  lemma OneSided(n: Json, meeting: Meeting, h: nat)
    ensures KeyFollows(None, n, meeting, true, true, h) == KeyFollows(None, n, Together, true, true, h)
  {
  }

  /** A value that a patch can only replace: text, number or truth value. */
  predicate Scalar(t: Json) {
    t.String? || t.Number? || t.True? || t.False?
  }

  predicate Flat(t: Json) {
    t.Object? && forall i :: 0 <= i < |t.members| ==> Scalar(t.members[i].value)
  }

  /** For flat objects the round trip is right exactly when the walk reaches no key of the new object before it
      reaches the key of the old one that equals it. */
  lemma FlatRoundTripIff(from: Json, to: Json, cs: bool)
    requires Flat(from) && Flat(to) && Unique(from, cs) && Unique(to, cs)
    ensures var ms, ns := SortMembers(from.members, cs), SortMembers(to.members, cs);
      Same(Merged(from, from, to, cs, cs), to, cs)
      <==> forall j :: 0 <= j < |ns| && Has(ms, ns[j].key, cs) ==> Meets(ms, ns, ns[j].key, cs) != NewFirst
  {
    hide Find, Distinct, KeyFollows, Meets, Key, Same, Merged, Left, CompareJson;
    var ms, ns := SortMembers(from.members, cs), SortMembers(to.members, cs);
    SameReflexive(from, cs);
    MergeRoundTripIff(from, from, to, cs, cs);
    SortedLower(from.members, cs, Height(from));
    forall j | 0 <= j < |ns|
      ensures LowerMembers(ms, Height(from)) && (ValueOf(ms, ns[j].key, cs).Some? ==> Height(ValueOf(ms, ns[j].key, cs).value) < Height(from))
      ensures KeyFollows(ValueOf(ms, ns[j].key, cs), ns[j].value, Meets(ms, ns, ns[j].key, cs), cs, cs, Height(from))
        <==> (Has(ms, ns[j].key, cs) ==> Meets(ms, ns, ns[j].key, cs) != NewFirst)
    {
      LowerValue(ms, ns[j].key, cs, Height(from));
      var m := ValueOf(ms, ns[j].key, cs);
      var j' := SameElements(ns, to.members, j);
      if m.Some? { var i' := SameElements(ms, from.members, Find(ms, ns[j].key, cs)); }
      ScalarFollows(m, ns[j].value, Meets(ms, ns, ns[j].key, cs), cs, Height(from));
    }
  }

  lemma ScalarFollows(m: Option<Json>, n: Json, meeting: Meeting, cs: bool, h: nat)
    requires (m.Some? ==> Height(m.value) < h && Scalar(m.value)) && Scalar(n)
    ensures KeyFollows(m, n, meeting, cs, cs, h) <==> (m.Some? ==> meeting != NewFirst)
  {
  }

  /** The walk goes out of step: `B` comes before `a`, and so before the `B` behind it. */
  lemma UpperCaseMeets()
    ensures Meets([Member("a", True), Member("B", True)], [Member("B", True)], "B", false) == NewFirst
  {
    assert Compare("a", "B") == 1;
    MeetsStep([Member("a", True), Member("B", True)], [Member("B", True)], "B", false);
  }
}

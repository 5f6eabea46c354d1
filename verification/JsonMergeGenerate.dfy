/** `generate_merge_patch`: when there is nothing to generate, and exactly which documents a generated
    merge patch leads to. */
module JsonMergeGenerate {
  import opened CStrings
  import opened MergeSort
  import opened JsonSame
  import opened JsonTree
  import opened JsonMerge
  import opened Options
  import opened Sequences

  // ----- generate_merge_patch -----

  /** `generate_merge_patch`; None is the null pointer. */
  function GenerateMerge(from: Json, to: Json, cs: bool): Option<Json>
    decreases Height(from), 1, 0
  {
    if !to.Object? || !from.Object? then Some(to)
    else
      SortedLower(from.members, cs, Height(from));
      var ps := GenerateMembers(SortMembers(from.members, cs), SortMembers(to.members, cs), cs, Height(from));
      if ps == [] then None else Some(Object(ps))
  }

  /** Which list is behind, by `strcmp` in either mode. */
  function MergeOrder(ms: seq<Member>, ns: seq<Member>): int {
    if ms == [] then 1 else if ns == [] then -1 else Compare(ms[0].key, ns[0].key)
  }

  /** The walk through the two sorted lists.  The recursive call is always the case-insensitive one, on what
      comparing has left of the two values, and adding its null pointer adds nothing. */
  function GenerateMembers(ms: seq<Member>, ns: seq<Member>, cs: bool, ghost h: nat): seq<Member>
    requires LowerMembers(ms, h)
    decreases h, 0, |ms| + |ns|
  {
    if ms == [] && ns == [] then []
    else
      var diff := MergeOrder(ms, ns);
      if diff < 0 then [Member(ms[0].key, Null)] + GenerateMembers(ms[1..], ns, cs, h)
      else if diff > 0 then [ns[0]] + GenerateMembers(ms, ns[1..], cs, h)
      else
        (CompareEqual(ms[0].key, ns[0].key);
         var rest := GenerateMembers(ms[1..], ns[1..], cs, h);
         if CompareJson(ms[0].value, ns[0].value, cs) then rest
         else
           LeftLower(ms[0].value, ns[0].value, cs);
           var (x, y) := Left(ms[0].value, ns[0].value, cs);
           match GenerateMerge(x, y, false)
           case None => rest
           case Some(p) => [Member(ns[0].key, p)] + rest)
  }

  /** What generating leaves of the two documents: sorted objects, compared values and what the recursive call
      leaves of these. */
  function Kept(from: Json, to: Json, cs: bool): (Json, Json)
    decreases Height(from), 1, 0
  {
    if !to.Object? || !from.Object? then (from, to)
    else
      SortedLower(from.members, cs, Height(from));
      var (p, q) := KeptMembers(SortMembers(from.members, cs), SortMembers(to.members, cs), cs, Height(from));
      (Object(p), Object(q))
  }

  function KeptMembers(ms: seq<Member>, ns: seq<Member>, cs: bool, ghost h: nat): (seq<Member>, seq<Member>)
    requires LowerMembers(ms, h)
    decreases h, 0, |ms| + |ns|
  {
    if ms == [] && ns == [] then ([], [])
    else
      var diff := MergeOrder(ms, ns);
      if diff < 0 then
        var (p, q) := KeptMembers(ms[1..], ns, cs, h);
        ([ms[0]] + p, q)
      else if diff > 0 then
        var (p, q) := KeptMembers(ms, ns[1..], cs, h);
        (p, [ns[0]] + q)
      else
        (CompareEqual(ms[0].key, ns[0].key);
         LeftLower(ms[0].value, ns[0].value, cs);
         var (x, y) := Left(ms[0].value, ns[0].value, cs);
         var (x', y') := if CompareJson(ms[0].value, ns[0].value, cs) then (x, y) else Kept(x, y, false);
         var (p, q) := KeptMembers(ms[1..], ns[1..], cs, h);
         ([Member(ms[0].key, x')] + p, [Member(ns[0].key, y')] + q))
  }

  /** `generate_merge_patch` with its walk through both lists of children; `from'` and `to'` are what it leaves. */
  method GenerateMergePatch(from: Json, to: Json, cs: bool) returns (patch: Option<Json>, from': Json, to': Json)
    ensures patch == GenerateMerge(from, to, cs)
    ensures (from', to') == Kept(from, to, cs)
    decreases Height(from), 1
  {
    hide SortMembers, GenerateMembers, KeptMembers;
    if !to.Object? || !from.Object? {
      return Some(to), from, to;
    }
    SortedLower(from.members, cs, Height(from));
    var ps, ms, ns := GenerateMemberPatches(SortMembers(from.members, cs), SortMembers(to.members, cs), cs, Height(from));
    return if ps == [] then None else Some(Object(ps)), Object(ms), Object(ns);
  }

  method GenerateMemberPatches(ms: seq<Member>, ns: seq<Member>, cs: bool, ghost h: nat)
    returns (patch: seq<Member>, ms': seq<Member>, ns': seq<Member>)
    requires LowerMembers(ms, h)
    ensures patch == GenerateMembers(ms, ns, cs, h)
    ensures (ms', ns') == KeptMembers(ms, ns, cs, h)
    decreases h, 0
  {
    hide GenerateMembers, KeptMembers, CompareJson, Left, GenerateMerge, Kept, MergeOrder, Height;
    patch, ms', ns' := [], ms, ns;
    var i, j := 0, 0;
    assert ms[0..] == ms && ns[0..] == ns && ms[..0] == [] && ns[..0] == [];
    ghost var all, kept := GenerateMembers(ms, ns, cs, h), KeptMembers(ms, ns, cs, h);
    EmptyFront(all);
    EmptyFront(kept.0);
    EmptyFront(kept.1);
    while i < |ms| || j < |ns|
      invariant i <= |ms| && j <= |ns| && |ms'| == |ms| && |ns'| == |ns|
      invariant ms'[i..] == ms[i..] && ns'[j..] == ns[j..]
      invariant patch + GenerateMembers(ms[i..], ns[j..], cs, h) == all
      invariant kept == (ms'[..i] + KeptMembers(ms[i..], ns[j..], cs, h).0, ns'[..j] + KeptMembers(ms[i..], ns[j..], cs, h).1)
      decreases |ms| - i + |ns| - j
    {
      GenerateStep(patch, ms, ns, i, j, cs, h);
      KeptStep(ms, ns, i, j, cs, h);
      if i < |ms| { TailOf(ms', ms, i); }
      if j < |ns| { TailOf(ns', ns, j); }
      var diff := MergeOrder(ms[i..], ns[j..]);
      if diff < 0 {
        patch := patch + [Member(ms[i].key, Null)];
        Written(ms', i, ms[i], KeptMembers(ms[i + 1..], ns[j..], cs, h).0);
        assert ms'[i := ms[i]] == ms';
        i := i + 1;
      } else if diff > 0 {
        patch := patch + [ns[j]];
        Written(ns', j, ns[j], KeptMembers(ms[i..], ns[j + 1..], cs, h).1);
        assert ns'[j := ns[j]] == ns';
        j := j + 1;
      } else {
        LeftLower(ms[i].value, ns[j].value, cs);
        var identical, x, y := CompareNodes(ms[i].value, ns[j].value, cs);
        if !identical {
          var p;
          p, x, y := GenerateMergePatch(x, y, false);
          if p.Some? {
            patch := patch + [Member(ns[j].key, p.value)];
          }
        }
        Written(ms', i, Member(ms[i].key, x), KeptMembers(ms[i + 1..], ns[j + 1..], cs, h).0);
        Written(ns', j, Member(ns[j].key, y), KeptMembers(ms[i + 1..], ns[j + 1..], cs, h).1);
        ms', ns' := ms'[i := Member(ms[i].key, x)], ns'[j := Member(ns[j].key, y)];
        i, j := i + 1, j + 1;
      }
    }
    NothingGenerated(cs, h);
    assert ms[i..] == [] && ns[j..] == [] && ms'[..i] == ms' && ns'[..j] == ns';
    EmptyBehind(patch);
    EmptyBehind(ms');
    EmptyBehind(ns');
  }

  lemma NothingGenerated(cs: bool, h: nat)
    ensures GenerateMembers([], [], cs, h) == [] && KeptMembers([], [], cs, h) == ([], [])
  {
  }

  /** What one round of the walk adds to the patch. */
  lemma GenerateStep(before: seq<Member>, ms: seq<Member>, ns: seq<Member>, i: nat, j: nat, cs: bool, h: nat)
    requires LowerMembers(ms, h) && i <= |ms| && j <= |ns| && (i < |ms| || j < |ns|)
    ensures var diff := MergeOrder(ms[i..], ns[j..]);
      && (diff <= 0 ==> i < |ms|) && (diff >= 0 ==> j < |ns|)
      && before + GenerateMembers(ms[i..], ns[j..], cs, h)
         == if diff < 0 then before + [Member(ms[i].key, Null)] + GenerateMembers(ms[i + 1..], ns[j..], cs, h)
            else if diff > 0 then before + [ns[j]] + GenerateMembers(ms[i..], ns[j + 1..], cs, h)
            else
              var l := Left(ms[i].value, ns[j].value, cs);
              var g := if CompareJson(ms[i].value, ns[j].value, cs) then None else GenerateMerge(l.0, l.1, false);
              before + (if g.Some? then [Member(ns[j].key, g.value)] else []) + GenerateMembers(ms[i + 1..], ns[j + 1..], cs, h)
  {
    hide CompareJson, GenerateMerge, Left;
    if i < |ms| { assert ms[i..][1..] == ms[i + 1..]; }
    if j < |ns| { assert ns[j..][1..] == ns[j + 1..]; }
    assert before + [] == before;
  }

  lemma KeptStep(ms: seq<Member>, ns: seq<Member>, i: nat, j: nat, cs: bool, h: nat)
    requires LowerMembers(ms, h) && i <= |ms| && j <= |ns| && (i < |ms| || j < |ns|)
    ensures var diff := MergeOrder(ms[i..], ns[j..]);
      && (diff <= 0 ==> i < |ms|) && (diff >= 0 ==> j < |ns|)
      && KeptMembers(ms[i..], ns[j..], cs, h)
         == if diff < 0 then
              var k := KeptMembers(ms[i + 1..], ns[j..], cs, h);
              ([ms[i]] + k.0, k.1)
            else if diff > 0 then
              var k := KeptMembers(ms[i..], ns[j + 1..], cs, h);
              (k.0, [ns[j]] + k.1)
            else
              var l := Left(ms[i].value, ns[j].value, cs);
              var v := if CompareJson(ms[i].value, ns[j].value, cs) then l else Kept(l.0, l.1, false);
              var k := KeptMembers(ms[i + 1..], ns[j + 1..], cs, h);
              ([Member(ms[i].key, v.0)] + k.0, [Member(ns[j].key, v.1)] + k.1)
  {
    hide CompareJson, Kept, Left;
    if i < |ms| { assert ms[i..][1..] == ms[i + 1..]; }
    if j < |ns| { assert ns[j..][1..] == ns[j + 1..]; }
  }

  // ----- generating leaves the documents -----

  /** Generating in any mode leaves both documents the same. */
  lemma {:induction false} KeptSame(from: Json, to: Json, gs: bool, cs: bool)
    requires Unique(from, cs) && Unique(to, cs)
    ensures Same(Kept(from, to, gs).0, from, cs) && Same(Kept(from, to, gs).1, to, cs)
    decreases Height(from), 1, 0
  {
    hide KeptMembers, SortMembers, Same, Distinct;
    if !to.Object? || !from.Object? {
      SameReflexive(from, cs);
      SameReflexive(to, cs);
    } else {
      var s, t := SortMembers(from.members, gs), SortMembers(to.members, gs);
      SortedLower(from.members, gs, Height(from));
      forall i | 0 <= i < |s| ensures Unique(s[i].value, cs) { var k := SameElements(s, from.members, i); }
      forall i | 0 <= i < |t| ensures Unique(t[i].value, cs) { var k := SameElements(t, to.members, i); }
      KeptMembersSame(s, t, gs, cs, Height(from));
      var (p, q) := KeptMembers(s, t, gs, Height(from));
      SameAfterSorting(p, s, from.members, cs);
      SameAfterSorting(q, t, to.members, cs);
    }
  }

  lemma {:induction false} KeptMembersSame(ms: seq<Member>, ns: seq<Member>, gs: bool, cs: bool, h: nat)
    requires LowerMembers(ms, h)
    requires (forall i :: 0 <= i < |ms| ==> Unique(ms[i].value, cs)) && forall i :: 0 <= i < |ns| ==> Unique(ns[i].value, cs)
    ensures SameInOrder(KeptMembers(ms, ns, gs, h).0, ms, cs) && SameInOrder(KeptMembers(ms, ns, gs, h).1, ns, cs)
    decreases h, 0, |ms| + |ns|
  {
    hide CompareJson, Left, Same, Unique, MergeOrder, Kept, KeptMembers;
    if ms == [] && ns == [] {
      NothingGenerated(gs, h);
      return;
    }
    assert ms[0..] == ms && ns[0..] == ns;
    KeptStep(ms, ns, 0, 0, gs, h);
    MembersSame(ms, cs);
    MembersSame(ns, cs);
    var diff := MergeOrder(ms, ns);
    KeptMembersSame(if diff <= 0 then ms[1..] else ms, if diff >= 0 then ns[1..] else ns, gs, cs, h);
    if diff == 0 {
      var a, b := ms[0].value, ns[0].value;
      ComparedSame(a, b, gs, cs);
      LeftLower(a, b, gs);
      var l := Left(a, b, gs);
      KeptSame(l.0, l.1, false, cs);
      SameCongruent(Kept(l.0, l.1, false).0, a, l.0, cs);
      SameCongruent(Kept(l.0, l.1, false).1, b, l.1, cs);
    }
  }

  /** What comparing leaves is the same and still unique. */
  lemma ComparedSame(a: Json, b: Json, gs: bool, cs: bool)
    requires Unique(a, cs) && Unique(b, cs)
    ensures var l := Left(a, b, gs); Same(l.0, a, cs) && Same(l.1, b, cs) && Unique(l.0, cs) && Unique(l.1, cs)
  {
    hide Same, Unique, Left;
    LeftSame(a, b, gs, cs);
    SameIsUnique(Left(a, b, gs).0, a, cs);
    SameIsUnique(Left(a, b, gs).1, b, cs);
  }

  // ----- generation on maps -----

  function GenerateDoc(F: Doc, T: Doc): Option<Doc>
    decreases F, 1
  {
    if !F.Map? || !T.Map? then Some(T)
    else
      var P := GenerateMap(F, T);
      if P == map[] then None else Some(Map(P))
  }

  /** An entry for every key that is not in both with the same value. */
  function GenerateMap(F: Doc, T: Doc): map<string, Doc>
    requires F.Map? && T.Map?
    decreases F, 0
  {
    map k | k in F.members.Keys + T.members.Keys
            && !(k in F.members && k in T.members && F.members[k] == T.members[k]) ::
      if k !in T.members then NULL
      else if k !in F.members then T.members[k]
      else
        var g := GenerateDoc(F.members[k], T.members[k]);
        if g.Some? then g.value else NULL
  }

  /** What is generated for one key. */
  function GenerateValue(f: Option<Doc>, t: Option<Doc>): Option<Doc> {
    if t.None? then (if f.None? then None else Some(NULL))
    else if f.None? then t
    else if f == t then None
    else GenerateDoc(f.value, t.value)
  }

  lemma GenerateDocAt(F: Doc, T: Doc, k: string)
    requires F.Map? && T.Map?
    ensures var P := GenerateDoc(F, T);
            && (P.Some? ==> P.value.Map?)
            && GenerateValue(MapAt(F.members, k), MapAt(T.members, k))
               == if P.Some? then MapAt(P.value.members, k) else None
  {
    if k in F.members && k in T.members && F.members[k] != T.members[k] {
      GenerateNothing(F.members[k], T.members[k]);
    }
    var P := GenerateMap(F, T);
    assert k in P <==> k in F.members.Keys + T.members.Keys
                       && !(k in F.members && k in T.members && F.members[k] == T.members[k]);
    assert MapAt(P, k) == GenerateValue(MapAt(F.members, k), MapAt(T.members, k));
    assert P == map[] ==> k !in P;
  }

  /** Nothing is generated exactly for two equal objects. */
  lemma GenerateNothing(F: Doc, T: Doc)
    ensures GenerateDoc(F, T).None? <==> F.Map? && T.Map? && F == T
    decreases F
  {
    if F.Map? && T.Map? {
      if F == T {
        assert GenerateMap(F, T).Keys == {};
      }
      if GenerateDoc(F, T).None? {
        forall k ensures MapAt(F.members, k) == MapAt(T.members, k) {
          assert k !in GenerateMap(F, T);
        }
        SameMaps(F.members, T.members);
      }
    }
  }

  // ----- what a merge patch can express -----

  /** No null member, at any depth that is reached through objects only. */
  predicate NoNulls(d: Doc) {
    d.Map? ==> forall k :: k in d.members ==> d.members[k] != NULL && NoNulls(d.members[k])
  }

  /** A null member of the new document is harmless only inside a member that does not change at all. */
  predicate Expressible(F: Doc, T: Doc)
    decreases T, 1
  {
    T.Map? ==>
      if !F.Map? then NoNulls(T) else forall k :: k in T.members ==> ExpressibleAt(F, T, k)
  }

  predicate ExpressibleAt(F: Doc, T: Doc, k: string)
    requires F.Map? && T.Map? && k in T.members
    decreases T, 0
  {
    || (k in F.members && F.members[k] == T.members[k])
    || (T.members[k] != NULL
        && if k in F.members then Expressible(F.members[k], T.members[k]) else NoNulls(T.members[k]))
  }

  lemma {:induction false} MergeIntoNothing(t: Option<Doc>, d: Doc)
    requires t.Some? ==> !t.value.Map?
    ensures Rfc(t, d) == d <==> NoNulls(d)
    decreases d
  {
    if d.Map? {
      forall k ensures MapAt(Rfc(t, d).members, k) == RfcValue(None, MapAt(d.members, k)) {
        RfcAt(t, d, k);
      }
      forall k | k in d.members ensures Rfc(None, d.members[k]) == d.members[k] <==> NoNulls(d.members[k]) {
        MergeIntoNothing(None, d.members[k]);
      }
      if NoNulls(d) {
        SameMaps(Rfc(t, d).members, d.members);
      }
      if Rfc(t, d) == d {
        forall k | k in d.members ensures d.members[k] != NULL && NoNulls(d.members[k]) {
          assert MapAt(d.members, k) == RfcValue(None, MapAt(d.members, k));
        }
      }
    }
  }

  /** Merging the generated patch into the old document gives the new one exactly when the new one is
      expressible. */
  lemma {:induction false} GeneratedMergeIff(F: Doc, T: Doc)
    requires GenerateDoc(F, T).Some?
    ensures Rfc(Some(F), GenerateDoc(F, T).value) == T <==> Expressible(F, T)
    decreases F
  {
    if T.Map? && !F.Map? {
      MergeIntoNothing(Some(F), T);
    } else if T.Map? {
      var f, t, P := F.members, T.members, GenerateDoc(F, T).value;
      var r := Rfc(Some(F), P);
      GenerateDocAt(F, T, "");
      RfcAt(Some(F), P, "");
      forall k ensures MapAt(r.members, k) == MapAt(t, k) <==> (k in t ==> ExpressibleAt(F, T, k)) {
        RfcAt(Some(F), P, k);
        GenerateDocAt(F, T, k);
        if k in f && k in t && f[k] != t[k] {
          GenerateNothing(f[k], t[k]);
          GeneratedMergeIff(f[k], t[k]);
          GeneratedNull(f[k], t[k]);
        } else if k in t && k !in f {
          MergeIntoNothing(None, t[k]);
        }
      }
      if Expressible(F, T) {
        SameMaps(r.members, t);
      }
      if r == T {
        forall k | k in t ensures ExpressibleAt(F, T, k) { assert MapAt(r.members, k) == MapAt(t, k); }
      }
    }
  }

  lemma GeneratedNull(F: Doc, T: Doc)
    requires GenerateDoc(F, T).Some?
    ensures GenerateDoc(F, T).value == NULL <==> T == NULL
  {
    if F.Map? && T.Map? { GenerateDocAt(F, T, ""); }
  }

  // ----- documents with lower-case keys -----

  /** Every key is its own lower-case form. */
  predicate LowerKeys(t: Json) {
    match t
    case Array(xs) => forall i :: 0 <= i < |xs| ==> LowerKeys(xs[i])
    case Object(ms) => forall i :: 0 <= i < |ms| ==> Fold(ms[i].key) == ms[i].key && LowerKeys(ms[i].value)
    case _ => true
  }

  lemma {:induction false} DenoteLower(t: Json, cs: bool)
    requires LowerKeys(t)
    ensures Denote(t, cs) == Denote(t, true)
  {
    match t
    case Array(xs) =>
      forall i | 0 <= i < |xs| ensures Denote(xs[i], cs) == Denote(xs[i], true) { DenoteLower(xs[i], cs); }
      assert DenoteItems(xs, cs) == DenoteItems(xs, true);
    case Object(ms) => DenoteMembersLower(ms, cs);
    case _ =>
  }

  lemma {:induction false} DenoteMembersLower(ms: seq<Member>, cs: bool)
    requires forall i :: 0 <= i < |ms| ==> Fold(ms[i].key) == ms[i].key && LowerKeys(ms[i].value)
    ensures DenoteMembers(ms, cs) == DenoteMembers(ms, true)
  {
    if ms != [] {
      DenoteLower(ms[0].value, cs);
      DenoteMembersLower(ms[1..], cs);
    }
  }

  /** Equality up to member order is equality of the maps. */
  lemma {:induction false} SameIsDenote(a: Json, b: Json, cs: bool)
    requires Unique(a, cs) && Unique(b, cs)
    ensures Same(a, b, cs) <==> Denote(a, cs) == Denote(b, cs)
  {
    if a.Array? && b.Array? {
      forall i | 0 <= i < |a.items| && |a.items| == |b.items|
        ensures Same(a.items[i], b.items[i], cs) <==> Denote(a.items[i], cs) == Denote(b.items[i], cs)
      {
        SameIsDenote(a.items[i], b.items[i], cs);
      }
      if Denote(a, cs) == Denote(b, cs) {
        assert |DenoteItems(a.items, cs)| == |DenoteItems(b.items, cs)|;
        forall i | 0 <= i < |a.items| ensures Denote(a.items[i], cs) == Denote(b.items[i], cs) {
          assert DenoteItems(a.items, cs)[i] == DenoteItems(b.items, cs)[i];
        }
      }
      if Same(a, b, cs) {
        assert DenoteItems(a.items, cs) == DenoteItems(b.items, cs);
      }
    } else if a.Object? && b.Object? {
      SameMembersIsDenote(a.members, b.members, cs);
    }
  }

  lemma {:induction false} SameMembersIsDenote(ms: seq<Member>, ns: seq<Member>, cs: bool)
    requires UniqueValues(ms, cs) && UniqueValues(ns, cs)
    ensures SameMembers(ms, ns, cs) <==> DenoteMembers(ms, cs) == DenoteMembers(ns, cs)
  {
    hide Find, Key;
    var M, N := DenoteMembers(ms, cs), DenoteMembers(ns, cs);
    forall i, j | 0 <= i < |ms| && 0 <= j < |ns|
      ensures Same(ms[i].value, ns[j].value, cs) <==> Denote(ms[i].value, cs) == Denote(ns[j].value, cs)
    {
      SameIsDenote(ms[i].value, ns[j].value, cs);
    }
    forall i | 0 <= i < |ms|
      ensures MapAt(M, Key(ms[i].key, cs)) == Some(Denote(ms[i].value, cs))
      ensures MapAt(N, Key(ms[i].key, cs)) == MapAt(M, Key(ms[i].key, cs))
              <==> Has(ns, ms[i].key, cs) && Same(ms[i].value, ns[Find(ns, ms[i].key, cs)].value, cs)
    {
      MemberDenotes(ms, ns, i, cs);
    }
    forall j | 0 <= j < |ns|
      ensures MapAt(N, Key(ns[j].key, cs)).Some? && (MapAt(M, Key(ns[j].key, cs)).Some? <==> Has(ms, ns[j].key, cs))
    {
      DenoteAt(ms, Key(ns[j].key, cs), cs);
      KeyAtFind(ms, ns[j].key, cs);
      DenoteAt(ns, Key(ns[j].key, cs), cs);
      KeyAtFind(ns, ns[j].key, cs);
      FindDistinct(ns, ns[j].key, cs, j);
    }
    if SameMembers(ms, ns, cs) {
      forall k ensures MapAt(M, k) == MapAt(N, k) {
        if k in M { var i := KeyIsOfMember(ms, k, cs); }
        else if k in N { var j := KeyIsOfMember(ns, k, cs); }
      }
      SameMaps(M, N);
    }
  }

  lemma MemberDenotes(ms: seq<Member>, ns: seq<Member>, i: nat, cs: bool)
    requires UniqueValues(ms, cs) && UniqueValues(ns, cs) && i < |ms|
    requires forall j :: 0 <= j < |ns| ==> (Same(ms[i].value, ns[j].value, cs) <==> Denote(ms[i].value, cs) == Denote(ns[j].value, cs))
    ensures MapAt(DenoteMembers(ms, cs), Key(ms[i].key, cs)) == Some(Denote(ms[i].value, cs))
    ensures MapAt(DenoteMembers(ns, cs), Key(ms[i].key, cs)) == MapAt(DenoteMembers(ms, cs), Key(ms[i].key, cs))
            <==> Has(ns, ms[i].key, cs) && Same(ms[i].value, ns[Find(ns, ms[i].key, cs)].value, cs)
  {
    hide Key;
    FindDistinct(ms, ms[i].key, cs, i);
    DenoteAt(ms, Key(ms[i].key, cs), cs);
    KeyAtFind(ms, ms[i].key, cs);
    DenoteAt(ns, Key(ms[i].key, cs), cs);
    KeyAtFind(ns, ms[i].key, cs);
  }

  lemma {:induction false} KeyIsOfMember(ms: seq<Member>, k: string, cs: bool) returns (i: nat)
    requires k in DenoteMembers(ms, cs)
    ensures i < |ms| && Key(ms[i].key, cs) == k
  {
    if Key(ms[0].key, cs) == k {
      i := 0;
    } else {
      var j := KeyIsOfMember(ms[1..], k, cs);
      i := j + 1;
    }
  }

  /** Lower-case keys, unique in each object; no raw or invalid node. */
  predicate Ready(t: Json) {
    LowerKeys(t) && Unique(t, true) && Plain(t)
  }

  ghost predicate ReadyMembers(ms: seq<Member>) {
    forall i :: 0 <= i < |ms| ==> Fold(ms[i].key) == ms[i].key && Ready(ms[i].value)
  }

  lemma {:induction false} LowerUnique(t: Json, cs: bool)
    requires LowerKeys(t) && Unique(t, true)
    ensures Unique(t, cs)
  {
    match t
    case Array(xs) =>
      forall i | 0 <= i < |xs| ensures Unique(xs[i], cs) { LowerUnique(xs[i], cs); }
    case Object(ms) =>
      forall i, j | 0 <= i < j < |ms| ensures !KeyEq(ms[i].key, ms[j].key, cs) {
        assert !KeyEq(ms[i].key, ms[j].key, true);
      }
      forall i | 0 <= i < |ms| ensures Unique(ms[i].value, cs) { LowerUnique(ms[i].value, cs); }
    case _ =>
  }

  lemma {:induction false} SameLowerKeys(a: Json, b: Json)
    requires Same(a, b, true) && LowerKeys(b)
    ensures LowerKeys(a)
    decreases a
  {
    match a
    case Array(xs) => forall i | 0 <= i < |xs| ensures LowerKeys(xs[i]) { SameLowerKeys(xs[i], b.items[i]); }
    case Object(ms) =>
      forall i | 0 <= i < |ms| ensures Fold(ms[i].key) == ms[i].key && LowerKeys(ms[i].value) {
        SameLowerKeys(ms[i].value, b.members[Find(b.members, ms[i].key, true)].value);
      }
    case _ =>
  }

  /** Comparing such documents leaves such documents, which stand for the same maps. */
  lemma LeftReady(a: Json, b: Json, cs: bool)
    requires Ready(a) && Ready(b)
    ensures var l := Left(a, b, cs);
      Ready(l.0) && Ready(l.1) && Denote(l.0, true) == Denote(a, true) && Denote(l.1, true) == Denote(b, true)
  {
    hide Same, Unique, Left, Denote, LowerKeys, Plain;
    ComparedSame(a, b, cs, true);
    var l := Left(a, b, cs);
    SameLowerKeys(l.0, a);
    SameLowerKeys(l.1, b);
    SamePlain(l.0, a, true);
    SamePlain(l.1, b, true);
    SameIsDenote(l.0, a, true);
    SameIsDenote(l.1, b, true);
  }

  /** On such documents `compare_json` is equality of the maps, in either mode. */
  lemma CompareIsDenote(a: Json, b: Json, cs: bool)
    requires Ready(a) && Ready(b)
    ensures CompareJson(a, b, cs) <==> Denote(a, true) == Denote(b, true)
  {
    LowerUnique(a, cs);
    LowerUnique(b, cs);
    CompareDecidesSame(a, b, cs);
    SameIsDenote(a, b, cs);
    DenoteLower(a, cs);
    DenoteLower(b, cs);
  }

  lemma KeyAtPermutation(ms: seq<Member>, s: seq<Member>, k: string)
    requires Distinct(ms, true) && multiset(s) == multiset(ms)
    ensures KeyAt(s, k, true) == KeyAt(ms, k, true)
  {
    KeyAtFind(ms, k, true);
    KeyAtFind(s, k, true);
    FindPermutation(ms, s, k, true);
  }

  /** Sorting in either mode leaves lower-case keys in ascending `strcmp` order. */
  lemma SortReady(ms: seq<Member>, cs: bool)
    requires Distinct(ms, true) && ReadyMembers(ms)
    ensures var s := SortMembers(ms, cs); Increasing(s, true) && ReadyMembers(s)
  {
    var s := SortMembers(ms, cs);
    forall i | 0 <= i < |s| ensures Fold(s[i].key) == s[i].key && Ready(s[i].value) {
      var j := SameElements(s, ms, i);
    }
    forall i, j | 0 <= i < j < |ms| ensures !KeyEq(ms[i].key, ms[j].key, cs) {
      assert !KeyEq(ms[i].key, ms[j].key, true);
    }
    SortIncreasing(ms, cs);
    forall i, j | 0 <= i < j < |s| ensures Compare(Key(s[i].key, true), Key(s[j].key, true)) < 0 {
      assert Compare(Key(s[i].key, cs), Key(s[j].key, cs)) < 0;
    }
  }

  ghost predicate Before(key: string, ms: seq<Member>) {
    ms != [] ==> Compare(key, ms[0].key) < 0
  }

  lemma BeforeAbsent(key: string, ms: seq<Member>)
    requires Increasing(ms, true) && Before(key, ms)
    ensures KeyAt(ms, key, true) == None
    ensures forall i :: 0 <= i < |ms| ==> Compare(key, ms[i].key) < 0
  {
    forall i | 0 <= i < |ms| ensures Compare(key, ms[i].key) < 0 && ms[i].key != key {
      if i > 0 {
        assert Compare(Key(ms[0].key, true), Key(ms[i].key, true)) < 0;
        CompareTransitive(key, ms[0].key, ms[i].key);
      }
      CompareEqual(key, ms[i].key);
    }
    KeyAtAbsent(ms, key, true);
  }

  lemma BeforeTail(ms: seq<Member>)
    requires Increasing(ms, true) && ms != []
    ensures Increasing(ms[1..], true) && Before(ms[0].key, ms[1..])
  {
    if |ms| > 1 { assert Compare(Key(ms[0].key, true), Key(ms[1].key, true)) < 0; }
  }

  /** What the walk generates for one key is what is generated on maps. */
  lemma {:induction false} GenerateMembersAt(ms: seq<Member>, ns: seq<Member>, k: string, cs: bool, h: nat)
    requires LowerMembers(ms, h) && ReadyMembers(ms) && ReadyMembers(ns) && Increasing(ms, true) && Increasing(ns, true)
    ensures KeyAt(GenerateMembers(ms, ns, cs, h), k, true) == GenerateValue(KeyAt(ms, k, true), KeyAt(ns, k, true))
    decreases h, 0, |ms| + |ns|
  {
    hide Compare, Ready;
    if ms != [] || ns != [] {
      var diff := MergeOrder(ms, ns);
      if ms != [] { BeforeTail(ms); BeforeAbsent(ms[0].key, ms[1..]); }
      if ns != [] { BeforeTail(ns); BeforeAbsent(ns[0].key, ns[1..]); }
      if diff < 0 {
        BeforeAbsent(ms[0].key, ns);
        GenerateMembersAt(ms[1..], ns, k, cs, h);
      } else if diff > 0 {
        if ms != [] { CompareAntisymmetric(ms[0].key, ns[0].key); }
        BeforeAbsent(ns[0].key, ms);
        GenerateMembersAt(ms, ns[1..], k, cs, h);
      } else {
        CompareEqual(ms[0].key, ns[0].key);
        GenerateMembersAt(ms[1..], ns[1..], k, cs, h);
        CompareIsDenote(ms[0].value, ns[0].value, cs);
        LeftReady(ms[0].value, ns[0].value, cs);
        LeftLower(ms[0].value, ns[0].value, cs);
        var l := Left(ms[0].value, ns[0].value, cs);
        GenerateDenotes(l.0, l.1, false);
        GenerateNothing(Denote(ms[0].value, true), Denote(ns[0].value, true));
      }
    }
  }

  /** The generated members keep ascending, lower-case keys. */
  lemma {:induction false} GenerateMembersOrdered(ms: seq<Member>, ns: seq<Member>, cs: bool, h: nat)
    requires LowerMembers(ms, h) && ReadyMembers(ms) && ReadyMembers(ns) && Increasing(ms, true) && Increasing(ns, true)
    ensures Ordered(GenerateMembers(ms, ns, cs, h))
    ensures forall key :: Before(key, ms) && Before(key, ns) ==> Before(key, GenerateMembers(ms, ns, cs, h))
    decreases h, 0, |ms| + |ns|
  {
    hide Compare, Fold, Unique, LowerKeys, Plain;
    if ms != [] || ns != [] {
      var diff := MergeOrder(ms, ns);
      if ms != [] { BeforeTail(ms); }
      if ns != [] { BeforeTail(ns); }
      if diff < 0 {
        GenerateMembersOrdered(ms[1..], ns, cs, h);
        NullIsOrdered();
        OrderedCons(Member(ms[0].key, Null), GenerateMembers(ms[1..], ns, cs, h));
      } else if diff > 0 {
        if ms != [] { CompareAntisymmetric(ms[0].key, ns[0].key); }
        GenerateMembersOrdered(ms, ns[1..], cs, h);
        OrderedCons(ns[0], GenerateMembers(ms, ns[1..], cs, h));
      } else {
        CompareEqual(ms[0].key, ns[0].key);
        GenerateMembersOrdered(ms[1..], ns[1..], cs, h);
        LeftReady(ms[0].value, ns[0].value, cs);
        LeftLower(ms[0].value, ns[0].value, cs);
        var l := Left(ms[0].value, ns[0].value, cs);
        GenerateDenotes(l.0, l.1, false);
        var g, rest := GenerateMerge(l.0, l.1, false), GenerateMembers(ms[1..], ns[1..], cs, h);
        if g.Some? { OrderedCons(Member(ns[0].key, g.value), rest); }
        forall key | Before(key, ms) && Before(key, ns) ensures Before(key, rest) {
          BeforeAbsent(key, ms);
          BeforeAbsent(key, ns);
          if |ms| > 1 { assert Compare(key, ms[1].key) < 0; }
          if |ns| > 1 { assert Compare(key, ns[1].key) < 0; }
        }
      }
    }
  }

  /** Ascending lower-case keys, over values with lower-case unique keys. */
  ghost predicate Ordered(ps: seq<Member>) {
    && Increasing(ps, true)
    && forall i :: 0 <= i < |ps| ==> Fold(ps[i].key) == ps[i].key && LowerKeys(ps[i].value) && Unique(ps[i].value, true)
  }

  lemma NullIsOrdered()
    ensures LowerKeys(Null) && Unique(Null, true)
  {
  }

  lemma OrderedCons(m: Member, ps: seq<Member>)
    requires Ordered(ps) && Before(m.key, ps)
    requires Fold(m.key) == m.key && LowerKeys(m.value) && Unique(m.value, true)
    ensures Ordered([m] + ps)
  {
    hide Compare, Fold, Unique, LowerKeys;
    BeforeAbsent(m.key, ps);
  }

  lemma OrderedDistinct(ps: seq<Member>)
    requires Ordered(ps)
    ensures Distinct(ps, true) && LowerKeys(Object(ps)) && Unique(Object(ps), true)
  {
    forall i, j | 0 <= i < j < |ps| ensures !KeyEq(ps[i].key, ps[j].key, true) {
      assert Compare(Key(ps[i].key, true), Key(ps[j].key, true)) < 0;
      CompareEqual(ps[i].key, ps[j].key);
    }
  }

  /** A generated patch stands for what is generated on maps, and keeps lower-case unique keys. */
  lemma {:induction false} GenerateDenotes(from: Json, to: Json, cs: bool)
    requires Ready(from) && Ready(to)
    ensures var g := GenerateMerge(from, to, cs);
            && DenoteOption(g, true) == GenerateDoc(Denote(from, true), Denote(to, true))
            && (g.Some? ==> LowerKeys(g.value) && Unique(g.value, true))
    decreases Height(from), 1, 0
  {
    hide DenoteMembers, KeyAt, GenerateMembers, Key, Height, GenerateMap;
    if from.Object? && to.Object? {
      var ms, ns := SortMembers(from.members, cs), SortMembers(to.members, cs);
      SortedLower(from.members, cs, Height(from));
      SortReady(from.members, cs);
      SortReady(to.members, cs);
      var ps := GenerateMembers(ms, ns, cs, Height(from));
      GenerateMembersOrdered(ms, ns, cs, Height(from));
      OrderedDistinct(ps);
      var F, T := Denote(from, true), Denote(to, true);
      forall k ensures MapAt(DenoteMembers(ps, true), k) == MapAt(GenerateMap(F, T), k) {
        GenerateMembersAt(ms, ns, k, cs, Height(from));
        KeyAtPermutation(from.members, ms, k);
        KeyAtPermutation(to.members, ns, k);
        DenoteAt(ps, k, true);
        DenoteAt(from.members, k, true);
        DenoteAt(to.members, k, true);
        GenerateDocAt(F, T, k);
      }
      SameMaps(DenoteMembers(ps, true), GenerateMap(F, T));
      EmptyDenotes(ps);
    }
  }

  lemma EmptyDenotes(ps: seq<Member>)
    ensures DenoteMembers(ps, true) == map[] <==> ps == []
  {
    if ps != [] { assert Key(ps[0].key, true) in DenoteMembers(ps, true); }
  }

  /** Generation gives nothing exactly for two equal objects; otherwise merging what it gives into the old
      document leads to the new one exactly when the new one is expressible. */
  lemma LowerCaseRoundTrip(from: Json, to: Json, cs: bool)
    requires Ready(from) && Ready(to)
    ensures var g := GenerateMerge(from, to, cs);
            && (g.None? <==> from.Object? && to.Object? && Same(from, to, cs))
            && (g.Some? ==>
                  (Same(MergePatch(Some(from), g.value, cs), to, cs)
                   <==> Expressible(Denote(from, true), Denote(to, true))))
  {
    var g, F, T := GenerateMerge(from, to, cs), Denote(from, true), Denote(to, true);
    LowerUnique(from, cs);
    LowerUnique(to, cs);
    DenoteLower(from, cs);
    DenoteLower(to, cs);
    SameIsDenote(from, to, cs);
    GenerateDenotes(from, to, cs);
    GenerateNothing(F, T);
    if g.Some? {
      LowerUnique(g.value, cs);
      DenoteLower(g.value, cs);
      MergeUnique(Some(from), g.value, cs);
      MergeIsRfc(Some(from), g.value, cs);
      SameIsDenote(MergePatch(Some(from), g.value, cs), to, cs);
      GeneratedMergeIff(F, T);
    }
  }

  /** With an upper-case key the walk by `strcmp` through lists sorted without regard to case goes out of
      step: it removes a key that both documents have. */
  lemma MergeFailsForUpperCase()
    ensures var from := Object([Member("a", True), Member("B", True)]);
            var to := Object([Member("B", True)]);
            var g := GenerateMerge(from, to, false);
            && g == Some(Object([Member("B", True), Member("a", Null), Member("B", Null)]))
            && MergePatch(Some(from), g.value, false) == Object([])
            && !Same(Object([]), to, false)
  {
    hide MergeMembers, Same;
    GeneratesForUpperCase();
    MergesToNothing();
    EmptyDiffers(Member("B", True));
  }

  lemma EmptyDiffers(m: Member)
    ensures !Same(Object([]), Object([m]), false)
  {
    assert !Has([], m.key, false);
    assert [m][0] == m;
  }

  lemma GeneratesForUpperCase()
    ensures GenerateMerge(Object([Member("a", True), Member("B", True)]), Object([Member("B", True)]), false)
            == Some(Object([Member("B", True), Member("a", Null), Member("B", Null)]))
  {
    hide SortMembers, GenerateMembers, Height;
    var from := Object([Member("a", True), Member("B", True)]);
    SortUpperCase();
    SortedLower(from.members, false, Height(from));
    GeneratesTwice(Height(from));
  }

  lemma SortUpperCase()
    ensures SortMembers([Member("a", True), Member("B", True)], false) == [Member("a", True), Member("B", True)]
    ensures SortMembers([Member("B", True)], false) == [Member("B", True)]
  {
    var ms := [Member("a", True), Member("B", True)];
    assert Fold("B") == "b" && Fold("a") == "a";
    assert Less(ms[0], ms[1], MemberKey(false));
    assert Ascending(ms, MemberKey(false));
  }

  lemma GeneratesTwice(h: nat)
    requires LowerMembers([Member("a", True), Member("B", True)], h)
    ensures GenerateMembers([Member("a", True), Member("B", True)], [Member("B", True)], false, h)
            == [Member("B", True), Member("a", Null), Member("B", Null)]
  {
    var a, b := Member("a", True), Member("B", True);
    assert [b][1..] == [] && [a, b][1..] == [b];
    assert Compare("a", "B") == 1;
    assert GenerateMembers([b], [], false, h) == [Member("B", Null)];
    assert GenerateMembers([a, b], [], false, h) == [Member("a", Null), Member("B", Null)];
  }

  lemma MergesToNothing()
    ensures MergeMembers([Member("a", True), Member("B", True)], [Member("B", True), Member("a", Null), Member("B", Null)], false) == []
  {
    var a, b := Member("a", True), Member("B", True);
    var ps := [b, Member("a", Null), Member("B", Null)];
    assert Fold("B") == "b" && Fold("a") == "a";
    FindIs([a, b], "B", false, 1);
    assert WithoutKey([a, b], "B", false) == [a];
    assert [a] + [Member("B", MergePatch(ValueOf([a, b], "B", false), True, false))] == [a, b];
    FindIs([a, b], "a", false, 0);
    assert WithoutKey([a, b], "a", false) == [b];
    FindIs([b], "B", false, 0);
    assert WithoutKey([b], "B", false) == [];
    assert ps[1..] == [Member("a", Null), Member("B", Null)] && ps[1..][1..] == [Member("B", Null)] && ps[1..][1..][1..] == [];
    assert MergeMembers([b], ps[1..][1..], false) == [];
    assert MergeMembers([a, b], ps[1..], false) == [];
  }
}

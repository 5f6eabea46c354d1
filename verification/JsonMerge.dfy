/** JSON Merge Patch (RFC 7396): `merge_patch` computes the map semantics of section 2, and
    what a generated merge patch can and cannot express. */
module JsonMerge {
  import opened CStrings
  import opened MergeSort
  import opened JsonTree
  import opened JsonPatch
  import opened Options
  import opened Sequences

  // ----- documents as finite maps -----

  datatype Doc = Leaf(json: Json) | List(items: seq<Doc>) | Map(members: map<string, Doc>)

  const NULL: Doc := Leaf(Null)

  /** The document a tree stands for: member order is gone, and keys are folded unless `cs`. */
  function Denote(t: Json, cs: bool): Doc {
    match t
    case Array(xs) => List(DenoteItems(xs, cs))
    case Object(ms) => Map(DenoteMembers(ms, cs))
    case _ => Leaf(t)
  }

  function DenoteItems(xs: seq<Json>, cs: bool): (r: seq<Doc>)
    ensures |r| == |xs| && forall i :: 0 <= i < |xs| ==> r[i] == Denote(xs[i], cs)
  {
    if xs == [] then [] else [Denote(xs[0], cs)] + DenoteItems(xs[1..], cs)
  }

  function DenoteMembers(ms: seq<Member>, cs: bool): map<string, Doc> {
    if ms == [] then map[]
    else DenoteMembers(ms[1..], cs)[Key(ms[0].key, cs) := Denote(ms[0].value, cs)]
  }

  function MapAt(m: map<string, Doc>, k: string): Option<Doc> {
    if k in m then Some(m[k]) else None
  }

  lemma SameMaps(m: map<string, Doc>, n: map<string, Doc>)
    requires forall k :: MapAt(m, k) == MapAt(n, k)
    ensures m == n
  {
    forall k ensures (k in m <==> k in n) && (k in m ==> m[k] == n[k]) {
      assert MapAt(m, k) == MapAt(n, k);
    }
  }

  /** What the first member whose (folded) key is `k` stands for. */
  function KeyAt(ms: seq<Member>, k: string, cs: bool): Option<Doc> {
    if ms == [] then None
    else if Key(ms[0].key, cs) == k then Some(Denote(ms[0].value, cs))
    else KeyAt(ms[1..], k, cs)
  }

  lemma {:induction false} DenoteAt(ms: seq<Member>, k: string, cs: bool)
    ensures MapAt(DenoteMembers(ms, cs), k) == KeyAt(ms, k, cs)
  {
    if ms != [] { DenoteAt(ms[1..], k, cs); }
  }

  lemma {:induction false} KeyAtFind(ms: seq<Member>, key: string, cs: bool)
    ensures KeyAt(ms, Key(key, cs), cs)
            == if Has(ms, key, cs) then Some(Denote(ms[Find(ms, key, cs)].value, cs)) else None
  {
    if ms != [] { KeyAtFind(ms[1..], key, cs); }
  }

  // ----- section 2 of RFC 7396 -----

  /** `MergePatch(Target, Patch)`: a patch that is an object removes the members it holds a null for and
      merges its other members into the target, which counts as empty unless it is an object. */
  function Rfc(target: Option<Doc>, patch: Doc): Doc
    decreases patch
  {
    if !patch.Map? then patch
    else
      var T := if target.Some? && target.value.Map? then target.value.members else map[];
      var P := patch.members;
      Map(map k | k in T.Keys + P.Keys && (k in P ==> P[k] != NULL) ::
        if k in P then Rfc(if k in T then Some(T[k]) else None, P[k]) else T[k])
  }

  // ----- merge_patch -----

  function WithoutKey(ms: seq<Member>, key: string, cs: bool): seq<Member> {
    if Has(ms, key, cs) then RemoveAt(ms, Find(ms, key, cs)) else ms
  }

  function ValueOf(ms: seq<Member>, key: string, cs: bool): Option<Json> {
    if Has(ms, key, cs) then Some(ms[Find(ms, key, cs)].value) else None
  }

  /** `merge_patch`; the target may be a null pointer. */
  function MergePatch(target: Option<Json>, patch: Json, cs: bool): Json
    decreases patch
  {
    if !patch.Object? then patch
    else Object(MergeMembers(if target.Some? && target.value.Object? then target.value.members else [], patch.members, cs))
  }

  /** Its loop: a null member deletes, any other is merged into the member it detaches and goes to the end. */
  function MergeMembers(ms: seq<Member>, ps: seq<Member>, cs: bool): seq<Member>
    decreases ps
  {
    if ps == [] then ms
    else
      var p := ps[0];
      var rest := WithoutKey(ms, p.key, cs);
      MergeMembers(if p.value.Null? then rest
                   else rest + [Member(p.key, MergePatch(ValueOf(ms, p.key, cs), p.value, cs))],
                   ps[1..], cs)
  }

  method MergePatchInto(target0: Option<Json>, patch: Json, cs: bool) returns (target: Json)
    ensures target == MergePatch(target0, patch, cs)
    decreases patch
  {
    if !patch.Object? {
      return patch;
    }
    var members := if target0.Some? && target0.value.Object? then target0.value.members else [];
    ghost var all := MergeMembers(members, patch.members, cs);
    assert patch.members[0..] == patch.members;
    var i := 0;
    while i < |patch.members|
      invariant i <= |patch.members|
      invariant MergeMembers(members, patch.members[i..], cs) == all
    {
      var child := patch.members[i];
      assert patch.members[i..][1..] == patch.members[i + 1..];
      if child.value.Null? {
        members := WithoutKey(members, child.key, cs);
      } else {
        var replacement := MergePatchInto(ValueOf(members, child.key, cs), child.value, cs);
        members := WithoutKey(members, child.key, cs) + [Member(child.key, replacement)];
      }
      i := i + 1;
    }
    return Object(members);
  }

  // ----- merge_patch is the map semantics -----

  lemma {:induction false} KeyAtAbsent(ms: seq<Member>, k: string, cs: bool)
    requires forall i :: 0 <= i < |ms| ==> Key(ms[i].key, cs) != k
    ensures KeyAt(ms, k, cs) == None
  {
    if ms != [] { KeyAtAbsent(ms[1..], k, cs); }
  }

  lemma {:induction false} KeyAtRemoved(ms: seq<Member>, i: nat, k: string, cs: bool)
    requires i < |ms| && Distinct(ms, cs)
    ensures KeyAt(RemoveAt(ms, i), k, cs) == if k == Key(ms[i].key, cs) then None else KeyAt(ms, k, cs)
  {
    hide Key;
    if i == 0 {
      assert RemoveAt(ms, i) == ms[1..];
      if k == Key(ms[0].key, cs) {
        forall j | 0 <= j < |ms[1..]| ensures Key(ms[1..][j].key, cs) != k {
          assert !KeyEq(ms[0].key, ms[j + 1].key, cs);
        }
        KeyAtAbsent(ms[1..], k, cs);
      }
    } else {
      KeyAtRemoved(ms[1..], i - 1, k, cs);
      assert RemoveAt(ms, i) == [ms[0]] + RemoveAt(ms[1..], i - 1);
      assert !KeyEq(ms[0].key, ms[i].key, cs);
    }
  }

  lemma {:induction false} KeyAtAppended(ms: seq<Member>, m: Member, k: string, cs: bool)
    ensures KeyAt(ms + [m], k, cs) ==
            if KeyAt(ms, k, cs).Some? then KeyAt(ms, k, cs)
            else if Key(m.key, cs) == k then Some(Denote(m.value, cs))
            else None
  {
    hide Key;
    if ms == [] {
      assert ms + [m] == [m];
    } else {
      assert (ms + [m])[1..] == ms[1..] + [m];
      KeyAtAppended(ms[1..], m, k, cs);
    }
  }

  lemma KeyAtWithout(ms: seq<Member>, key: string, k: string, cs: bool)
    requires Distinct(ms, cs)
    ensures KeyAt(WithoutKey(ms, key, cs), k, cs) == if k == Key(key, cs) then None else KeyAt(ms, k, cs)
  {
    hide Find, Key, RemoveAt;
    if Has(ms, key, cs) {
      KeyAtRemoved(ms, Find(ms, key, cs), k, cs);
    } else {
      KeyAtFind(ms, key, cs);
    }
  }

  lemma WithoutKeyDistinct(ms: seq<Member>, key: string, cs: bool)
    requires Distinct(ms, cs)
    ensures var r := WithoutKey(ms, key, cs);
            && Distinct(r, cs) && !Has(r, key, cs) && forall j :: 0 <= j < |r| ==> r[j] in ms
  {
    hide Find, Key;
    var r := WithoutKey(ms, key, cs);
    if Has(ms, key, cs) {
      var i := Find(ms, key, cs);
      forall j | 0 <= j < |r| ensures r[j] in ms && !KeyEq(r[j].key, key, cs) {
        var j' := if j < i then j else j + 1;
        assert r[j] == ms[j'] && !KeyEq(ms[j'].key, ms[i].key, cs);
      }
    }
  }

  lemma AppendDistinct(ms: seq<Member>, m: Member, cs: bool)
    requires Distinct(ms, cs) && !Has(ms, m.key, cs)
    ensures Distinct(ms + [m], cs)
  {
    hide Key;
  }

  ghost predicate UniqueValues(ms: seq<Member>, cs: bool) {
    Distinct(ms, cs) && forall i :: 0 <= i < |ms| ==> Unique(ms[i].value, cs)
  }

  /** Merging keeps the keys of every object distinct. */
  lemma {:induction false} MergeUnique(target: Option<Json>, patch: Json, cs: bool)
    requires (target.Some? ==> Unique(target.value, cs)) && Unique(patch, cs)
    ensures Unique(MergePatch(target, patch, cs), cs)
    decreases patch
  {
    if patch.Object? {
      MergeMembersUnique(if target.Some? && target.value.Object? then target.value.members else [], patch.members, cs);
    }
  }

  lemma {:induction false} MergeMembersUnique(ms: seq<Member>, ps: seq<Member>, cs: bool)
    requires UniqueValues(ms, cs) && UniqueValues(ps, cs)
    ensures UniqueValues(MergeMembers(ms, ps, cs), cs)
    decreases ps
  {
    if ps != [] {
      var next := MergeOne(ms, ps, cs);
      MergeMembersUnique(next, ps[1..], cs);
    }
  }

  /** The members after the first round of the loop. */
  lemma {:induction false} MergeOne(ms: seq<Member>, ps: seq<Member>, cs: bool) returns (next: seq<Member>)
    requires UniqueValues(ms, cs) && UniqueValues(ps, cs) && ps != []
    ensures MergeMembers(ms, ps, cs) == MergeMembers(next, ps[1..], cs) && UniqueValues(next, cs)
    ensures next == if ps[0].value.Null? then WithoutKey(ms, ps[0].key, cs)
                    else WithoutKey(ms, ps[0].key, cs)
                         + [Member(ps[0].key, MergePatch(ValueOf(ms, ps[0].key, cs), ps[0].value, cs))]
    decreases ps, 0
  {
    var p, rest := ps[0], WithoutKey(ms, ps[0].key, cs);
    WithoutKeyDistinct(ms, p.key, cs);
    next := rest;
    if !p.value.Null? {
      var m := Member(p.key, MergePatch(ValueOf(ms, p.key, cs), p.value, cs));
      MergeUnique(ValueOf(ms, p.key, cs), p.value, cs);
      AppendDistinct(rest, m, cs);
      next := rest + [m];
    }
  }

  ghost function DenoteOption(t: Option<Json>, cs: bool): Option<Doc> {
    if t.Some? then Some(Denote(t.value, cs)) else None
  }

  /** What section 2 gives for one key: from the target's value and the patch's. */
  ghost function RfcValue(t: Option<Doc>, p: Option<Doc>): Option<Doc> {
    if p.None? then t else if p.value == NULL then None else Some(Rfc(t, p.value))
  }

  lemma RfcAt(target: Option<Doc>, patch: Doc, k: string)
    requires patch.Map?
    ensures var T := if target.Some? && target.value.Map? then target.value.members else map[];
            Rfc(target, patch).Map? && MapAt(Rfc(target, patch).members, k) == RfcValue(MapAt(T, k), MapAt(patch.members, k))
  {
  }

  /** `merge_patch` computes the map semantics of RFC 7396. */
  lemma {:induction false} MergeIsRfc(target: Option<Json>, patch: Json, cs: bool)
    requires (target.Some? ==> Unique(target.value, cs)) && Unique(patch, cs)
    ensures Denote(MergePatch(target, patch, cs), cs) == Rfc(DenoteOption(target, cs), Denote(patch, cs))
    decreases patch
  {
    if patch.Object? {
      var ms := if target.Some? && target.value.Object? then target.value.members else [];
      var r := MergeMembers(ms, patch.members, cs);
      var expected := Rfc(DenoteOption(target, cs), Denote(patch, cs)).members;
      forall k ensures MapAt(DenoteMembers(r, cs), k) == MapAt(expected, k) {
        MergeMembersAt(ms, patch.members, k, cs);
        DenoteAt(r, k, cs);
        DenoteAt(ms, k, cs);
        DenoteAt(patch.members, k, cs);
        RfcAt(DenoteOption(target, cs), Denote(patch, cs), k);
      }
      SameMaps(DenoteMembers(r, cs), expected);
    }
  }

  lemma {:induction false} MergeMembersAt(ms: seq<Member>, ps: seq<Member>, k: string, cs: bool)
    requires UniqueValues(ms, cs) && UniqueValues(ps, cs)
    ensures KeyAt(MergeMembers(ms, ps, cs), k, cs) == RfcValue(KeyAt(ms, k, cs), KeyAt(ps, k, cs))
    decreases ps
  {
    hide Key, WithoutKey, Find;
    if ps != [] {
      var p := ps[0];
      var rest := WithoutKey(ms, p.key, cs);
      var next := MergeOne(ms, ps, cs);
      MergeMembersAt(next, ps[1..], k, cs);
      KeyAtWithout(ms, p.key, k, cs);
      if Key(p.key, cs) == k {
        forall j | 0 <= j < |ps[1..]| ensures Key(ps[1..][j].key, cs) != k { assert !KeyEq(ps[0].key, ps[j + 1].key, cs); }
        KeyAtAbsent(ps[1..], k, cs);
      }
      if !p.value.Null? {
        var prior := ValueOf(ms, p.key, cs);
        MergeIsRfc(prior, p.value, cs) by { ValueOfUnique(ms, p.key, cs); }
        KeyAtFind(ms, p.key, cs);
        KeyAtAppended(rest, Member(p.key, MergePatch(prior, p.value, cs)), k, cs);
      }
    }
  }

  lemma ValueOfUnique(ms: seq<Member>, key: string, cs: bool)
    requires UniqueValues(ms, cs)
    ensures ValueOf(ms, key, cs).Some? ==> Unique(ValueOf(ms, key, cs).value, cs)
  {
  }
}

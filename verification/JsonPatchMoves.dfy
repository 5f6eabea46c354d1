/** The operations that generated patches do not use: test, copy and move (sections 4.4 to 4.6 of RFC 6902). */
module JsonPatchMoves {

  import opened CStrings
  import opened JsonPatch
  import opened JsonPatchOutcome
  import opened JsonPatchRoundTrip
  import opened JsonPatchTilde
  import opened JsonPaths
  import opened JsonPointer
  import opened JsonSame
  import opened JsonTree
  import opened Options
  import opened Sequences

  // ----- test -----

  lemma {:induction false} PartOf(t: Json, path: Path, cs: bool)
    requires Unique(t, cs) && Plain(t) && ValidPath(t, path)
    ensures Unique(At(t, path), cs) && Plain(At(t, path))
    decreases |path|
  {
    if path != [] { PartOf(Child(t, path[0]), path[1..], cs); }
  }

  /** A tree is the same with one of its nodes exchanged for the same. */
  lemma {:induction false} PutSame(t: Json, path: Path, v: Json, cs: bool)
    requires Unique(t, cs) && ValidPath(t, path) && Same(v, At(t, path), cs)
    ensures Same(Put(t, path, v), t, cs)
    decreases |path|
  {
    if path != [] {
      var i := path[0];
      PutSame(Child(t, i), path[1..], v, cs);
      WithChildIsSame(t, i, Put(Child(t, i), path[1..], v), cs);
    }
  }

  lemma WithChildIsSame(t: Json, i: nat, v: Json, cs: bool)
    requires Unique(t, cs) && i < ChildCount(t) && Same(v, Child(t, i), cs)
    ensures Same(WithChild(t, i, v), t, cs)
  {
    if t.Array? {
      forall j | 0 <= j < |t.items| ensures Same(WithChild(t, i, v).items[j], t.items[j], cs) { SameReflexive(t.items[j], cs); }
    } else {
      var ms := t.members;
      MembersSame(ms, cs);
      assert SameInOrder(ms[i := Member(ms[i].key, v)], ms, cs);
      SameAfterSorting(ms[i := Member(ms[i].key, v)], ms, ms, cs);
    }
  }

  /** A test succeeds exactly when there is a node that equals the value up to member order, and leaves the document
      the same. */
  lemma TestDecides(t: Json, path: string, v: Json, cs: bool)
    requires Unique(t, cs) && Plain(t) && Unique(v, cs) && Plain(v)
    ensures var (status, r) := Perform(t, Test, path, Some(v), None, cs);
      && (status == 0 <==> Lookup(t, path, cs).Some? && Same(Lookup(t, path, cs).value, v, cs))
      && Same(r, t, cs)
  {
    hide Same, Unique, Plain, CompareJson, Left, Resolve, Put;
    var at := Resolve(t, path, cs);
    if at.None? {
      SameReflexive(t, cs);
    } else {
      var item := At(t, at.value);
      PartOf(t, at.value, cs);
      CompareDecidesSame(item, v, cs);
      LeftSame(item, v, cs, cs);
      PutSame(t, at.value, Left(item, v, cs).0, cs);
    }
  }

  // ----- copy and move -----

  /** Section 4.5 has a copy do what adding the value would: so it is, but not to the root. */
  lemma CopyIsAddIff(t: Json, from: string, path: string, cs: bool)
    requires Lookup(t, from, cs).Some?
    ensures Perform(t, Copy, path, None, Some(String(from)), cs) == Perform(t, Add, path, Lookup(t, from, cs), None, cs)
      <==> path != ""
  {
    hide Lookup, AddAt;
  }

  /** Section 4.4 has a move do what removing and then adding would: so it is, but a value that is moved to the root
      is lost. */
  lemma MoveIsRemoveAddIff(t: Json, from: string, path: string, cs: bool)
    requires DetachPath(t, from, cs).Some?
    ensures var (item, rest) := DetachPath(t, from, cs).value;
      && Perform(t, Remove, from, None, None, cs) == (0, rest)
      && (Perform(t, Move, path, None, Some(String(from)), cs) == Perform(rest, Add, path, Some(item), None, cs) <==> path != "")
  {
    hide DetachAt, AddAt;
  }

  lemma MemberFound(ms: seq<Member>, key: string, cs: bool)
    requires PlainKey(key) && Has(ms, key, cs)
    ensures Resolve(Object(ms), "/" + key, cs) == Some([Find(ms, key, cs)])
    ensures Lookup(Object(ms), "/" + key, cs) == Some(ms[Find(ms, key, cs)].value)
  {
    hide Find, FindToken, PointerMatches;
    var t, i := Object(ms), Find(ms, key, cs);
    assert key + "" == key;
    MemberSelected(ms, key, cs);
    SkipTokenIs(key, "");
    assert [i][1..] == [] && Resolve(Child(t, i), "", cs) == Some([]);
    ResolveStep(t, key, [i], cs);
    assert At(t, [i]) == ms[i].value;
  }

  /** A member copied under another key is found there, and a test says so. */
  lemma CopyThenTest(ms: seq<Member>, a: string, b: string, cs: bool)
    requires Unique(Object(ms), cs) && Plain(Object(ms)) && PlainKey(a) && PlainKey(b) && Has(ms, a, cs)
    ensures var v := ms[Find(ms, a, cs)].value;
      var (status, r) := Perform(Object(ms), Copy, "/" + b, None, Some(String("/" + a)), cs);
      && status == 0 && r == Object(WithMember(ms, b, v, cs))
      && Perform(r, Test, "/" + b, Some(v), None, cs).0 == 0
  {
    hide Find, Resolve, Lookup, AddPath, WithMember, Same, CompareJson, Left, Put, Distinct, LandsOn;
    var v := ms[Find(ms, a, cs)].value;
    MemberFound(ms, a, cs);
    FreeToken(b, '\0');
    PlainLandsOn(b);
    AddOutcome(ms, b, v, '\0', cs);
    MemberAdded(ms, b, v, cs);
    var ms' := WithMember(ms, b, v, cs);
    MemberFound(ms', b, cs);
    TestDecides(Object(ms'), "/" + b, v, cs);
    SameReflexive(v, cs);
  }

  lemma MemberAdded(ms: seq<Member>, key: string, v: Json, cs: bool)
    requires Unique(Object(ms), cs) && Plain(Object(ms)) && Unique(v, cs) && Plain(v)
    ensures var r := WithMember(ms, key, v, cs);
      && Unique(Object(r), cs) && Plain(Object(r)) && Has(r, key, cs) && r[Find(r, key, cs)] == Member(key, v)
  {
    hide Find, Key, KeyEq, Distinct, Unique, Plain;
    var i := Find(ms, key, cs);
    assert Distinct(ms, cs) && forall k :: 0 <= k < |ms| ==> Unique(ms[k].value, cs) && Plain(ms[k].value) by { Parts(ms, cs); }
    var rest := if i < |ms| then RemoveAt(ms, i) else ms;
    if i < |ms| { KeyGone(ms, i, key, cs); }
    DistinctAppended(rest, Member(key, v), cs);
    FindAppended(rest, Member(key, v), key, cs);
    KeyEqReflexive(key, cs);
    Whole(rest + [Member(key, v)], cs);
  }

  lemma Parts(ms: seq<Member>, cs: bool)
    requires Unique(Object(ms), cs) && Plain(Object(ms))
    ensures Distinct(ms, cs) && forall k :: 0 <= k < |ms| ==> Unique(ms[k].value, cs) && Plain(ms[k].value)
  {
  }

  lemma Whole(ms: seq<Member>, cs: bool)
    requires Distinct(ms, cs) && forall k :: 0 <= k < |ms| ==> Unique(ms[k].value, cs) && Plain(ms[k].value)
    ensures Unique(Object(ms), cs) && Plain(Object(ms))
  {
  }

  /** Without its member a key is gone. */
  lemma KeyGone(ms: seq<Member>, i: nat, key: string, cs: bool)
    requires Distinct(ms, cs) && i < |ms| && KeyEq(ms[i].key, key, cs)
    ensures Distinct(RemoveAt(ms, i), cs) && !Has(RemoveAt(ms, i), key, cs)
  {
    hide Find, KeyEq, Distinct;
    DistinctRemoved(ms, i, cs);
    var rest := RemoveAt(ms, i);
    forall j | 0 <= j < |rest| ensures !KeyEq(rest[j].key, key, cs) { DifferentFrom(ms, i, if j < i then j else j + 1, key, cs); }
    NotFound(rest, key, cs);
  }

  lemma MoveOutcome(ms: seq<Member>, a: string, b: string, cs: bool)
    requires PlainKey(a) && PlainKey(b) && Has(ms, a, false)
    ensures var i := Find(ms, a, false);
      Perform(Object(ms), Move, "/" + b, None, Some(String("/" + a)), cs) == (0, Object(WithMember(RemoveAt(ms, i), b, ms[i].value, cs)))
  {
    hide Find, DetachPath, AddPath, WithMember, LandsOn;
    var i := Find(ms, a, false);
    FreeToken(a, '\0');
    FreeToken(b, '\0');
    PlainLandsOn(b);
    RemoveMember(ms, a, '\0', cs);
    AddOutcome(RemoveAt(ms, i), b, ms[i].value, '\0', cs);
  }

  /** Moving a member to a new key and back gives the same document if and only if the member that moves has exactly
      the key that was asked for: it is taken without regard to letter case. */
  lemma MoveThereAndBackIff(ms: seq<Member>, a: string, b: string, cs: bool)
    requires Unique(Object(ms), cs) && PlainKey(a) && PlainKey(b) && Has(ms, a, false)
    requires !Has(RemoveAt(ms, Find(ms, a, false)), b, false)
    ensures var (s1, there) := Perform(Object(ms), Move, "/" + b, None, Some(String("/" + a)), cs);
      var (s2, back) := Perform(there, Move, "/" + a, None, Some(String("/" + b)), cs);
      && s1 == s2 == 0
      && (Same(back, Object(ms), cs) <==> KeyEq(ms[Find(ms, a, false)].key, a, cs))
  {
    hide Find, Key, Perform, WithMember, Same;
    var i := Find(ms, a, false);
    var rest, v := RemoveAt(ms, i), ms[i].value;
    MoveOutcome(ms, a, b, cs);
    NewKey(rest, b, v, cs);
    MoveOutcome(rest + [Member(b, v)], b, a, cs);
    assert RemoveAt(rest + [Member(b, v)], |rest|) == rest;
    BackAgain(ms, i, a, cs);
  }

  lemma NewKey(rest: seq<Member>, b: string, v: Json, cs: bool)
    requires !Has(rest, b, false)
    ensures WithMember(rest, b, v, cs) == rest + [Member(b, v)] && Find(rest + [Member(b, v)], b, false) == |rest|
  {
    hide Find;
    FindAppended(rest, Member(b, v), b, false);
    forall j | 0 <= j < |rest| ensures !KeyEq(rest[j].key, b, cs) { NotFoundAt(rest, b, false, j); }
    NotFound(rest, b, cs);
  }

  /** A member taken out and put back under a key that is the same but for letter case. */
  lemma BackAgain(ms: seq<Member>, i: nat, a: string, cs: bool)
    requires Unique(Object(ms), cs) && i < |ms| && KeyEq(ms[i].key, a, false)
    ensures Same(Object(WithMember(RemoveAt(ms, i), a, ms[i].value, cs)), Object(ms), cs) <==> KeyEq(ms[i].key, a, cs)
  {
    hide Find, Key, Same;
    var rest := RemoveAt(ms, i);
    if KeyEq(ms[i].key, a, cs) {
      KeyGone(ms, i, a, cs);
      PutBack(ms, i, a, cs);
    } else {
      KeyEqReflexive(ms[i].key, cs);
      KeyGone(ms, i, ms[i].key, cs);
      var k, x := Find(rest, a, cs), Member(a, ms[i].value);
      var front := if k < |rest| then RemoveAt(rest, k) else rest;
      forall j | 0 <= j < |front + [x]| ensures !KeyEq((front + [x])[j].key, ms[i].key, cs) {
        if j < |front| { NotFoundAt(rest, ms[i].key, cs, if j < k then j else j + 1); }
      }
      NotFound(front + [x], ms[i].key, cs);
      NotSame(front + [x], ms, i, cs);
    }
  }

  lemma NotSame(r: seq<Member>, ms: seq<Member>, i: nat, cs: bool)
    requires i < |ms| && !Has(r, ms[i].key, cs)
    ensures !Same(Object(r), Object(ms), cs)
  {
  }

  lemma PutBack(ms: seq<Member>, i: nat, a: string, cs: bool)
    requires Unique(Object(ms), cs) && i < |ms| && KeyEq(ms[i].key, a, cs) && !Has(RemoveAt(ms, i), a, cs)
    ensures Same(Object(RemoveAt(ms, i) + [Member(a, ms[i].value)]), Object(ms), cs)
  {
    hide Find, Key, KeyEq, Same, Distinct;
    var r := RemoveAt(ms, i) + [Member(a, ms[i].value)];
    assert Distinct(ms, cs) && forall k :: 0 <= k < |ms| ==> Unique(ms[k].value, cs) by { Parted(ms, cs); }
    DistinctRemoved(ms, i, cs);
    DistinctAppended(RemoveAt(ms, i), Member(a, ms[i].value), cs);
    forall j | 0 <= j < |r| ensures Has(ms, r[j].key, cs) && Same(r[j].value, ms[Find(ms, r[j].key, cs)].value, cs) {
      var k := if j == |ms| - 1 then i else if j < i then j else j + 1;
      KeyEqReflexive(ms[k].key, cs);
      FoundThere(ms, r, j, k, cs);
      SameReflexive(ms[k].value, cs);
    }
    forall k | 0 <= k < |ms| ensures Has(r, ms[k].key, cs) {
      var j := if k == i then |ms| - 1 else if k < i then k else k - 1;
      KeyEqReflexive(ms[k].key, cs);
      KeyEqSymmetric(ms[i].key, a, cs);
      FoundThere(r, ms, k, j, cs);
    }
    SameMembersIs(r, ms, cs);
    ObjectsSame(r, ms, cs);
  }

  lemma Parted(ms: seq<Member>, cs: bool)
    requires Unique(Object(ms), cs)
    ensures Distinct(ms, cs) && forall k :: 0 <= k < |ms| ==> Unique(ms[k].value, cs)
  {
  }

  lemma FoundThere(ms: seq<Member>, r: seq<Member>, j: nat, k: nat, cs: bool)
    requires Distinct(ms, cs) && j < |r| && k < |ms| && KeyEq(ms[k].key, r[j].key, cs)
    ensures Has(ms, r[j].key, cs) && Find(ms, r[j].key, cs) == k
  {
    FindDistinct(ms, r[j].key, cs, k);
  }

  lemma SameMembersIs(ms: seq<Member>, ns: seq<Member>, cs: bool)
    requires forall i :: 0 <= i < |ms| ==> Has(ns, ms[i].key, cs) && Same(ms[i].value, ns[Find(ns, ms[i].key, cs)].value, cs)
    requires forall j :: 0 <= j < |ns| ==> Has(ms, ns[j].key, cs)
    ensures SameMembers(ms, ns, cs)
  {
  }
}

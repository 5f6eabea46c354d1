/** What generated patches leave of an object in any case, and that a member that is wrong once stays wrong. */
module JsonPatchOutcome {

  import opened CStrings
  import opened JsonPatch
  import opened JsonPatchBelow
  import opened JsonPatchRoundTrip
  import opened JsonPatchTilde
  import opened JsonPaths
  import opened JsonPointer
  import opened JsonTree
  import opened MergeSort
  import opened Options
  import opened Sequences

  // ----- one patch for a member -----

  /** The object is the root of the tree, and the path has the one token. */
  lemma PathOfKey(cur: seq<Member>, key: string, u: char, cs: bool)
    requires SlashFree(key)
    ensures var path := "/" + EncodeKey(key, u);
      var i := Find(cur, LandsOn(key), false);
      && path != "" && EncodeKey(key, u) == Escaped(key)
      && DetachPath(Object(cur), path, cs) == (if i < |cur| then Some((cur[i].value, Object(RemoveAt(cur, i)))) else None)
  {
    hide DecodeToken, SplitPath, EncodeKey, Resolve, Find, Escaped;
    LandsOnIff(key, u);
    SplitToken(Escaped(key));
    AtTop(Object(cur), cs);
    var i := Find(cur, LandsOn(key), false);
    AtRoot(Object(cur), if i < |cur| then Object(RemoveAt(cur, i)) else Object(cur));
  }

  lemma AddedAtKey(cur: seq<Member>, key: string, v: Json, u: char, cs: bool)
    requires SlashFree(key)
    ensures AddPath(Object(cur), "/" + EncodeKey(key, u), v, cs) == (0, Object(WithMember(cur, LandsOn(key), v, cs)))
  {
    hide DecodeToken, SplitPath, EncodeKey, Resolve, WithMember, Escaped;
    LandsOnIff(key, u);
    SplitToken(Escaped(key));
    AtTop(Object(cur), cs);
    AtRoot(Object(cur), Object(WithMember(cur, LandsOn(key), v, cs)));
  }

  lemma AtTop(t: Json, cs: bool)
    ensures Resolve(t, "", cs) == Some([])
  {
  }

  lemma RemoveOutcome(cur: seq<Member>, key: string, u: char, cs: bool)
    requires SlashFree(key)
    ensures var i := Find(cur, LandsOn(key), false);
      Perform(Object(cur), Remove, "/" + EncodeKey(key, u), None, None, cs)
      == if i < |cur| then (0, Object(RemoveAt(cur, i))) else (13, Object(cur))
  {
    hide DetachPath, EncodeKey, Find, LandsOn, AddPath;
    PathOfKey(cur, key, u, cs);
  }

  lemma AddOutcome(cur: seq<Member>, key: string, v: Json, u: char, cs: bool)
    requires SlashFree(key)
    ensures AddPath(Object(cur), "/" + EncodeKey(key, u), v, cs) == (0, Object(WithMember(cur, LandsOn(key), v, cs)))
    ensures Perform(Object(cur), Add, "/" + EncodeKey(key, u), Some(v), None, cs) == (0, Object(WithMember(cur, LandsOn(key), v, cs)))
  {
    hide DetachPath, EncodeKey, Find, LandsOn, AddPath, WithMember;
    PathOfKey(cur, key, u, cs);
    AddedAtKey(cur, key, v, u, cs);
  }

  lemma ReplaceOutcome(cur: seq<Member>, key: string, v: Json, u: char, cs: bool)
    requires SlashFree(key)
    ensures var i := Find(cur, LandsOn(key), false);
      Perform(Object(cur), Replace, "/" + EncodeKey(key, u), Some(v), None, cs)
      == if i < |cur| then (0, Object(WithMember(RemoveAt(cur, i), LandsOn(key), v, cs))) else (13, Object(cur))
  {
    hide DetachPath, EncodeKey, Find, LandsOn, AddPath, WithMember;
    PathOfKey(cur, key, u, cs);
    var i := Find(cur, LandsOn(key), false);
    if i < |cur| { AddOutcome(RemoveAt(cur, i), key, v, u, cs); }
  }

  /** A patch below a member that is not there fails. */
  lemma MissingBelow(cur: seq<Member>, key: string, p: Patch, cs: bool)
    requires SlashFree(key) && !Has(cur, Meant(key), cs) && IsBelow(p.path) && Generated(p.op)
    ensures Perform(Object(cur), p.op, "/" + Escaped(key) + p.path, p.value, None, cs).0 != 0
  {
    hide Find, DecodeToken, Resolve, SplitPath, DetachChild, AddChild, IsBelow, Escaped, Meant;
    SplitBelow("/" + Escaped(key), p.path);
    TokenMissing(cur, key, SplitPath(p.path).value.0, cs);
    assert "/" + Escaped(key) + p.path != "";
  }

  // ----- a wrong member stays wrong -----

  lemma DistinctRemoved(cur: seq<Member>, i: nat, cs: bool)
    requires Distinct(cur, cs) && i < |cur|
    ensures Distinct(RemoveAt(cur, i), cs)
  {
    hide Key;
  }

  lemma DistinctAppended(cur: seq<Member>, m: Member, cs: bool)
    requires Distinct(cur, cs) && !Has(cur, m.key, cs)
    ensures Distinct(cur + [m], cs)
  {
    hide Key, Find;
    forall j | 0 <= j < |cur| ensures !KeyEq(cur[j].key, m.key, cs) { NotFoundAt(cur, m.key, cs, j); }
  }

  lemma DifferentFrom(ms: seq<Member>, i: nat, k: nat, key: string, cs: bool)
    requires Distinct(ms, cs) && i < |ms| && k < |ms| && i != k && KeyEq(ms[i].key, key, cs)
    ensures !KeyEq(ms[k].key, key, cs)
  {
    if i < k { assert !KeyEq(ms[i].key, ms[k].key, cs); } else { assert !KeyEq(ms[k].key, ms[i].key, cs); }
  }

  lemma WrongAfterRemoval(cur: seq<Member>, i: nat, n: Member, cs: bool)
    requires Distinct(cur, cs) && i < |cur| && !Settled(cur, n, cs)
    ensures !Settled(RemoveAt(cur, i), n, cs)
  {
    hide Key, Find;
    if Find(cur, n.key, cs) == i {
      var r := RemoveAt(cur, i);
      forall j | 0 <= j < |r| ensures !KeyEq(r[j].key, n.key, cs) {
        var k := if j < i then j else j + 1;
        assert !KeyEq(cur[i].key, cur[k].key, cs);
      }
      NotFound(r, n.key, cs);
    } else {
      FindRemoved(cur, i, n.key, cs);
    }
  }

  lemma WithMemberKeeps(cur: seq<Member>, key: string, v: Json, n: Member, cs: bool)
    requires Distinct(cur, cs) && !KeyEq(key, n.key, cs) && !Settled(cur, n, cs)
    ensures Distinct(WithMember(cur, key, v, cs), cs) && !Settled(WithMember(cur, key, v, cs), n, cs)
  {
    hide Key, Find;
    var i := Find(cur, key, cs);
    var rest := if i < |cur| then RemoveAt(cur, i) else cur;
    if i < |cur| {
      DistinctRemoved(cur, i, cs);
      WrongAfterRemoval(cur, i, n, cs);
      forall j | 0 <= j < |rest| ensures !KeyEq(rest[j].key, key, cs) {
        var k := if j < i then j else j + 1;
        assert !KeyEq(cur[i].key, cur[k].key, cs);
      }
      NotFound(rest, key, cs);
    }
    DistinctAppended(rest, Member(key, v), cs);
    FindAppended(rest, Member(key, v), n.key, cs);
  }

  lemma UpdateKeeps(cur: seq<Member>, i: nat, v: Json, n: Member, cs: bool)
    requires Distinct(cur, cs) && i < |cur| && !KeyEq(cur[i].key, n.key, cs) && !Settled(cur, n, cs)
    ensures var r := cur[i := Member(cur[i].key, v)]; Distinct(r, cs) && !Settled(r, n, cs)
  {
    hide Key, Find;
    FindUpdated(cur, i, v, n.key, cs);
  }

  // ----- when a list of patches fails -----

  lemma {:induction false} RunStops(t: Json, ps: seq<Patch>, qs: seq<Patch>, cs: bool)
    requires Run(t, ps, cs).0 != 0
    ensures Run(t, ps + qs, cs).0 != 0
    decreases |ps|
  {
    assert (ps + qs)[1..] == ps[1..] + qs;
    var (status, t') := Perform(t, ps[0].op, ps[0].path, ps[0].value, None, cs);
    if status == 0 { RunStops(t', ps[1..], qs, cs); }
  }

  /** A single patch. */
  lemma RunSingle(t: Json, p: Patch, cs: bool)
    ensures Run(t, [p], cs) == Perform(t, p.op, p.path, p.value, None, cs)
  {
    assert [p][1..] == [];
  }

  /** The value is replaced as a whole. */
  predicate Replaced(a: Json, b: Json) {
    !SameType(a, b) || ((a.Number? || a.String?) && a != b)
  }

  lemma ReplacedPatches(a: Json, b: Json, u: char, cs: bool)
    ensures Replaced(a, b) ==> Diff("", a, b, u, cs) == [Patch(Replace, "", Some(b))]
    ensures !Replaced(a, b) ==> AllBelow(Diff("", a, b, u, cs))
  {
    if SameType(a, b) {
      if a.Array? {
        DiffItemsPrefixed("", a.items, b.items, 0, u, cs, Height(a));
      } else if a.Object? {
        SortedLower(a.members, cs, Height(a));
        DiffMembersPrefixed("", SortMembers(a.members, cs), SortMembers(b.members, cs), u, cs, Height(a));
      }
    }
  }

  /** What the patches for one member come to, whatever the object holds. */
  lemma MemberOutcome(cur: seq<Member>, key: string, a: Json, b: Json, u: char, cs: bool)
    requires SlashFree(key)
    ensures var (s, r) := Run(Object(cur), Diff(SubPath("", key, u), a, b, u, cs), cs);
      if Replaced(a, b) then
        var i := Find(cur, LandsOn(key), false);
        (s, r) == if i < |cur| then (0, Object(WithMember(RemoveAt(cur, i), LandsOn(key), b, cs))) else (13, Object(cur))
      else if Diff("", a, b, u, cs) == [] then (s, r) == (0, Object(cur))
      else if Has(cur, Meant(key), cs) then
        var i := Find(cur, Meant(key), cs);
        var c := Run(cur[i].value, Diff("", a, b, u, cs), cs);
        (s, r) == (c.0, Object(cur[i := Member(cur[i].key, c.1)]))
      else s != 0
  {
    hide Find, EncodeKey, WithMember, Diff, Perform, LandsOn, Meant, Escaped;
    var ps, e := Diff("", a, b, u, cs), Escaped(key);
    LandsOnIff(key, u);
    ChildPatches(e, a, b, u, cs);
    ReplacedPatches(a, b, u, cs);
    assert SubPath("", key, u) == "" + ("/" + e);
    if Replaced(a, b) {
      ReplaceOutcome(cur, key, b, u, cs);
      RunSingle(Object(cur), Patch(Replace, "/" + e, Some(b)), cs);
    } else if ps == [] {
      RunNothing(Object(cur), cs);
    } else if Has(cur, Meant(key), cs) {
      TokenSelected(cur, key, cs);
      RunBelow(Object(cur), e, Find(cur, Meant(key), cs), ps, cs);
    } else {
      MissingBelow(cur, key, ps[0], cs);
      assert Prefixed("/" + e, ps)[0] == Patch(ps[0].op, "/" + e + ps[0].path, ps[0].value);
    }
  }

  predicate Elsewhere(ms: seq<Member>, key: string, cs: bool) {
    forall k :: 0 <= k < |ms| ==> SlashFree(ms[k].key) && !KeyEq(ms[k].key, key, cs)
  }

  /** The patches of a walk that has passed the key do not repair it. */
  lemma {:induction false} StaysWrong(cur: seq<Member>, fr: seq<Member>, tr: seq<Member>, n: Member, u: char, cs: bool, h: nat)
    requires LowerMembers(fr, h) && Distinct(cur, cs) && !Settled(cur, n, cs) && SlashFree(n.key)
    requires Elsewhere(fr, n.key, cs) && Elsewhere(tr, n.key, cs)
    ensures var (s, r) := Run(Object(cur), DiffMembers("", fr, tr, u, cs, h), cs);
      s == 0 ==> r.Object? && !Settled(r.members, n, cs)
    decreases |fr| + |tr|
  {
    hide Key, Find, Settled, Perform, EncodeKey, WithMember, Diff, SlashFree, Run;
    if fr == [] && tr == [] {
      RunNothing(Object(cur), cs);
    } else {
      var diff := KeyOrder(fr, tr, cs);
      var ps := if diff == 0 then Diff(SubPath("", fr[0].key, u), fr[0].value, tr[0].value, u, cs)
                else if diff < 0 then [Patch(Remove, SubPath("", fr[0].key, u), None)]
                else [Patch(Add, SubPath("", tr[0].key, u), Some(tr[0].value))];
      var fr', tr' := (if diff <= 0 then fr[1..] else fr), (if diff >= 0 then tr[1..] else tr);
      StepStaysWrong(cur, fr, tr, n, u, cs);
      var (s, r) := Run(Object(cur), ps, cs);
      assert DiffMembers("", fr, tr, u, cs, h) == ps + DiffMembers("", fr', tr', u, cs, h);
      if s == 0 {
        StaysWrong(r.members, fr', tr', n, u, cs, h);
        RunAppend(Object(cur), ps, DiffMembers("", fr', tr', u, cs, h), cs);
      } else {
        RunStops(Object(cur), ps, DiffMembers("", fr', tr', u, cs, h), cs);
      }
    }
  }

  lemma StepStaysWrong(cur: seq<Member>, fr: seq<Member>, tr: seq<Member>, n: Member, u: char, cs: bool)
    requires Distinct(cur, cs) && !Settled(cur, n, cs) && (fr != [] || tr != []) && SlashFree(n.key)
    requires Elsewhere(fr, n.key, cs) && Elsewhere(tr, n.key, cs)
    ensures var diff := KeyOrder(fr, tr, cs);
      && (diff <= 0 ==> fr != []) && (diff >= 0 ==> tr != [])
      && var (s, r) := Run(Object(cur),
           if diff == 0 then Diff(SubPath("", fr[0].key, u), fr[0].value, tr[0].value, u, cs)
           else if diff < 0 then [Patch(Remove, SubPath("", fr[0].key, u), None)]
           else [Patch(Add, SubPath("", tr[0].key, u), Some(tr[0].value))], cs);
         s == 0 ==> r.Object? && Distinct(r.members, cs) && !Settled(r.members, n, cs)
  {
    hide Key, Find, Settled, Perform, EncodeKey, WithMember, Diff, SlashFree, Run, Compare, LandsOn, Meant;
    var diff := KeyOrder(fr, tr, cs);
    if diff == 0 {
      var m := fr[0];
      MemberOutcome(cur, m.key, m.value, tr[0].value, u, cs);
      OtherKey(m.key, n.key, cs);
      if Replaced(m.value, tr[0].value) {
        var i := Find(cur, LandsOn(m.key), false);
        if i < |cur| {
          DistinctRemoved(cur, i, cs);
          WrongAfterRemoval(cur, i, n, cs);
          WithMemberKeeps(RemoveAt(cur, i), LandsOn(m.key), tr[0].value, n, cs);
        }
      } else if Has(cur, Meant(m.key), cs) {
        var i := Find(cur, Meant(m.key), cs);
        UpdateKeeps(cur, i, Run(cur[i].value, Diff("", m.value, tr[0].value, u, cs), cs).1, n, cs) by { SameClass(cur[i].key, Meant(m.key), n.key, cs); }
      }
    } else if diff < 0 {
      var key := fr[0].key;
      RemoveOutcome(cur, key, u, cs);
      RunSingle(Object(cur), Patch(Remove, "/" + EncodeKey(key, u), None), cs);
      assert SubPath("", key, u) == "/" + EncodeKey(key, u);
      var i := Find(cur, LandsOn(key), false);
      if i < |cur| {
        DistinctRemoved(cur, i, cs);
        WrongAfterRemoval(cur, i, n, cs);
      }
    } else {
      var key := tr[0].key;
      AddOutcome(cur, key, tr[0].value, u, cs);
      RunSingle(Object(cur), Patch(Add, "/" + EncodeKey(key, u), Some(tr[0].value)), cs);
      assert SubPath("", key, u) == "/" + EncodeKey(key, u);
      OtherKey(key, n.key, cs);
      WithMemberKeeps(cur, LandsOn(key), tr[0].value, n, cs);
    }
  }

  /** Where a key leads is not another key without a slash. */
  lemma OtherKey(key: string, other: string, cs: bool)
    requires SlashFree(key) && SlashFree(other) && !KeyEq(key, other, cs)
    ensures !KeyEq(LandsOn(key), other, cs) && !KeyEq(Meant(key), other, cs)
  {
    hide KeyEq, LandsOn, Meant;
    LandsOnIff(key, '\0');
    MeantIs(key);
    if '/' in LandsOn(key) { SlashIsElsewhere(other, LandsOn(key), cs); }
    if '/' in Meant(key) { SlashIsElsewhere(other, Meant(key), cs); }
  }

  lemma SameClass(a: string, b: string, c: string, cs: bool)
    requires KeyEq(a, b, cs) && !KeyEq(b, c, cs)
    ensures !KeyEq(a, c, cs)
  {
  }

  // ----- a key that no patch can name stays -----

  predicate AllSlashFree(ms: seq<Member>) {
    forall k :: 0 <= k < |ms| ==> SlashFree(ms[k].key)
  }

  /** No key without a slash leads to one with a tilde in front of its end, whatever the letter case. */
  lemma NeverThere(key: string, stuck: string)
    requires SlashFree(key) && SlashFree(stuck) && !TildeOnlyAtEnd(stuck)
    ensures !KeyEq(LandsOn(key), stuck, false)
  {
    hide LandsOn;
    LandsOnIff(key, '\0');
    if '/' in LandsOn(key) {
      SlashIsElsewhere(stuck, LandsOn(key), false);
    } else if KeyEq(key, stuck, false) {
      TildesFold(key, stuck);
    }
  }

  lemma TildesFold(a: string, b: string)
    requires KeyEq(a, b, false)
    ensures TildeOnlyAtEnd(a) <==> TildeOnlyAtEnd(b)
  {
    forall i | 0 <= i < |a| ensures a[i] == '~' <==> b[i] == '~' { assert Fold(a)[i] == Fold(b)[i]; }
  }

  lemma StuckAfterRemoval(cur: seq<Member>, key: string, stuck: string, cs: bool)
    requires SlashFree(key) && SlashFree(stuck) && !TildeOnlyAtEnd(stuck) && Has(cur, stuck, cs)
    ensures var i := Find(cur, LandsOn(key), false); i < |cur| ==> Has(RemoveAt(cur, i), stuck, cs)
    ensures var i := Find(cur, LandsOn(key), cs); i < |cur| ==> Has(RemoveAt(cur, i), stuck, cs)
  {
    hide Find, Key, LandsOn, TildeOnlyAtEnd;
    NeverThere(key, stuck);
    var k := Find(cur, stuck, cs);
    var d := LandsOn(key);
    ExactImpliesFolded(cur[k].key, stuck, cs);
    NotFolded(cur[k].key, d, stuck);
    var i, j := Find(cur, d, false), Find(cur, d, cs);
    if i < |cur| { FindRemoved(cur, i, stuck, cs); }
    if j < |cur| {
      ExactImpliesFolded(cur[j].key, d, cs);
      FindRemoved(cur, j, stuck, cs);
    }
  }

  lemma NotFolded(a: string, b: string, c: string)
    requires KeyEq(a, c, false) && !KeyEq(b, c, false)
    ensures !KeyEq(a, b, false)
  {
  }

  lemma StuckWithMember(cur: seq<Member>, key: string, v: Json, stuck: string, cs: bool)
    requires SlashFree(key) && SlashFree(stuck) && !TildeOnlyAtEnd(stuck) && Has(cur, stuck, cs)
    ensures Has(WithMember(cur, LandsOn(key), v, cs), stuck, cs)
  {
    hide Find, Key, LandsOn, TildeOnlyAtEnd;
    StuckAfterRemoval(cur, key, stuck, cs);
    var i := Find(cur, LandsOn(key), cs);
    FindAppended(if i < |cur| then RemoveAt(cur, i) else cur, Member(LandsOn(key), v), stuck, cs);
  }

  /** A member that should go and has such a key is there to the end. */
  lemma {:induction false} StaysStuck(cur: seq<Member>, fr: seq<Member>, tr: seq<Member>, stuck: string, u: char, cs: bool, h: nat)
    requires LowerMembers(fr, h) && AllSlashFree(fr) && AllSlashFree(tr)
    requires SlashFree(stuck) && !TildeOnlyAtEnd(stuck) && Has(cur, stuck, cs)
    ensures var (s, r) := Run(Object(cur), DiffMembers("", fr, tr, u, cs, h), cs);
      s == 0 ==> r.Object? && Has(r.members, stuck, cs)
    decreases |fr| + |tr|
  {
    hide Key, Find, Perform, EncodeKey, WithMember, Diff, SlashFree, Run, TildeOnlyAtEnd;
    if fr == [] && tr == [] {
      RunNothing(Object(cur), cs);
    } else {
      var diff := KeyOrder(fr, tr, cs);
      var ps := if diff == 0 then Diff(SubPath("", fr[0].key, u), fr[0].value, tr[0].value, u, cs)
                else if diff < 0 then [Patch(Remove, SubPath("", fr[0].key, u), None)]
                else [Patch(Add, SubPath("", tr[0].key, u), Some(tr[0].value))];
      var fr', tr' := (if diff <= 0 then fr[1..] else fr), (if diff >= 0 then tr[1..] else tr);
      StepStaysStuck(cur, fr, tr, stuck, u, cs);
      var (s, r) := Run(Object(cur), ps, cs);
      assert DiffMembers("", fr, tr, u, cs, h) == ps + DiffMembers("", fr', tr', u, cs, h);
      if s == 0 {
        StaysStuck(r.members, fr', tr', stuck, u, cs, h);
        RunAppend(Object(cur), ps, DiffMembers("", fr', tr', u, cs, h), cs);
      } else {
        RunStops(Object(cur), ps, DiffMembers("", fr', tr', u, cs, h), cs);
      }
    }
  }

  lemma StepStaysStuck(cur: seq<Member>, fr: seq<Member>, tr: seq<Member>, stuck: string, u: char, cs: bool)
    requires (fr != [] || tr != []) && AllSlashFree(fr) && AllSlashFree(tr)
    requires SlashFree(stuck) && !TildeOnlyAtEnd(stuck) && Has(cur, stuck, cs)
    ensures var diff := KeyOrder(fr, tr, cs);
      && (diff <= 0 ==> fr != []) && (diff >= 0 ==> tr != [])
      && var (s, r) := Run(Object(cur),
           if diff == 0 then Diff(SubPath("", fr[0].key, u), fr[0].value, tr[0].value, u, cs)
           else if diff < 0 then [Patch(Remove, SubPath("", fr[0].key, u), None)]
           else [Patch(Add, SubPath("", tr[0].key, u), Some(tr[0].value))], cs);
         s == 0 ==> r.Object? && Has(r.members, stuck, cs)
  {
    hide Key, Find, Perform, EncodeKey, WithMember, Diff, SlashFree, Run, Compare, LandsOn, Meant, TildeOnlyAtEnd;
    var diff := KeyOrder(fr, tr, cs);
    if diff == 0 {
      var m, n := fr[0], tr[0];
      MemberOutcome(cur, m.key, m.value, n.value, u, cs);
      if Replaced(m.value, n.value) {
        StuckAfterRemoval(cur, m.key, stuck, cs);
        var i := Find(cur, LandsOn(m.key), false);
        if i < |cur| { StuckWithMember(RemoveAt(cur, i), m.key, n.value, stuck, cs); }
      } else if Has(cur, Meant(m.key), cs) {
        var i := Find(cur, Meant(m.key), cs);
        FindUpdated(cur, i, Run(cur[i].value, Diff("", m.value, n.value, u, cs), cs).1, stuck, cs);
      }
    } else if diff < 0 {
      var key := fr[0].key;
      RemoveOutcome(cur, key, u, cs);
      RunSingle(Object(cur), Patch(Remove, "/" + EncodeKey(key, u), None), cs);
      assert SubPath("", key, u) == "/" + EncodeKey(key, u);
      StuckAfterRemoval(cur, key, stuck, cs);
    } else {
      var key := tr[0].key;
      AddOutcome(cur, key, tr[0].value, u, cs);
      RunSingle(Object(cur), Patch(Add, "/" + EncodeKey(key, u), Some(tr[0].value)), cs);
      assert SubPath("", key, u) == "/" + EncodeKey(key, u);
      StuckWithMember(cur, key, tr[0].value, stuck, cs);
    }
  }
}

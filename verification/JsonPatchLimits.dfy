/** Where JSON Patch goes wrong: a member is removed by its key without regard to letter case, in the
    case-sensitive mode, too; and two raw texts always compare equal. */
module JsonPatchLimits {

  import opened CStrings
  import opened JsonPatch
  import opened JsonPatchBelow
  import opened JsonPatchExact
  import opened JsonPatchOutcome
  import opened JsonPatchRoundTrip
  import opened JsonPatchTilde
  import opened JsonPaths
  import opened JsonPointer
  import opened JsonTree
  import opened MergeSort
  import opened Options
  import opened Sequences

  lemma {:induction false} EqualUpTo(ms: seq<Member>, i: nat, k: nat)
    requires i <= k < |ms| && forall j :: i <= j < k ==> ms[j] == ms[j + 1]
    ensures ms[i] == ms[k]
    decreases k
  {
    if i < k { EqualUpTo(ms, i, k - 1); }
  }

  /** Removing at different places leaves different members when the keys there differ. */
  lemma RemovedElsewhere(ms: seq<Member>, i: nat, k: nat)
    requires i < k < |ms| && ms[i].key != ms[k].key
    ensures RemoveAt(ms, i) != RemoveAt(ms, k)
  {
    if RemoveAt(ms, i) == RemoveAt(ms, k) {
      forall j | i <= j < k ensures ms[j] == ms[j + 1] {
        assert RemoveAt(ms, i)[j] == RemoveAt(ms, k)[j];
      }
      EqualUpTo(ms, i, k);
      assert false;
    }
  }

  /** The patch that removes a key takes the member with exactly that key if and only if no member before it
      has a key that differs in letter case alone. */
  lemma RemoveIsExactIff(ms: seq<Member>, key: string, u: char, cs: bool)
    requires PlainKey(key) && Has(ms, key, true)
    ensures var k := Find(ms, key, true);
      Perform(Object(ms), Remove, "/" + EncodeKey(key, u), None, None, cs) == (0, Object(RemoveAt(ms, k)))
      <==> forall j :: 0 <= j < k ==> !KeyEq(ms[j].key, key, false)
  {
    hide Perform, EncodeKey, RemoveAt;
    var k := Find(ms, key, true);
    var i := Find(ms, key, false);
    assert KeyEq(ms[k].key, key, false);
    RemoveMember(ms, key, u, cs);
    if i < k {
      RemovedElsewhere(ms, i, k);
    }
  }

  /** The patch that replaces a value takes the place of exactly that member under the same condition; otherwise
      a second member is lost. */
  lemma ReplaceIsExactIff(ms: seq<Member>, key: string, v: Json, u: char)
    requires PlainKey(key) && Has(ms, key, true) && Distinct(ms, true)
    ensures var k := Find(ms, key, true);
      Perform(Object(ms), Replace, "/" + EncodeKey(key, u), Some(v), None, true) == (0, Object(RemoveAt(ms, k) + [Member(key, v)]))
      <==> forall j :: 0 <= j < k ==> !KeyEq(ms[j].key, key, false)
  {
    hide Perform, EncodeKey, LandsOn, Find, Key, WithMember;
    var k, i := Find(ms, key, true), Find(ms, key, false);
    KeyFolds(ms[k].key, key);
    FirstOfBoth(ms, key);
    PlainLandsOn(key);
    ReplaceOutcome(ms, key, v, u, true);
    if i < k {
      FindRemoved(ms, i, key, true);
      StillThere(RemoveAt(ms, i), key, v, |ms| - 1);
    } else {
      DistinctRemoved(ms, k, true);
      forall j | 0 <= j < |ms| - 1 ensures !KeyEq(RemoveAt(ms, k)[j].key, key, true) { DifferentFrom(ms, k, if j < k then j else j + 1, key, true); }
      NotFound(RemoveAt(ms, k), key, true);
      WithNew(RemoveAt(ms, k), key, v);
    }
  }

  lemma FirstOfBoth(ms: seq<Member>, key: string)
    requires Has(ms, key, true)
    ensures var k, i := Find(ms, key, true), Find(ms, key, false);
      i <= k && (i == k <==> forall j :: 0 <= j < k ==> !KeyEq(ms[j].key, key, false))
  {
    hide Key;
    KeyFolds(ms[Find(ms, key, true)].key, key);
  }

  /** Where the key is still there, adding a member leaves one fewer. */
  lemma StillThere(rest: seq<Member>, key: string, v: Json, n: nat)
    requires Has(rest, key, true) && |rest| == n
    ensures |WithMember(rest, key, v, true)| == n
  {
  }

  lemma WithNew(rest: seq<Member>, key: string, v: Json)
    requires !Has(rest, key, true)
    ensures WithMember(rest, key, v, true) == rest + [Member(key, v)]
  {
  }

  /** The patch that removes a key, tildes or not, takes exactly that member if and only if there is no tilde but at the
      end of the key. */
  lemma RemoveTildeIff(ms: seq<Member>, key: string, u: char, cs: bool)
    requires SlashFree(key) && Has(ms, key, true) && Distinct(ms, false)
    ensures Perform(Object(ms), Remove, "/" + EncodeKey(key, u), None, None, cs) == (0, Object(RemoveAt(ms, Find(ms, key, true))))
      <==> TildeOnlyAtEnd(key)
  {
    hide EncodeKey, DecodeToken, Find, RemoveAt, SplitPath, Resolve, Escaped;
    var k := Find(ms, key, true);
    EncodesTo(key, u);
    EscapedIsToken(key);
    LastTokenIff(key, u);
    var token := EncodeKey(key, u);
    SplitToken(token);
    AtTop(Object(ms), cs);
    AtRoot(Object(ms), Object(ms));
    var d := DecodeToken(token);
    var i := Find(ms, d, false);
    if d == key {
      KeyFolds(ms[k].key, key);
      FindDistinct(ms, key, false, k);
      AtRoot(Object(ms), Object(RemoveAt(ms, k)));
    } else if i < |ms| {
      AtRoot(Object(ms), Object(RemoveAt(ms, i)));
      if i == k { SlashNotFolded(ms[k].key, d); }
      if i < k { RemovedElsewhere(ms, i, k); } else if k < i { RemovedElsewhere(ms, k, i); }
    }
  }

  /** The patch that adds a member under such a key does so under the same condition. */
  lemma AddTildeIff(ms: seq<Member>, key: string, v: Json, u: char, cs: bool)
    requires SlashFree(key)
    ensures Perform(Object(ms), Add, "/" + EncodeKey(key, u), Some(v), None, cs) == (0, Object(WithMember(ms, key, v, cs)))
      <==> TildeOnlyAtEnd(key)
  {
    hide EncodeKey, DecodeToken, Find, SplitPath, Resolve, Escaped;
    EncodesTo(key, u);
    EscapedIsToken(key);
    LastTokenIff(key, u);
    var token := EncodeKey(key, u);
    SplitToken(token);
    AtTop(Object(ms), cs);
    var d := DecodeToken(token);
    AtRoot(Object(ms), Object(WithMember(ms, d, v, cs)));
    var r, r' := WithMember(ms, d, v, cs), WithMember(ms, key, v, cs);
    assert r[|r| - 1].key == d && r'[|r'| - 1].key == key;
  }

  lemma KeyFolds(a: string, b: string)
    requires KeyEq(a, b, true)
    ensures a == b && KeyEq(a, b, false)
  {
  }

  /** With two keys that differ in letter case the patches remove the wrong member, and report success. */
  lemma PatchFailsForLetterCase(u: char)
    ensures var from := Object([Member("A", True), Member("a", False)]);
      var to := Object([Member("A", True)]);
      var (status, r) := ApplyFrom(from, GeneratePatches(from, to, u, true).items, true);
      status == 0 && r == Object([Member("a", False)]) && !Same(r, to, true) && !Orderly(from, to, true)
  {
    hide Perform, ApplyFrom, EncodeKey, Diff, Orderly;
    NotOrderlyForLetterCase();
    var ms := [Member("A", True), Member("a", False)];
    var patch := Patch(Remove, "/" + EncodeKey("a", u), None);
    PatchesForLetterCase(u);
    assert Generated(patch.op);
    ApplyIsRun(Object(ms), [patch], true);
    FindIs(ms, "a", false, 0) by { assert Fold("A") == "a" && Fold("a") == "a"; }
    RemoveMember(ms, "a", u, true);
    assert RemoveAt(ms, 0) == [Member("a", False)];
    RunOne(Object(ms), patch, true);
    assert !Has([Member("A", True)], "a", true);
    assert [Member("a", False)][0].key == "a";
  }

  lemma NotOrderlyForLetterCase()
    ensures !Orderly(Object([Member("A", True), Member("a", False)]), Object([Member("A", True)]), true)
  {
    var from := Object([Member("A", True), Member("a", False)]);
    var ms, ns := from.members, [Member("A", True)];
    SortedAlready();
    SortedLower(ms, true, Height(from));
    FindIs(ns, "A", true, 0);
    assert Stays(ms[0], ns, true) && !Stays(ms[1], ns, true);
    assert Fold("A") == "a" && Fold("a") == "a";
  }

  lemma PatchesForLetterCase(u: char)
    ensures Diff("", Object([Member("A", True), Member("a", False)]), Object([Member("A", True)]), u, true)
         == [Patch(Remove, "/" + EncodeKey("a", u), None)]
  {
    hide EncodeKey;
    var from := Object([Member("A", True), Member("a", False)]);
    SortedAlready();
    SortedLower(from.members, true, Height(from));
    var ms, ns := from.members, [Member("A", True)];
    assert ms[1..] == [Member("a", False)] && ns[1..] == [] && ms[1..][1..] == [];
    assert Compare("A", "A") == 0;
    var h := Height(from);
    assert DiffMembers("", ms[1..], [], u, true, h) == [Patch(Remove, SubPath("", "a", u), None)];
    assert "" + ("/" + EncodeKey("a", u)) == "/" + EncodeKey("a", u);
  }

  lemma SortedAlready()
    ensures SortMembers([Member("A", True), Member("a", False)], true) == [Member("A", True), Member("a", False)]
    ensures SortMembers([Member("A", True)], true) == [Member("A", True)]
  {
    var ms := [Member("A", True), Member("a", False)];
    assert Less(ms[0], ms[1], MemberKey(true));
    assert Ascending(ms, MemberKey(true));
  }

  /** Two raw texts compare equal, so that no patch ever changes one into another: they must be equal already. */
  lemma RawIsNeverPatched(s: string, t: string, u: char, cs: bool)
    ensures CompareJson(Raw(s), Raw(t), cs) && GeneratePatches(Raw(s), Raw(t), u, cs) == Array([])
    ensures ApplyFrom(Raw(s), [], cs) == (0, Raw(s)) && (Same(Raw(s), Raw(t), cs) <==> s == t)
    ensures Orderly(Raw(s), Raw(t), cs) <==> s == t
  {
  }

  /** Documents without raw items whose old keys differ in more than letter case are orderly. */
  lemma {:induction false} TidyIsOrderly(a: Json, b: Json, cs: bool)
    requires Tidy(a, false) && Tidy(b, cs)
    ensures Orderly(a, b, cs)
    decreases Height(a), 1
  {
    hide OrderlyMembers, SortMembers, TildesFit;
    if Replaced(a, b) {
    } else if a.Array? {
      forall k | 0 <= k < |a.items| && k < |b.items| ensures Orderly(a.items[k], b.items[k], cs) { TidyIsOrderly(a.items[k], b.items[k], cs); }
    } else if a.Object? {
      SortedLower(a.members, cs, Height(a));
      TidyMembers(a, b, cs);
    }
  }

  lemma {:induction false} TidyMembers(a: Json, b: Json, cs: bool)
    requires Tidy(a, false) && Tidy(b, cs) && a.Object? && b.Object?
    requires LowerMembers(SortMembers(a.members, cs), Height(a))
    ensures OrderlyMembers([], SortMembers(a.members, cs), SortMembers(b.members, cs), cs, Height(a))
    ensures TildesFit(SortMembers(a.members, cs), SortMembers(b.members, cs), cs)
    decreases Height(a), 0
  {
    hide Orderly, SortMembers, Tidy, PlainKey, Find, KeyEq, TildeOnlyAtEnd;
    var ms, ns := SortMembers(a.members, cs), SortMembers(b.members, cs);
    TidyParts(a.members, false);
    TidyParts(b.members, cs);
    DistinctPermutation(a.members, ms, false);
    forall i | 0 <= i < |ms| ensures TildeOnlyAtEnd(ms[i].key) && '~' !in ms[i].key {
      var i' := SameElements(ms, a.members, i);
      NoTilde(ms[i].key);
    }
    forall k | 0 <= k < |ns| ensures TildeOnlyAtEnd(ns[k].key) {
      var k' := SameElements(ns, b.members, k);
      NoTilde(ns[k].key);
    }
    forall i | 0 <= i < |ms| && Stays(ms[i], ns, cs) ensures OrderlyBelow(ms[i], ns[Find(ns, ms[i].key, cs)].value, cs) {
      var i' := SameElements(ms, a.members, i);
      var j' := SameElements(ns, b.members, Find(ns, ms[i].key, cs));
      TidyIsOrderly(ms[i].value, ns[Find(ns, ms[i].key, cs)].value, cs);
    }
  }

  lemma TidyParts(ms: seq<Member>, cs: bool)
    requires Tidy(Object(ms), cs)
    ensures Distinct(ms, cs) && forall i :: 0 <= i < |ms| ==> PlainKey(ms[i].key) && Tidy(ms[i].value, cs)
  {
  }

  lemma NoTilde(key: string)
    requires PlainKey(key)
    ensures '~' !in key && TildeOnlyAtEnd(key)
  {
    assert forall i :: 0 <= i < |key| ==> key[i] in key;
  }
}

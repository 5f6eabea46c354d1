/** Applying the generated patches to the old document gives the new one. */
module JsonPatchRoundTrip {
  import opened CStrings
  import opened MergeSort
  import opened JsonSame
  import opened JsonTree
  import opened JsonPointer
  import opened JsonPaths
  import opened JsonPatch
  import opened JsonPatchBelow
  import opened Options
  import opened Sequences

  /** A key that is a C string and that escaping leaves alone. */
  predicate PlainKey(key: string) {
    Free(key) && '\0' !in key
  }

  /** Documents that patches can name: plain keys, unique in each object; no raw or invalid node;
      array positions that fit a `size_t`. */
  predicate Tidy(t: Json, cs: bool) {
    match t
    case Array(xs) => |xs| <= SIZE_LIMIT && forall i :: 0 <= i < |xs| ==> Tidy(xs[i], cs)
    case Object(ms) =>
      Distinct(ms, cs) && forall i :: 0 <= i < |ms| ==> PlainKey(ms[i].key) && Tidy(ms[i].value, cs)
    case Raw(_) => false
    case Invalid => false
    case _ => true
  }

  lemma {:induction false} TidyIsUnique(t: Json, cs: bool)
    requires Tidy(t, cs)
    ensures Unique(t, cs) && Plain(t)
  {
    match t
    case Array(xs) =>
      forall i | 0 <= i < |xs| ensures Unique(xs[i], cs) && Plain(xs[i]) { TidyIsUnique(xs[i], cs); }
    case Object(ms) =>
      forall i | 0 <= i < |ms| ensures Unique(ms[i].value, cs) && Plain(ms[i].value) { TidyIsUnique(ms[i].value, cs); }
    case _ =>
  }

  // ----- a token selects its child, and names it as the last token -----

  lemma FreeToken(key: string, u: char)
    requires PlainKey(key)
    ensures EncodeKey(key, u) == key && DecodeToken(key) == key && '/' !in key
  {
    EncodeFree(key, seq(EncodedLength(key), _ => u));
    DecodeTokenFree(key);
  }

  lemma {:induction false} UnescapeFree(key: string)
    requires '~' !in key
    ensures Unescape(key) == Some(key)
  {
    if key != [] {
      assert key == [key[0]] + key[1..];
      UnescapeFree(key[1..]);
    }
  }

  lemma MemberSelected(ms: seq<Member>, key: string, cs: bool)
    requires PlainKey(key) && Has(ms, key, cs)
    ensures Selects(Object(ms), key, Find(ms, key, cs), cs)
  {
    UnescapeFree(key);
    forall rest | EndsToken(rest) ensures FindToken(ms, key + rest, cs) == Find(ms, key, cs) {
      forall j | 0 <= j < |ms| ensures PointerMatches(ms[j].key, key + rest, cs) <==> KeyEq(ms[j].key, key, cs) {
        PointerMatchesMeaning(ms[j].key, key, rest, cs);
      }
      FindTokenIs(ms, key + rest, cs, Find(ms, key, cs));
    }
  }

  lemma DecimalIsPlain(i: nat)
    ensures PlainKey(Decimal(i)) && Decimal(i) != "-"
  {
    var d := Decimal(i);
    assert forall c :: c in d ==> '0' <= c <= '9';
  }

  lemma ItemSelected(xs: seq<Json>, i: nat, cs: bool)
    requires i < |xs| <= SIZE_LIMIT
    ensures Selects(Array(xs), Decimal(i), i, cs)
  {
    DecimalIsPlain(i);
    forall rest | EndsToken(rest) ensures DecodeIndex(Decimal(i) + rest) == Some(i) { DecimalIndex(i, rest); }
  }

  lemma LastToken(token: string)
    requires PlainKey(token)
    ensures SplitPath("/" + token) == Some(("", token))
    ensures forall t: Json, cs: bool :: Resolve(t, "", cs) == Some([])
  {
    SplitToken(token);
  }

  lemma {:induction false} SplitToken(token: string)
    requires '/' !in token
    ensures SplitPath("/" + token) == Some(("", token))
    decreases |token|
  {
    var p := "/" + token;
    if token == [] {
      assert p == "/" && p[..0] == "";
    } else {
      var init := token[..|token| - 1];
      assert p[..|p| - 1] == "/" + init && token == init + [token[|token| - 1]];
      assert token[|token| - 1] in token;
      SplitToken(init);
    }
  }

  // ----- the root of the tree: one patch for a child itself -----

  lemma AtRoot(t: Json, v: Json)
    ensures ValidPath(t, []) && At(t, []) == t && Put(t, [], v) == v
  {
  }

  lemma DetachItem(xs: seq<Json>, i: nat, cs: bool)
    requires i < |xs| <= SIZE_LIMIT
    ensures DetachPath(Array(xs), "/" + Decimal(i), cs) == Some((xs[i], Array(RemoveAt(xs, i))))
  {
    hide Decimal, DecodeIndex, DecodeToken, SplitPath, EncodeKey, Resolve, Find;
    var d := Decimal(i);
    DecimalIsPlain(i);
    LastToken(d);
    FreeToken(d, '\0');
    DecimalIndex(i, "");
    assert d + "" == d;
    AtRoot(Array(xs), Array(RemoveAt(xs, i)));
  }

  lemma RemoveItem(xs: seq<Json>, i: nat, cs: bool)
    requires i < |xs| <= SIZE_LIMIT
    ensures Perform(Array(xs), Remove, "/" + Decimal(i), None, None, cs) == (0, Array(RemoveAt(xs, i)))
  {
    DetachItem(xs, i, cs);
  }

  lemma AddItem(xs: seq<Json>, i: nat, v: Json, cs: bool)
    requires i <= |xs| && i < SIZE_LIMIT
    ensures AddPath(Array(xs), "/" + Decimal(i), v, cs) == (0, Array(InsertAt(xs, i, v)))
  {
    hide Decimal, DecodeIndex, DecodeToken, SplitPath, EncodeKey, Resolve, Find;
    var d := Decimal(i);
    DecimalIsPlain(i);
    LastToken(d);
    FreeToken(d, '\0');
    DecimalIndex(i, "");
    assert d + "" == d;
    AtRoot(Array(xs), Array(InsertAt(xs, i, v)));
  }

  lemma AppendItem(xs: seq<Json>, v: Json, u: char, cs: bool)
    ensures Perform(Array(xs), Add, "/" + EncodeKey("-", u), Some(v), None, cs) == (0, Array(xs + [v]))
  {
    hide Decimal, DecodeIndex, DecodeToken, SplitPath, EncodeKey, Resolve, Find;
    FreeToken("-", u);
    LastToken("-");
    AtRoot(Array(xs), Array(xs + [v]));
  }

  lemma ReplaceItem(xs: seq<Json>, i: nat, v: Json, cs: bool)
    requires i < |xs| <= SIZE_LIMIT
    ensures Perform(Array(xs), Replace, "/" + Decimal(i), Some(v), None, cs) == (0, Array(xs[i := v]))
  {
    DetachItem(xs, i, cs);
    AddItem(RemoveAt(xs, i), i, v, cs);
    InsertRemoved(xs, i, v);
  }

  lemma InsertRemoved(xs: seq<Json>, i: nat, v: Json)
    requires i < |xs|
    ensures InsertAt(RemoveAt(xs, i), i, v) == xs[i := v]
  {
  }

  lemma RemoveMember(ms: seq<Member>, key: string, u: char, cs: bool)
    requires PlainKey(key) && Has(ms, key, false)
    ensures var i := Find(ms, key, false);
            && DetachPath(Object(ms), "/" + EncodeKey(key, u), cs) == Some((ms[i].value, Object(RemoveAt(ms, i))))
            && Perform(Object(ms), Remove, "/" + EncodeKey(key, u), None, None, cs) == (0, Object(RemoveAt(ms, i)))
  {
    hide Decimal, DecodeIndex, DecodeToken, SplitPath, EncodeKey, Resolve, Find;
    FreeToken(key, u);
    LastToken(key);
    AtRoot(Object(ms), Object(RemoveAt(ms, Find(ms, key, false))));
  }

  lemma AddMember(ms: seq<Member>, key: string, v: Json, u: char, cs: bool)
    requires PlainKey(key) && !Has(ms, key, cs)
    ensures AddPath(Object(ms), "/" + EncodeKey(key, u), v, cs) == (0, Object(ms + [Member(key, v)]))
    ensures Perform(Object(ms), Add, "/" + EncodeKey(key, u), Some(v), None, cs) == (0, Object(ms + [Member(key, v)]))
  {
    hide Decimal, DecodeIndex, DecodeToken, SplitPath, EncodeKey, Resolve, Find;
    FreeToken(key, u);
    LastToken(key);
    AtRoot(Object(ms), Object(ms + [Member(key, v)]));
  }

  lemma ReplaceMember(ms: seq<Member>, key: string, v: Json, u: char, cs: bool)
    requires PlainKey(key) && Has(ms, key, false) && !Has(RemoveAt(ms, Find(ms, key, false)), key, cs)
    ensures Perform(Object(ms), Replace, "/" + EncodeKey(key, u), Some(v), None, cs)
            == (0, Object(RemoveAt(ms, Find(ms, key, false)) + [Member(key, v)]))
  {
    RemoveMember(ms, key, u, cs);
    AddMember(RemoveAt(ms, Find(ms, key, false)), key, v, u, cs);
  }

  // ----- the state of the walk through two sorted member lists -----

  /** The first member whose key folds to this key is the one with this key, and still holds the old value. */
  ghost predicate Pending(cur: seq<Member>, m: Member, cs: bool) {
    var i := Find(cur, m.key, false);
    i < |cur| && KeyEq(cur[i].key, m.key, cs) && Same(cur[i].value, m.value, cs) && Unique(cur[i].value, false)
  }

  ghost predicate Settled(cur: seq<Member>, n: Member, cs: bool) {
    Has(cur, n.key, cs) && Same(cur[Find(cur, n.key, cs)].value, n.value, cs)
  }

  /** `fr`: members of the old object still to be treated; `tp`: members of the new one already there. */
  ghost predicate Walk(cur: seq<Member>, fr: seq<Member>, tp: seq<Member>, cs: bool) {
    && Distinct(cur, cs)
    && (forall k :: 0 <= k < |fr| ==> Pending(cur, fr[k], cs))
    && (forall k :: 0 <= k < |tp| ==> Settled(cur, tp[k], cs))
    && (forall i :: 0 <= i < |cur| ==> Has(fr, cur[i].key, cs) || Has(tp, cur[i].key, cs))
  }

  lemma PendingFound(cur: seq<Member>, m: Member, cs: bool)
    requires Pending(cur, m, cs) && Distinct(cur, cs)
    ensures Find(cur, m.key, cs) == Find(cur, m.key, false)
  {
    FindDistinct(cur, m.key, cs, Find(cur, m.key, false));
  }

  lemma FindRemoved(cur: seq<Member>, i: nat, key: string, cs: bool)
    requires i < |cur| && Find(cur, key, cs) != i
    ensures var j := Find(cur, key, cs);
            Find(RemoveAt(cur, i), key, cs) == if j < i then j else j - 1
  {
    hide Find, Key;
    var j := Find(cur, key, cs);
    var r := RemoveAt(cur, i);
    var k := if j < i then j else j - 1;
    if j < |cur| {
      FindIs(r, key, cs, k);
    } else {
      NotFound(r, key, cs);
    }
  }

  lemma NotFound(ms: seq<Member>, key: string, cs: bool)
    requires forall j :: 0 <= j < |ms| ==> !KeyEq(ms[j].key, key, cs)
    ensures Find(ms, key, cs) == |ms|
  {
  }

  lemma FindAppended(cur: seq<Member>, m: Member, key: string, cs: bool)
    ensures Find(cur + [m], key, cs) ==
            if Has(cur, key, cs) then Find(cur, key, cs) else if KeyEq(m.key, key, cs) then |cur| else |cur| + 1
  {
    hide Find, Key;
    var r := cur + [m];
    if Has(cur, key, cs) {
      FindIs(r, key, cs, Find(cur, key, cs));
    } else if KeyEq(m.key, key, cs) {
      FindIs(r, key, cs, |cur|);
    } else {
      NotFound(r, key, cs);
    }
  }

  lemma FindUpdated(cur: seq<Member>, i: nat, v: Json, key: string, cs: bool)
    requires i < |cur|
    ensures Find(cur[i := Member(cur[i].key, v)], key, cs) == Find(cur, key, cs)
  {
    hide Find, Key;
    var r := cur[i := Member(cur[i].key, v)];
    var j := Find(cur, key, cs);
    if j < |cur| { FindIs(r, key, cs, j); } else { NotFound(r, key, cs); }
  }

  lemma HasTail(fr: seq<Member>, key: string, cs: bool)
    requires fr != [] && !KeyEq(fr[0].key, key, cs)
    ensures Has(fr, key, cs) == Has(fr[1..], key, cs)
  {
  }

  lemma PendingKept(cur: seq<Member>, first: Member, m: Member, cs: bool)
    requires Pending(cur, first, cs) && Pending(cur, m, cs) && !KeyEq(first.key, m.key, false)
    ensures Pending(RemoveAt(cur, Find(cur, first.key, false)), m, cs)
  {
    hide Find, Key;
    FindRemoved(cur, Find(cur, first.key, false), m.key, false);
  }

  lemma SettledKept(cur: seq<Member>, first: Member, n: Member, cs: bool)
    requires Distinct(cur, cs) && Pending(cur, first, cs) && Settled(cur, n, cs) && !KeyEq(n.key, first.key, cs)
    ensures Settled(RemoveAt(cur, Find(cur, first.key, false)), n, cs)
  {
    hide Find, Key;
    FindRemoved(cur, Find(cur, first.key, false), n.key, cs);
  }

  lemma RemovedIsGone(cur: seq<Member>, first: Member, cs: bool)
    requires Distinct(cur, cs) && Pending(cur, first, cs)
    ensures var cur' := RemoveAt(cur, Find(cur, first.key, false));
            && Distinct(cur', cs) && !Has(cur', first.key, cs)
            && forall j :: 0 <= j < |cur'| ==> cur'[j] in cur && !KeyEq(first.key, cur'[j].key, cs)
  {
    hide Find, Key;
    var i := Find(cur, first.key, false);
    var cur' := RemoveAt(cur, i);
    forall j | 0 <= j < |cur'| ensures cur'[j] in cur && !KeyEq(first.key, cur'[j].key, cs) {
      var j' := if j < i then j else j + 1;
      assert cur'[j] == cur[j'] && !KeyEq(cur[j'].key, cur[i].key, cs);
    }
    NotFound(cur', first.key, cs);
  }

  /** Dropping the member that the next old key names. */
  lemma WalkRemove(cur: seq<Member>, fr: seq<Member>, tp: seq<Member>, cs: bool)
    requires Walk(cur, fr, tp, cs) && fr != [] && Distinct(fr, false)
    requires forall k :: 0 <= k < |tp| ==> !KeyEq(tp[k].key, fr[0].key, cs)
    ensures Has(cur, fr[0].key, false)
    ensures var cur' := RemoveAt(cur, Find(cur, fr[0].key, false));
            Walk(cur', fr[1..], tp, cs) && !Has(cur', fr[0].key, cs)
  {
    hide Find, Key;
    assert Pending(cur, fr[0], cs);
    RemovedIsGone(cur, fr[0], cs);
    var cur' := RemoveAt(cur, Find(cur, fr[0].key, false));
    forall k | 0 <= k < |fr[1..]| ensures Pending(cur', fr[1..][k], cs) {
      PendingKept(cur, fr[0], fr[k + 1], cs);
    }
    forall k | 0 <= k < |tp| ensures Settled(cur', tp[k], cs) {
      SettledKept(cur, fr[0], tp[k], cs);
    }
    forall j | 0 <= j < |cur'| ensures Has(fr[1..], cur'[j].key, cs) || Has(tp, cur'[j].key, cs) {
      var j' :| 0 <= j' < |cur| && cur[j'] == cur'[j];
      HasTail(fr, cur[j'].key, cs);
    }
  }

  /** Appending a member for the next new key. */
  lemma WalkAdd(cur: seq<Member>, fr: seq<Member>, tp: seq<Member>, n: Member, x: Member, cs: bool)
    requires Walk(cur, fr, tp, cs) && !Has(cur, x.key, cs) && KeyEq(x.key, n.key, cs) && Same(x.value, n.value, cs)
    ensures Walk(cur + [x], fr, tp + [n], cs)
  {
    hide Find, Key;
    var cur' := cur + [x];
    forall k | 0 <= k < |fr| ensures Pending(cur', fr[k], cs) {
      assert Pending(cur, fr[k], cs);
      FindAppended(cur, x, fr[k].key, false);
    }
    forall k | 0 <= k < |tp + [n]| ensures Settled(cur', (tp + [n])[k], cs) {
      FindAppended(cur, x, (tp + [n])[k].key, cs);
      if k < |tp| {
        assert Settled(cur, tp[k], cs);
      } else {
        FindCongruent(cur, x.key, n.key, cs);
      }
    }
    forall i | 0 <= i < |cur'| ensures Has(fr, cur'[i].key, cs) || Has(tp + [n], cur'[i].key, cs) {
      FindAppended(tp, n, cur'[i].key, cs);
    }
  }

  lemma PendingUpdated(cur: seq<Member>, first: Member, m: Member, v: Json, cs: bool)
    requires Pending(cur, first, cs) && Pending(cur, m, cs) && !KeyEq(first.key, m.key, false)
    ensures var i := Find(cur, first.key, false); Pending(cur[i := Member(cur[i].key, v)], m, cs)
  {
    hide Find, Key;
    FindUpdated(cur, Find(cur, first.key, false), v, m.key, false);
  }

  lemma SettledUpdated(cur: seq<Member>, first: Member, n: Member, v: Json, cs: bool)
    requires Distinct(cur, cs) && Pending(cur, first, cs)
    requires if KeyEq(first.key, n.key, cs) then Same(v, n.value, cs) else Settled(cur, n, cs)
    ensures var i := Find(cur, first.key, false); Settled(cur[i := Member(cur[i].key, v)], n, cs)
  {
    hide Find, Key;
    PendingFound(cur, first, cs);
    FindUpdated(cur, Find(cur, first.key, false), v, n.key, cs);
    if KeyEq(first.key, n.key, cs) { FindCongruent(cur, first.key, n.key, cs); }
  }

  /** Changing the value of the member that the next old key names, in place. */
  lemma WalkUpdate(cur: seq<Member>, fr: seq<Member>, tp: seq<Member>, n: Member, v: Json, cs: bool)
    requires Walk(cur, fr, tp, cs) && fr != [] && Distinct(fr, false)
    requires KeyEq(fr[0].key, n.key, cs) && Same(v, n.value, cs)
    requires forall k :: 0 <= k < |tp| ==> !KeyEq(tp[k].key, fr[0].key, cs)
    ensures Has(cur, fr[0].key, false)
    ensures var i := Find(cur, fr[0].key, false);
            Walk(cur[i := Member(cur[i].key, v)], fr[1..], tp + [n], cs)
  {
    hide Find, Key;
    assert Pending(cur, fr[0], cs);
    var i := Find(cur, fr[0].key, false);
    var cur' := cur[i := Member(cur[i].key, v)];
    forall k | 0 <= k < |fr[1..]| ensures Pending(cur', fr[1..][k], cs) {
      PendingUpdated(cur, fr[0], fr[k + 1], v, cs);
    }
    forall k | 0 <= k < |tp + [n]| ensures Settled(cur', (tp + [n])[k], cs) {
      SettledUpdated(cur, fr[0], (tp + [n])[k], v, cs);
    }
    forall j | 0 <= j < |cur'| ensures Has(fr[1..], cur'[j].key, cs) || Has(tp + [n], cur'[j].key, cs) {
      assert cur'[j].key == cur[j].key;
      FindAppended(tp, n, cur[j].key, cs);
      if !KeyEq(fr[0].key, cur[j].key, cs) { HasTail(fr, cur[j].key, cs); }
    }
  }

  // ----- the patches for one child, run on the whole tree -----

  /** What is generated for two documents is one replacement of the root, or lies below the root. */
  lemma DiffShape(from: Json, to: Json, u: char, cs: bool)
    ensures var ps := Diff("", from, to, u, cs);
            ps == [Patch(Replace, "", Some(to))] || AllBelow(ps)
  {
    if SameType(from, to) {
      if from.Array? {
        DiffItemsPrefixed("", from.items, to.items, 0, u, cs, Height(from));
      } else if from.Object? {
        SortedLower(from.members, cs, Height(from));
        DiffMembersPrefixed("", SortMembers(from.members, cs), SortMembers(to.members, cs), u, cs, Height(from));
      }
    }
  }

  lemma RunNothing(t: Json, cs: bool)
    ensures Run(t, [], cs) == (0, t)
  {
  }

  lemma RunOne(t: Json, p: Patch, cs: bool)
    requires Perform(t, p.op, p.path, p.value, None, cs).0 == 0
    ensures Run(t, [p], cs) == Perform(t, p.op, p.path, p.value, None, cs)
  {
    assert [p][1..] == [];
  }

  lemma ChildPatches(token: string, from: Json, to: Json, u: char, cs: bool)
    ensures Diff("" + ("/" + token), from, to, u, cs) == Prefixed("/" + token, Diff("", from, to, u, cs))
    ensures Diff("", from, to, u, cs) == [Patch(Replace, "", Some(to))]
            ==> Diff("" + ("/" + token), from, to, u, cs) == [Patch(Replace, "/" + token, Some(to))]
  {
    assert "" + ("/" + token) == "/" + token && "/" + token + "" == "/" + token;
    DiffPrefixed("/" + token, from, to, u, cs);
  }

  /** In an array the child keeps its position. */
  lemma RunItem(xs: seq<Json>, i: nat, from: Json, to: Json, c: Json, u: char, cs: bool)
    requires i < |xs| <= SIZE_LIMIT && Run(xs[i], Diff("", from, to, u, cs), cs) == (0, c)
    ensures Run(Array(xs), Diff("" + ("/" + Decimal(i)), from, to, u, cs), cs) == (0, Array(xs[i := c]))
  {
    hide Decimal;
    var ps, token := Diff("", from, to, u, cs), Decimal(i);
    ChildPatches(token, from, to, u, cs);
    DiffShape(from, to, u, cs);
    if ps == [Patch(Replace, "", Some(to))] {
      RunOne(xs[i], ps[0], cs);
      ReplaceItem(xs, i, to, cs);
      RunOne(Array(xs), Patch(Replace, "/" + token, Some(to)), cs);
    } else {
      ItemSelected(xs, i, cs);
      RunBelow(Array(xs), token, i, ps, cs);
    }
  }

  /** In an object the member keeps its place, or moves to the end under the old document's key. */
  lemma RunMember(cur: seq<Member>, key: string, from: Json, to: Json, c: Json, u: char, cs: bool)
    requires PlainKey(key) && Has(cur, key, false) && Find(cur, key, cs) == Find(cur, key, false)
    requires !Has(RemoveAt(cur, Find(cur, key, false)), key, cs)
    requires Run(cur[Find(cur, key, false)].value, Diff("", from, to, u, cs), cs) == (0, c)
    ensures var i := Find(cur, key, false);
            var r := Run(Object(cur), Diff(SubPath("", key, u), from, to, u, cs), cs);
            || r == (0, Object(cur[i := Member(cur[i].key, c)]))
            || r == (0, Object(RemoveAt(cur, i) + [Member(key, c)]))
  {
    hide Find, EncodeKey;
    var ps, i := Diff("", from, to, u, cs), Find(cur, key, false);
    FreeToken(key, u);
    ChildPatches(key, from, to, u, cs);
    DiffShape(from, to, u, cs);
    if ps == [Patch(Replace, "", Some(to))] {
      RunOne(cur[i].value, ps[0], cs);
      ReplaceMember(cur, key, to, u, cs);
      RunOne(Object(cur), Patch(Replace, "/" + key, Some(to)), cs);
    } else {
      MemberSelected(cur, key, cs);
      RunBelow(Object(cur), key, i, ps, cs);
    }
  }

  // ----- the round trip -----

  /** Two sorted lists to be walked, the old one with `tp` already treated on the new side. */
  ghost predicate Aligned(fr: seq<Member>, tp: seq<Member>, tr: seq<Member>, cs: bool) {
    && Increasing(fr, cs) && Increasing(tr, cs) && Distinct(fr, false) && Distinct(tp + tr, cs)
    && (forall j, k :: 0 <= j < |tp| && 0 <= k < |fr| ==> !KeyEq(tp[j].key, fr[k].key, cs))
    && (forall k :: 0 <= k < |fr| ==> PlainKey(fr[k].key) && Tidy(fr[k].value, false))
    && (forall k :: 0 <= k < |tr| ==> PlainKey(tr[k].key) && Tidy(tr[k].value, cs))
  }

  lemma AlignedNext(fr: seq<Member>, tp: seq<Member>, tr: seq<Member>, cs: bool)
    requires Aligned(fr, tp, tr, cs) && (fr != [] || tr != [])
    ensures var diff := KeyOrder(fr, tr, cs);
            && (diff <= 0 ==> fr != []) && (diff >= 0 ==> tr != [])
            && (diff == 0 ==> KeyEq(fr[0].key, tr[0].key, cs) && Aligned(fr[1..], tp + [tr[0]], tr[1..], cs))
            && (diff < 0 ==> Aligned(fr[1..], tp, tr, cs))
            && (diff > 0 ==> Aligned(fr, tp + [tr[0]], tr[1..], cs))
  {
    hide Key, Find, Tidy, Compare, PlainKey;
    var diff := KeyOrder(fr, tr, cs);
    if diff < 0 {
      DropOld(fr, tp, tr, cs);
    } else {
      forall k | (if diff == 0 then 1 else 0) <= k < |fr| ensures !KeyEq(tr[0].key, fr[k].key, cs) {
        NewKeyNotOld(fr, tr, k, cs);
      }
      if diff == 0 {
        CompareEqual(Key(fr[0].key, cs), Key(tr[0].key, cs));
        DropOld(fr, tp, tr, cs);
        MoveNew(fr[1..], tp, tr, cs);
      } else {
        MoveNew(fr, tp, tr, cs);
      }
    }
  }

  lemma DropOld(fr: seq<Member>, tp: seq<Member>, tr: seq<Member>, cs: bool)
    requires Aligned(fr, tp, tr, cs) && fr != []
    ensures Aligned(fr[1..], tp, tr, cs)
  {
    hide Key, Find, Tidy, Compare, PlainKey;
  }

  lemma MoveNew(fr: seq<Member>, tp: seq<Member>, tr: seq<Member>, cs: bool)
    requires Aligned(fr, tp, tr, cs) && tr != []
    requires forall k :: 0 <= k < |fr| ==> !KeyEq(tr[0].key, fr[k].key, cs)
    ensures Aligned(fr, tp + [tr[0]], tr[1..], cs)
  {
    hide Key, Find, Tidy, Compare, PlainKey;
    assert tp + [tr[0]] + tr[1..] == tp + tr;
  }

  lemma NewKeyNotOld(fr: seq<Member>, tr: seq<Member>, k: nat, cs: bool)
    requires Increasing(fr, cs) && tr != [] && k < |fr|
    requires KeyOrder(fr, tr, cs) > 0 || (KeyOrder(fr, tr, cs) == 0 && k > 0)
    ensures !KeyEq(tr[0].key, fr[k].key, cs)
  {
    var a, b, c := Key(tr[0].key, cs), Key(fr[0].key, cs), Key(fr[k].key, cs);
    CompareAntisymmetric(a, b);
    if k > 0 { CompareTransitive(a, b, c); }
    CompareEqual(a, c);
  }

  lemma NewKeyAbsent(cur: seq<Member>, fr: seq<Member>, tp: seq<Member>, tr: seq<Member>, cs: bool)
    requires Walk(cur, fr, tp, cs) && Aligned(fr, tp, tr, cs) && tr != [] && KeyOrder(fr, tr, cs) > 0
    ensures !Has(cur, tr[0].key, cs)
  {
    var n := tr[0];
    AlignedNext(fr, tp, tr, cs);
    assert (tp + [n])[|tp|] == n;
    forall k | 0 <= k < |tp| ensures !KeyEq(tp[k].key, n.key, cs) {
      assert (tp + tr)[k] == tp[k] && (tp + tr)[|tp|] == n;
    }
    if Has(cur, n.key, cs) {
      var i := Find(cur, n.key, cs);
      FindCongruent(fr, cur[i].key, n.key, cs);
      FindCongruent(tp, cur[i].key, n.key, cs);
    }
  }

  /** The main induction: run on any document that equals the old one up to member order, the patches
      succeed and leave one that equals the new one. */
  lemma {:induction false} DiffLeadsTo(f: Json, from: Json, to: Json, u: char, cs: bool) returns (r: Json)
    requires Tidy(from, false) && Tidy(to, cs)
    requires Same(f, from, cs) && Unique(f, false)
    ensures Run(f, Diff("", from, to, u, cs), cs) == (0, r) && Same(r, to, cs)
    decreases Height(from), 1, 0
  {
    TidyIsUnique(to, cs);
    SameReflexive(to, cs);
    if !SameType(from, to) {
      RunOne(f, Patch(Replace, "", Some(to)), cs);
      r := to;
    } else if from.Array? {
      assert [] + f.items == f.items;
      r := ItemsLeadTo([], f.items, from.items, to.items, u, cs, Height(from));
    } else if from.Object? {
      r := ObjectLeadsTo(f, from, to, u, cs);
    } else if (from.Number? || from.String?) && from != to {
      RunOne(f, Patch(Replace, "", Some(to)), cs);
      r := to;
    } else {
      r := f;
    }
  }

  /** An array whose common part `done` is finished: what the rest of its patches must lead to. */
  ghost predicate ItemsGoal(r: Json, done: seq<Json>, ys: seq<Json>, cs: bool) {
    && r.Array? && |r.items| == |done| + |ys| && r.items[..|done|] == done
    && forall k :: 0 <= k < |ys| ==> Same(r.items[|done| + k], ys[k], cs)
  }

  lemma ItemsGoalCons(r: Json, done: seq<Json>, c: Json, ys: seq<Json>, cs: bool)
    requires ys != [] && Same(c, ys[0], cs) && ItemsGoal(r, done + [c], ys[1..], cs)
    ensures ItemsGoal(r, done, ys, cs)
  {
    var i := |done|;
    assert r.items[..i] == r.items[..i + 1][..i] == done;
    assert r.items[i] == r.items[..i + 1][i] == c;
    forall k | 0 <= k < |ys| ensures Same(r.items[i + k], ys[k], cs) {
      if k > 0 { assert Same(r.items[i + 1 + (k - 1)], ys[1..][k - 1], cs); }
    }
  }

  lemma {:induction false} ItemsLeadTo(done: seq<Json>, rest: seq<Json>, xs: seq<Json>, ys: seq<Json>,
                                       u: char, cs: bool, h: nat) returns (r: Json)
    requires |rest| == |xs| && (xs != [] ==> |done| + |xs| <= SIZE_LIMIT) && LowerItems(xs, h)
    requires forall k :: 0 <= k < |rest| ==> Same(rest[k], xs[k], cs) && Unique(rest[k], false)
    requires forall k :: 0 <= k < |xs| ==> Tidy(xs[k], false)
    requires forall k :: 0 <= k < |ys| ==> Tidy(ys[k], cs)
    ensures Run(Array(done + rest), DiffItems("", xs, ys, |done|, u, cs, h), cs) == (0, r) && ItemsGoal(r, done, ys, cs)
    decreases h, 0, |xs| + |ys|
  {
    hide Decimal, EncodeKey, SubPath, Perform, Diff, RemoveAt, Tidy, Run;
    var all, i := done + rest, |done|;
    if xs != [] && ys != [] {
      var c := DiffLeadsTo(rest[0], xs[0], ys[0], u, cs);
      RunItem(all, i, xs[0], ys[0], c, u, cs);
      assert all[i := c] == (done + [c]) + rest[1..];
      r := ItemsLeadTo(done + [c], rest[1..], xs[1..], ys[1..], u, cs, h);
      RunAppend(Array(all), Diff("" + ("/" + Decimal(i)), xs[0], ys[0], u, cs),
                DiffItems("", xs[1..], ys[1..], i + 1, u, cs, h), cs);
      ItemsGoalCons(r, done, c, ys, cs);
    } else if xs != [] {
      var p := SurplusRemoved(done, rest, u, cs);
      r := ItemsLeadTo(done, rest[1..], xs[1..], ys, u, cs, h);
      RunAppend(Array(all), [p], DiffItems("", xs[1..], ys, i, u, cs, h), cs);
    } else if ys != [] {
      assert all == done;
      var p := MissingAppended(done, ys[0], u, cs);
      r := ItemsLeadTo(done + [ys[0]], [], xs, ys[1..], u, cs, h);
      assert done + [ys[0]] + [] == done + [ys[0]];
      RunAppend(Array(all), [p], DiffItems("", xs, ys[1..], i + 1, u, cs, h), cs);
      ItemsGoalCons(r, done, ys[0], ys, cs);
    } else {
      assert all == done;
      RunNothing(Array(all), cs);
      r := Array(all);
    }
  }

  /** Each removal names the position behind the common part, and removes the first surplus item. */
  lemma SurplusRemoved(done: seq<Json>, rest: seq<Json>, u: char, cs: bool) returns (p: Patch)
    requires rest != [] && |done| + |rest| <= SIZE_LIMIT
    ensures p == Patch(Remove, SubPath("", Decimal(|done|), u), None)
    ensures Run(Array(done + rest), [p], cs) == (0, Array(done + rest[1..]))
  {
    hide Decimal, Perform;
    var all, i := done + rest, |done|;
    p := Patch(Remove, SubPath("", Decimal(i), u), None);
    DecimalIsPlain(i);
    FreeToken(Decimal(i), u);
    assert p.path == "/" + Decimal(i);
    RemoveItem(all, i, cs);
    assert RemoveAt(all, i) == done + rest[1..];
    RunOne(Array(all), p, cs);
  }

  lemma MissingAppended(done: seq<Json>, v: Json, u: char, cs: bool) returns (p: Patch)
    requires Tidy(v, cs)
    ensures p == Patch(Add, SubPath("", "-", u), Some(v))
    ensures Run(Array(done), [p], cs) == (0, Array(done + [v])) && Same(v, v, cs)
  {
    hide Perform;
    p := Patch(Add, SubPath("", "-", u), Some(v));
    assert p.path == "/" + EncodeKey("-", u);
    AppendItem(done, v, u, cs);
    RunOne(Array(done), p, cs);
    TidyIsUnique(v, cs);
    SameReflexive(v, cs);
  }

  lemma {:induction false} ObjectLeadsTo(f: Json, from: Json, to: Json, u: char, cs: bool) returns (r: Json)
    requires from.Object? && to.Object? && Tidy(from, false) && Tidy(to, cs)
    requires Same(f, from, cs) && Unique(f, false)
    ensures Run(f, Diff("", from, to, u, cs), cs) == (0, r) && Same(r, to, cs)
    decreases Height(from), 0, |from.members| + |to.members| + 1
  {
    var fr, tr := SortMembers(from.members, cs), SortMembers(to.members, cs);
    SortedLower(from.members, cs, Height(from));
    WalkStart(f, from, to, cs);
    var cur := MembersLeadTo(f.members, fr, [], tr, u, cs, Height(from));
    r := Object(cur);
    assert [] + tr == tr;
    WalkEnd(cur, to, cs);
  }

  lemma WalkStart(f: Json, from: Json, to: Json, cs: bool)
    requires from.Object? && to.Object? && Tidy(from, false) && Tidy(to, cs)
    requires Same(f, from, cs) && Unique(f, false)
    ensures Walk(f.members, SortMembers(from.members, cs), [], cs)
    ensures Aligned(SortMembers(from.members, cs), [], SortMembers(to.members, cs), cs)
  {
    var ms, cur := from.members, f.members;
    var fr, tr := SortMembers(ms, cs), SortMembers(to.members, cs);
    UniqueFoldedIsUnique(Object(ms), cs) by { TidyIsUnique(from, false); }
    SortIncreasing(ms, cs);
    SortIncreasing(to.members, cs);
    DistinctPermutation(ms, fr, false);
    assert [] + tr == tr;
    forall k | 0 <= k < |fr| ensures Pending(cur, fr[k], cs) && PlainKey(fr[k].key) && Tidy(fr[k].value, false) {
      var j := SameElements(fr, ms, k);
      StartPending(cur, ms, j, cs);
    }
    forall k | 0 <= k < |tr| ensures PlainKey(tr[k].key) && Tidy(tr[k].value, cs) {
      var j := SameElements(tr, to.members, k);
    }
    forall i | 0 <= i < |cur| ensures Has(fr, cur[i].key, cs) {
      FindPermutation(ms, fr, cur[i].key, cs);
    }
  }

  lemma StartPending(cur: seq<Member>, ms: seq<Member>, j: nat, cs: bool)
    requires j < |ms| && SameMembers(cur, ms, cs) && Distinct(ms, cs) && Distinct(cur, false)
    requires forall i :: 0 <= i < |cur| ==> Unique(cur[i].value, false)
    ensures Pending(cur, ms[j], cs)
  {
    hide Find, Key;
    assert Has(cur, ms[j].key, cs);
    var i := Find(cur, ms[j].key, cs);
    ExactImpliesFolded(cur[i].key, ms[j].key, cs);
    FindDistinct(cur, ms[j].key, false, i);
    FindDistinct(ms, cur[i].key, cs, j);
  }

  lemma WalkEnd(cur: seq<Member>, to: Json, cs: bool)
    requires to.Object? && Tidy(to, cs) && Walk(cur, [], SortMembers(to.members, cs), cs)
    ensures Same(Object(cur), to, cs)
  {
    var ns, tr := to.members, SortMembers(to.members, cs);
    DistinctPermutation(ns, tr, cs);
    forall i | 0 <= i < |cur|
      ensures Has(ns, cur[i].key, cs) && Same(cur[i].value, ns[Find(ns, cur[i].key, cs)].value, cs)
    {
      assert Has(tr, cur[i].key, cs);
      FindPermutation(ns, tr, cur[i].key, cs);
      var n := tr[Find(tr, cur[i].key, cs)];
      assert Settled(cur, n, cs);
      FindDistinct(cur, n.key, cs, i);
    }
    forall j | 0 <= j < |ns| ensures Has(cur, ns[j].key, cs) {
      var k := SameElements(ns, tr, j);
      assert Settled(cur, tr[k], cs);
    }
    assert SameMembers(cur, ns, cs);
  }

  lemma {:induction false} MembersLeadTo(cur: seq<Member>, fr: seq<Member>, tp: seq<Member>, tr: seq<Member>,
                                         u: char, cs: bool, h: nat) returns (r: seq<Member>)
    requires LowerMembers(fr, h) && Walk(cur, fr, tp, cs) && Aligned(fr, tp, tr, cs)
    ensures Run(Object(cur), DiffMembers("", fr, tr, u, cs, h), cs) == (0, Object(r))
    ensures Walk(r, [], tp + tr, cs)
    decreases h, 0, |fr| + |tr|
  {
    if fr == [] && tr == [] {
      assert tp + tr == tp;
      RunNothing(Object(cur), cs);
      return cur;
    }
    hide Walk, Aligned, Perform, Find, SubPath, Diff, Key, Run, KeyOrder;
    AlignedNext(fr, tp, tr, cs);
    var diff := KeyOrder(fr, tr, cs);
    if diff == 0 {
      var c := CommonMember(cur, fr, tp, tr, u, cs, h);
      r := MembersLeadTo(c, fr[1..], tp + [tr[0]], tr[1..], u, cs, h);
      RunAppend(Object(cur), Diff(SubPath("", fr[0].key, u), fr[0].value, tr[0].value, u, cs),
                DiffMembers("", fr[1..], tr[1..], u, cs, h), cs);
      HeadMoves(tp, tr);
    } else if diff < 0 {
      var c, p := OldMember(cur, fr, tp, tr, u, cs);
      r := MembersLeadTo(c, fr[1..], tp, tr, u, cs, h);
      RunAppend(Object(cur), [p], DiffMembers("", fr[1..], tr, u, cs, h), cs);
    } else {
      var c, p := NewMember(cur, fr, tp, tr, u, cs);
      r := MembersLeadTo(c, fr, tp + [tr[0]], tr[1..], u, cs, h);
      RunAppend(Object(cur), [p], DiffMembers("", fr, tr[1..], u, cs, h), cs);
      HeadMoves(tp, tr);
    }
  }

  lemma HeadMoves(tp: seq<Member>, tr: seq<Member>)
    requires tr != []
    ensures tp + [tr[0]] + tr[1..] == tp + tr
  {
  }

  lemma OldMember(cur: seq<Member>, fr: seq<Member>, tp: seq<Member>, tr: seq<Member>, u: char, cs: bool)
    returns (c: seq<Member>, p: Patch)
    requires Walk(cur, fr, tp, cs) && Aligned(fr, tp, tr, cs) && fr != []
    ensures p == Patch(Remove, SubPath("", fr[0].key, u), None)
    ensures Run(Object(cur), [p], cs) == (0, Object(c)) && Walk(c, fr[1..], tp, cs)
  {
    hide Perform, Find, EncodeKey;
    p := Patch(Remove, SubPath("", fr[0].key, u), None);
    WalkRemove(cur, fr, tp, cs);
    RemoveMember(cur, fr[0].key, u, cs);
    assert p.path == "/" + EncodeKey(fr[0].key, u);
    RunOne(Object(cur), p, cs);
    c := RemoveAt(cur, Find(cur, fr[0].key, false));
  }

  lemma NewMember(cur: seq<Member>, fr: seq<Member>, tp: seq<Member>, tr: seq<Member>, u: char, cs: bool)
    returns (c: seq<Member>, p: Patch)
    requires Walk(cur, fr, tp, cs) && Aligned(fr, tp, tr, cs) && tr != [] && KeyOrder(fr, tr, cs) > 0
    ensures p == Patch(Add, SubPath("", tr[0].key, u), Some(tr[0].value))
    ensures Run(Object(cur), [p], cs) == (0, Object(c)) && Walk(c, fr, tp + [tr[0]], cs)
  {
    hide Perform, Find, EncodeKey;
    var n := tr[0];
    p := Patch(Add, SubPath("", n.key, u), Some(n.value));
    NewKeyAbsent(cur, fr, tp, tr, cs);
    TidyIsUnique(n.value, cs);
    SameReflexive(n.value, cs);
    WalkAdd(cur, fr, tp, n, n, cs);
    AddMember(cur, n.key, n.value, u, cs);
    assert p.path == "/" + EncodeKey(n.key, u);
    RunOne(Object(cur), p, cs);
    c := cur + [n];
    assert Member(n.key, n.value) == n;
  }

  lemma {:induction false} CommonMember(cur: seq<Member>, fr: seq<Member>, tp: seq<Member>, tr: seq<Member>,
                                        u: char, cs: bool, h: nat) returns (c: seq<Member>)
    requires LowerMembers(fr, h) && Walk(cur, fr, tp, cs) && Aligned(fr, tp, tr, cs)
    requires fr != [] && tr != [] && KeyOrder(fr, tr, cs) == 0
    ensures Run(Object(cur), Diff(SubPath("", fr[0].key, u), fr[0].value, tr[0].value, u, cs), cs) == (0, Object(c))
    ensures Walk(c, fr[1..], tp + [tr[0]], cs)
    decreases h, 0, |fr| + |tr| - 1
  {
    hide Find, SubPath, Diff, Key, Tidy;
    var m, n := fr[0], tr[0];
    var i := Find(cur, m.key, false);
    AlignedNext(fr, tp, tr, cs);
    assert Pending(cur, m, cs);
    PendingFound(cur, m, cs);
    WalkRemove(cur, fr, tp, cs);
    var v := DiffLeadsTo(cur[i].value, m.value, n.value, u, cs);
    RunMember(cur, m.key, m.value, n.value, v, u, cs);
    WalkUpdate(cur, fr, tp, n, v, cs);
    WalkAdd(RemoveAt(cur, i), fr[1..], tp, n, Member(m.key, v), cs);
    c := Run(Object(cur), Diff(SubPath("", m.key, u), m.value, n.value, u, cs), cs).1.members;
  }

  /** Patches generated from two documents and applied to the first report success and leave a document
      that compares equal to the second, whatever member order the first has been left in. */
  lemma PatchRoundTrip(f: Json, from: Json, to: Json, u: char, cs: bool)
    requires Tidy(from, false) && Tidy(to, cs)
    requires Same(f, from, cs) && Unique(f, false)
    ensures var patches := GeneratePatches(from, to, u, cs);
            var (status, r) := ApplyFrom(f, patches.items, cs);
            && status == 0
            && Same(r, to, cs)
            && CompareJson(r, to, cs)
  {
    DiffPrefixed("", from, to, u, cs);
    ApplyIsRun(f, Diff("", from, to, u, cs), cs);
    var r := DiffLeadsTo(f, from, to, u, cs);
    TidyIsUnique(to, cs);
    SameIsUnique(r, to, cs);
    SamePlain(r, to, cs);
    CompareDecidesSame(r, to, cs);
  }
}

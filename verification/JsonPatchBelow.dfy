/** A patch whose path lies below a child acts on the tree as the shortened patch acts on the child. */
module JsonPatchBelow {
  import opened CStrings
  import opened JsonTree
  import opened JsonPointer
  import opened JsonPaths
  import opened JsonPatch
  import opened Options
  import opened Sequences

  /** The operations that generated patches use. */
  predicate Generated(op: Op) {
    op.Add? || op.Remove? || op.Replace?
  }

  /** Generated patches, one after the other. */
  function Run(t: Json, ps: seq<Patch>, cs: bool): (nat, Json)
    decreases |ps|
  {
    if ps == [] then (0, t)
    else
      var (status, t') := Perform(t, ps[0].op, ps[0].path, ps[0].value, None, cs);
      if status != 0 then (status, t') else Run(t', ps[1..], cs)
  }

  lemma {:induction false} RunAppend(t: Json, ps: seq<Patch>, qs: seq<Patch>, cs: bool)
    requires Run(t, ps, cs).0 == 0
    ensures Run(t, ps + qs, cs) == Run(Run(t, ps, cs).1, qs, cs)
    decreases |ps|
  {
    if ps == [] {
      assert ps + qs == qs;
    } else {
      assert (ps + qs)[1..] == ps[1..] + qs;
      RunAppend(Perform(t, ps[0].op, ps[0].path, ps[0].value, None, cs).1, ps[1..], qs, cs);
    }
  }

  // ----- the generated objects mean the generated patches -----

  lemma GeneratedMember(p: Patch, cs: bool)
    ensures GetMember(ToJson(p), "op", cs) == Some(String(OpName(p.op)))
    ensures GetMember(ToJson(p), "path", cs) == Some(String(p.path))
    ensures GetMember(ToJson(p), "value", cs) == p.value
  {
    var ms := ToJson(p).members;
    assert |Key("op", cs)| == 2 && |Key("path", cs)| == 4 && |Key("value", cs)| == 5;
    FindIs(ms, "op", cs, 0);
    FindIs(ms, "path", cs, 1);
    if p.value.Some? { FindIs(ms, "value", cs, 2); }
  }

  lemma FromUnused(t: Json, op: Op, path: string, value: Option<Json>, from: Option<Json>, cs: bool)
    requires Generated(op)
    ensures Perform(t, op, path, value, from, cs) == Perform(t, op, path, value, None, cs)
  {
  }

  lemma ApplyOne(t: Json, p: Patch, cs: bool)
    requires Generated(p.op)
    ensures ApplyPatch(t, ToJson(p), cs) == Perform(t, p.op, p.path, p.value, None, cs)
  {
    GeneratedMember(p, cs);
    FromUnused(t, p.op, p.path, p.value, GetMember(ToJson(p), "from", cs), cs);
  }

  lemma {:induction false} ApplyIsRun(t: Json, ps: seq<Patch>, cs: bool)
    requires forall i :: 0 <= i < |ps| ==> Generated(ps[i].op)
    ensures ApplyFrom(t, AllToJson(ps), cs) == Run(t, ps, cs)
    decreases |ps|
  {
    if ps != [] {
      ApplyOne(t, ps[0], cs);
      assert AllToJson(ps)[1..] == AllToJson(ps[1..]);
      ApplyIsRun(Perform(t, ps[0].op, ps[0].path, ps[0].value, None, cs).1, ps[1..], cs);
    }
  }

  // ----- one token down -----

  /** The token selects the `i`-th child, whatever follows it. */
  ghost predicate Selects(t: Json, token: string, i: nat, cs: bool) {
    && '/' !in token && i < ChildCount(t)
    && forall rest :: EndsToken(rest) ==> ChildIndex(t, token + rest, cs) == Some(i)
  }

  lemma {:induction false} FindTokenKeys(ms: seq<Member>, ns: seq<Member>, pointer: string, cs: bool)
    requires |ms| == |ns| && forall j :: 0 <= j < |ms| ==> ms[j].key == ns[j].key
    ensures FindToken(ms, pointer, cs) == FindToken(ns, pointer, cs)
  {
    if ms != [] { FindTokenKeys(ms[1..], ns[1..], pointer, cs); }
  }

  lemma SelectsKept(t: Json, token: string, i: nat, v: Json, cs: bool)
    requires Selects(t, token, i, cs)
    ensures Selects(WithChild(t, i, v), token, i, cs)
  {
    var t' := WithChild(t, i, v);
    forall rest | EndsToken(rest) ensures ChildIndex(t', token + rest, cs) == Some(i) {
      assert ChildIndex(t, token + rest, cs) == Some(i);
      if t.Object? { FindTokenKeys(t.members, t'.members, token + rest, cs); }
    }
  }

  lemma ResolveBelow(t: Json, token: string, i: nat, q: string, cs: bool)
    requires Selects(t, token, i, cs) && EndsToken(q)
    ensures var r := Resolve(Child(t, i), q, cs);
            Resolve(t, "/" + token + q, cs) == if r.Some? then Some([i] + r.value) else None
  {
    assert ("/" + token + q)[1..] == token + q;
    SkipTokenIs(token, q);
  }

  lemma PathStep(t: Json, i: nat, at: Path, v: Json)
    requires i < ChildCount(t) && ValidPath(Child(t, i), at)
    ensures ValidPath(t, [i] + at)
    ensures At(t, [i] + at) == At(Child(t, i), at)
    ensures Put(t, [i] + at, v) == WithChild(t, i, Put(Child(t, i), at, v))
  {
    assert ([i] + at)[1..] == at;
  }

  ghost predicate IsBelow(q: string) {
    q != "" && q[0] == '/'
  }

  /** A prefix of a path stays in front of the parent. */
  lemma {:induction false} SplitBelow(pre: string, q: string)
    requires IsBelow(q)
    ensures var s := SplitPath(q);
            s.Some? && EndsToken(s.value.0) && SplitPath(pre + q) == Some((pre + s.value.0, s.value.1))
    decreases |q|
  {
    var init := q[..|q| - 1];
    assert (pre + q)[..|pre + q| - 1] == pre + init;
    if q[|q| - 1] != '/' { SplitBelow(pre, init); }
  }

  /** The parent named by a path below the child is the parent named by the rest of the path. */
  lemma ParentBelow(t: Json, token: string, i: nat, q: string, cs: bool) returns (parent: string, last: string)
    requires Selects(t, token, i, cs) && IsBelow(q)
    ensures SplitPath(q) == Some((parent, last)) && SplitPath("/" + token + q) == Some(("/" + token + parent, last))
    ensures var r := Resolve(Child(t, i), parent, cs);
            Resolve(t, "/" + token + parent, cs) == if r.Some? then Some([i] + r.value) else None
  {
    SplitBelow("/" + token, q);
    parent, last := SplitPath(q).value.0, SplitPath(q).value.1;
    ResolveBelow(t, token, i, parent, cs);
  }

  lemma DetachAtBelow(t: Json, i: nat, r: Option<Path>, token: string)
    requires i < ChildCount(t) && (r.Some? ==> ValidPath(Child(t, i), r.value))
    ensures var r' := if r.Some? then Some([i] + r.value) else None;
            var d := DetachAt(Child(t, i), r, token);
            && (r'.Some? ==> ValidPath(t, r'.value))
            && DetachAt(t, r', token) == if d.Some? then Some((d.value.0, WithChild(t, i, d.value.1))) else None
  {
    if r.Some? {
      var parent := At(Child(t, i), r.value);
      var d := DetachChild(parent, token);
      PathStep(t, i, r.value, if d.Some? then d.value.1 else parent);
    }
  }

  lemma DetachBelow(t: Json, token: string, i: nat, q: string, cs: bool)
    requires Selects(t, token, i, cs) && IsBelow(q)
    ensures var d := DetachPath(Child(t, i), q, cs);
            DetachPath(t, "/" + token + q, cs)
            == if d.Some? then Some((d.value.0, WithChild(t, i, d.value.1))) else None
  {
    var parent, last := ParentBelow(t, token, i, q, cs);
    DetachAtBelow(t, i, Resolve(Child(t, i), parent, cs), DecodeToken(last));
  }

  lemma WithChildSame(t: Json, i: nat)
    requires i < ChildCount(t)
    ensures WithChild(t, i, Child(t, i)) == t
  {
    if t.Array? { assert t.items[i := t.items[i]] == t.items; }
    if t.Object? { assert t.members[i := Member(t.members[i].key, t.members[i].value)] == t.members; }
  }

  lemma AddAtBelow(t: Json, i: nat, r: Option<Path>, token: string, v: Json, cs: bool)
    requires i < ChildCount(t) && (r.Some? ==> ValidPath(Child(t, i), r.value))
    ensures var r' := if r.Some? then Some([i] + r.value) else None;
            var (s, c) := AddAt(Child(t, i), r, token, v, cs);
            && (r'.Some? ==> ValidPath(t, r'.value))
            && AddAt(t, r', token, v, cs) == (s, WithChild(t, i, c))
  {
    WithChildSame(t, i);
    if r.Some? {
      PathStep(t, i, r.value, AddChild(At(Child(t, i), r.value), token, v, cs).1);
    }
  }

  lemma AddBelow(t: Json, token: string, i: nat, q: string, v: Json, cs: bool)
    requires Selects(t, token, i, cs) && IsBelow(q)
    ensures var (s, r) := AddPath(Child(t, i), q, v, cs);
            AddPath(t, "/" + token + q, v, cs) == (s, WithChild(t, i, r))
  {
    var parent, last := ParentBelow(t, token, i, q, cs);
    AddAtBelow(t, i, Resolve(Child(t, i), parent, cs), DecodeToken(last), v, cs);
  }

  lemma WithChildTwice(t: Json, i: nat, v: Json, w: Json)
    requires i < ChildCount(t)
    ensures WithChild(WithChild(t, i, v), i, w) == WithChild(t, i, w)
  {
  }

  lemma PerformBelow(t: Json, op: Op, token: string, i: nat, q: string, value: Option<Json>, cs: bool)
    requires Selects(t, token, i, cs) && IsBelow(q) && Generated(op)
    ensures var (s, r) := Perform(Child(t, i), op, q, value, None, cs);
            Perform(t, op, "/" + token + q, value, None, cs) == (s, WithChild(t, i, r))
  {
    WithChildSame(t, i);
    if op.Remove? {
      DetachBelow(t, token, i, q, cs);
    } else if op.Add? {
      if value.Some? { AddBelow(t, token, i, q, value.value, cs); }
    } else {
      DetachBelow(t, token, i, q, cs);
      var d := DetachPath(Child(t, i), q, cs);
      if d.Some? && value.Some? {
        SelectsKept(t, token, i, d.value.1, cs);
        AddBelow(WithChild(t, i, d.value.1), token, i, q, value.value, cs);
        WithChildTwice(t, i, d.value.1, AddPath(d.value.1, q, value.value, cs).1);
      }
    }
  }

  // ----- lists of patches -----

  function Prefixed(pre: string, ps: seq<Patch>): (r: seq<Patch>)
    ensures |r| == |ps|
    ensures forall i :: 0 <= i < |ps| ==> r[i] == Patch(ps[i].op, pre + ps[i].path, ps[i].value)
  {
    seq(|ps|, i requires 0 <= i < |ps| => Patch(ps[i].op, pre + ps[i].path, ps[i].value))
  }

  ghost predicate AllBelow(ps: seq<Patch>) {
    forall i :: 0 <= i < |ps| ==> IsBelow(ps[i].path) && Generated(ps[i].op)
  }

  /** The patches for one child, run on the whole tree, run on that child. */
  lemma {:induction false} RunBelow(t: Json, token: string, i: nat, ps: seq<Patch>, cs: bool)
    requires Selects(t, token, i, cs) && AllBelow(ps)
    ensures var (s, r) := Run(Child(t, i), ps, cs);
            Run(t, Prefixed("/" + token, ps), cs) == (s, WithChild(t, i, r))
    decreases |ps|
  {
    var qs := Prefixed("/" + token, ps);
    if ps == [] {
      WithChildSame(t, i);
    } else {
      PerformBelow(t, ps[0].op, token, i, ps[0].path, ps[0].value, cs);
      var (s, r) := Perform(Child(t, i), ps[0].op, ps[0].path, ps[0].value, None, cs);
      if s == 0 {
        SelectsKept(t, token, i, r, cs);
        RunBelow(WithChild(t, i, r), token, i, ps[1..], cs);
        assert qs[1..] == Prefixed("/" + token, ps[1..]);
        WithChildTwice(t, i, r, Run(r, ps[1..], cs).1);
      }
    }
  }

  lemma PrefixedAppend(pre: string, ps: seq<Patch>, qs: seq<Patch>)
    ensures Prefixed(pre, ps + qs) == Prefixed(pre, ps) + Prefixed(pre, qs)
  {
  }

  lemma PrefixedTwice(a: string, b: string, ps: seq<Patch>)
    ensures Prefixed(a, Prefixed(b, ps)) == Prefixed(a + b, ps)
  {
    forall i | 0 <= i < |ps| ensures a + (b + ps[i].path) == a + b + ps[i].path {
      Associative(a, b, ps[i].path);
    }
  }

  // ----- generation commutes with the path it starts from -----

  /** The patches generated below a path are the patches generated from the root with that path in front. */
  lemma {:induction false} DiffPrefixed(path: string, from: Json, to: Json, u: char, cs: bool)
    ensures Diff(path, from, to, u, cs) == Prefixed(path, Diff("", from, to, u, cs))
    ensures forall i :: 0 <= i < |Diff("", from, to, u, cs)| ==> Generated(Diff("", from, to, u, cs)[i].op)
    decreases Height(from), 1, 0
  {
    assert path + "" == path;
    if SameType(from, to) {
      if from.Array? {
        DiffItemsPrefixed(path, from.items, to.items, 0, u, cs, Height(from));
      } else if from.Object? {
        SortedLower(from.members, cs, Height(from));
        DiffMembersPrefixed(path, SortMembers(from.members, cs), SortMembers(to.members, cs), u, cs, Height(from));
      }
    }
  }

  /** The patches for a child: below its token, and the same from any path. */
  lemma ChildDiff(path: string, token: string, from: Json, to: Json, u: char, cs: bool)
    requires Diff(path + ("/" + token), from, to, u, cs) == Prefixed(path + ("/" + token), Diff("", from, to, u, cs))
    requires Diff("" + ("/" + token), from, to, u, cs) == Prefixed("" + ("/" + token), Diff("", from, to, u, cs))
    ensures Diff(path + ("/" + token), from, to, u, cs) == Prefixed(path, Diff("" + ("/" + token), from, to, u, cs))
  {
    assert "" + ("/" + token) == "/" + token;
    PrefixedTwice(path, "/" + token, Diff("", from, to, u, cs));
  }

  ghost predicate BelowAndPrefixed(path: string, rooted: seq<Patch>, ps: seq<Patch>) {
    AllBelow(rooted) && ps == Prefixed(path, rooted)
  }

  lemma BelowAppend(path: string, a: seq<Patch>, b: seq<Patch>, ps: seq<Patch>, qs: seq<Patch>)
    requires BelowAndPrefixed(path, a, ps) && BelowAndPrefixed(path, b, qs)
    ensures BelowAndPrefixed(path, a + b, ps + qs)
  {
    PrefixedAppend(path, a, b);
  }

  lemma BelowOne(path: string, op: Op, suffix: string, value: Option<Json>, u: char)
    requires Generated(op)
    ensures BelowAndPrefixed(path, [Patch(op, SubPath("", suffix, u), value)], [Patch(op, SubPath(path, suffix, u), value)])
  {
    assert "" + ("/" + EncodeKey(suffix, u)) == "/" + EncodeKey(suffix, u);
  }

  lemma BelowChild(path: string, token: string, from: Json, to: Json, u: char, cs: bool)
    requires Diff(path + ("/" + token), from, to, u, cs) == Prefixed(path + ("/" + token), Diff("", from, to, u, cs))
    requires Diff("" + ("/" + token), from, to, u, cs) == Prefixed("" + ("/" + token), Diff("", from, to, u, cs))
    requires forall i :: 0 <= i < |Diff("", from, to, u, cs)| ==> Generated(Diff("", from, to, u, cs)[i].op)
    ensures BelowAndPrefixed(path, Diff("" + ("/" + token), from, to, u, cs), Diff(path + ("/" + token), from, to, u, cs))
  {
    ChildDiff(path, token, from, to, u, cs);
    assert "" + ("/" + token) == "/" + token;
  }

  lemma {:induction false} DiffItemsPrefixed(path: string, xs: seq<Json>, ys: seq<Json>, index: nat, u: char, cs: bool, h: nat)
    requires LowerItems(xs, h)
    ensures BelowAndPrefixed(path, DiffItems("", xs, ys, index, u, cs, h), DiffItems(path, xs, ys, index, u, cs, h))
    decreases h, 0, |xs| + |ys|
  {
    if xs != [] && ys != [] {
      DiffPrefixed(path + ("/" + Decimal(index)), xs[0], ys[0], u, cs);
      DiffPrefixed("" + ("/" + Decimal(index)), xs[0], ys[0], u, cs);
      DiffItemsPrefixed(path, xs[1..], ys[1..], index + 1, u, cs, h);
      BelowChild(path, Decimal(index), xs[0], ys[0], u, cs);
      BelowAppend(path, Diff("" + ("/" + Decimal(index)), xs[0], ys[0], u, cs), DiffItems("", xs[1..], ys[1..], index + 1, u, cs, h),
                  Diff(path + ("/" + Decimal(index)), xs[0], ys[0], u, cs), DiffItems(path, xs[1..], ys[1..], index + 1, u, cs, h));
    } else if xs != [] {
      DiffItemsPrefixed(path, xs[1..], ys, index, u, cs, h);
      BelowOne(path, Remove, Decimal(index), None, u);
      BelowAppend(path, [Patch(Remove, SubPath("", Decimal(index), u), None)], DiffItems("", xs[1..], ys, index, u, cs, h),
                  [Patch(Remove, SubPath(path, Decimal(index), u), None)], DiffItems(path, xs[1..], ys, index, u, cs, h));
    } else if ys != [] {
      DiffItemsPrefixed(path, xs, ys[1..], index + 1, u, cs, h);
      BelowOne(path, Add, "-", Some(ys[0]), u);
      BelowAppend(path, [Patch(Add, SubPath("", "-", u), Some(ys[0]))], DiffItems("", xs, ys[1..], index + 1, u, cs, h),
                  [Patch(Add, SubPath(path, "-", u), Some(ys[0]))], DiffItems(path, xs, ys[1..], index + 1, u, cs, h));
    }
  }

  lemma {:induction false} DiffMembersPrefixed(path: string, ms: seq<Member>, ns: seq<Member>, u: char, cs: bool, h: nat)
    requires LowerMembers(ms, h)
    ensures BelowAndPrefixed(path, DiffMembers("", ms, ns, u, cs, h), DiffMembers(path, ms, ns, u, cs, h))
    decreases h, 0, |ms| + |ns|
  {
    if ms != [] || ns != [] {
      var diff := KeyOrder(ms, ns, cs);
      if diff == 0 {
        var token := EncodeKey(ms[0].key, u);
        DiffPrefixed(path + ("/" + token), ms[0].value, ns[0].value, u, cs);
        DiffPrefixed("" + ("/" + token), ms[0].value, ns[0].value, u, cs);
        DiffMembersPrefixed(path, ms[1..], ns[1..], u, cs, h);
        BelowChild(path, token, ms[0].value, ns[0].value, u, cs);
        BelowAppend(path, Diff("" + ("/" + token), ms[0].value, ns[0].value, u, cs), DiffMembers("", ms[1..], ns[1..], u, cs, h),
                    Diff(path + ("/" + token), ms[0].value, ns[0].value, u, cs), DiffMembers(path, ms[1..], ns[1..], u, cs, h));
      } else if diff < 0 {
        DiffMembersPrefixed(path, ms[1..], ns, u, cs, h);
        BelowOne(path, Remove, ms[0].key, None, u);
        BelowAppend(path, [Patch(Remove, SubPath("", ms[0].key, u), None)], DiffMembers("", ms[1..], ns, u, cs, h),
                    [Patch(Remove, SubPath(path, ms[0].key, u), None)], DiffMembers(path, ms[1..], ns, u, cs, h));
      } else {
        DiffMembersPrefixed(path, ms, ns[1..], u, cs, h);
        BelowOne(path, Add, ns[0].key, Some(ns[0].value), u);
        BelowAppend(path, [Patch(Add, SubPath("", ns[0].key, u), Some(ns[0].value))], DiffMembers("", ms, ns[1..], u, cs, h),
                    [Patch(Add, SubPath(path, ns[0].key, u), Some(ns[0].value))], DiffMembers(path, ms, ns[1..], u, cs, h));
      }
    }
  }
}

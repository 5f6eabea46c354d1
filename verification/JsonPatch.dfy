/** JSON Patch (RFC 6902): applying one patch or a list of them, and generating
    the list that leads from one document to another. */
module JsonPatch {
  import opened CStrings
  import opened JsonTree
  import opened JsonPointer
  import opened JsonPaths
  import opened Options
  import opened Sequences

  datatype Op = Add | Remove | Replace | Move | Copy | Test

  function OpName(op: Op): string {
    match op
    case Add => "add"
    case Remove => "remove"
    case Replace => "replace"
    case Move => "move"
    case Copy => "copy"
    case Test => "test"
  }

  // ----- the list surgery, on sequences -----

  function InsertAt<T>(s: seq<T>, i: nat, x: T): seq<T>
    requires i <= |s|
  {
    s[..i] + [x] + s[i..]
  }

  // ----- applying -----

  /** The path cut at its last slash, which `strrchr` finds: the parent's path and the last token. */
  function SplitPath(path: string): (r: Option<(string, string)>)
    ensures r.Some? ==> path == r.value.0 + "/" + r.value.1 && '/' !in r.value.1
    ensures r.None? ==> '/' !in path
  {
    if path == [] then None
    else
      var init, last := path[..|path| - 1], path[|path| - 1];
      assert path == init + [last];
      if last == '/' then Some((init, []))
      else
        match SplitPath(init)
        case None => None
        case Some((parent, token)) => Some((parent, token + [last]))
  }

  /** What `detach_path` does at the parent: the detached value and the parent without it.
      The key is compared without regard to letter case. */
  function DetachChild(parent: Json, token: string): Option<(Json, Json)> {
    match parent
    case Array(xs) =>
      var i := DecodeIndex(token);
      if i.Some? && i.value < |xs| then Some((xs[i.value], Array(RemoveAt(xs, i.value)))) else None
    case Object(ms) =>
      var i := Find(ms, token, false);
      if i < |ms| then Some((ms[i].value, Object(RemoveAt(ms, i)))) else None
    case _ => None
  }

  function DetachAt(t: Json, at: Option<Path>, token: string): Option<(Json, Json)>
    requires at.Some? ==> ValidPath(t, at.value)
  {
    if at.None? then None
    else
      match DetachChild(At(t, at.value), token)
      case None => None
      case Some((item, parent)) => Some((item, Put(t, at.value, parent)))
  }

  /** `detach_path`: the detached value and the tree without it.  The last key of the path is always
      compared without regard to letter case, the keys in front of it as `cs` says. */
  function DetachPath(t: Json, path: string, cs: bool): Option<(Json, Json)> {
    match SplitPath(path)
    case None => None
    case Some((parent, token)) => DetachAt(t, Resolve(t, parent, cs), DecodeToken(token))
  }

  function WithMember(ms: seq<Member>, key: string, value: Json, cs: bool): seq<Member> {
    var i := Find(ms, key, cs);
    (if i < |ms| then RemoveAt(ms, i) else ms) + [Member(key, value)]
  }

  /** What the second half of `apply_patch` does at the parent: the status and the parent. */
  function AddChild(parent: Json, token: string, value: Json, cs: bool): (nat, Json) {
    match parent
    case Array(xs) =>
      if token == "-" then (0, Array(xs + [value]))
      else
        (match DecodeIndex(token)
         case None => (11, parent)
         case Some(i) => if i > |xs| then (10, parent) else (0, Array(InsertAt(xs, i, value))))
    case Object(ms) => (0, Object(WithMember(ms, token, value, cs)))
    case _ => (9, parent)
  }

  function AddAt(t: Json, at: Option<Path>, token: string, value: Json, cs: bool): (nat, Json)
    requires at.Some? ==> ValidPath(t, at.value)
  {
    if at.None? then (9, t)
    else
      var (status, parent) := AddChild(At(t, at.value), token, value, cs);
      (status, if status == 0 then Put(t, at.value, parent) else t)
  }

  /** The second half of `apply_patch`: put a value at a path. */
  function AddPath(t: Json, path: string, value: Json, cs: bool): (nat, Json) {
    match SplitPath(path)
    case None => (9, t)
    case Some((parent, token)) => AddAt(t, Resolve(t, parent, cs), DecodeToken(token), value, cs)
  }

  function ValueString(j: Json): Option<string> {
    match j
    case String(s) => Some(s)
    case Raw(s) => Some(s)
    case _ => None
  }

  /** `apply_patch` once the operation, the path, the value and the source of a move are known:
      the status, and the tree, which a failing patch may have changed already, and a test sorts. */
  function Perform(t: Json, op: Op, path: string, value: Option<Json>, from: Option<Json>, cs: bool): (nat, Json) {
    match op
    case Test =>
      (var at := Resolve(t, path, cs);
       if at.None? || value.None? then (1, t)
       else
         var item := At(t, at.value);
         (if CompareJson(item, value.value, cs) then 0 else 1, Put(t, at.value, Left(item, value.value, cs).0)))
    case Remove =>
      if path == "" then (0, Invalid)
      else
        (match DetachPath(t, path, cs)
         case None => (13, t)
         case Some((_, rest)) => (0, rest))
    case Replace =>
      if path == "" then (if value.None? then (7, t) else (0, value.value))
      else
        (match DetachPath(t, path, cs)
         case None => (13, t)
         case Some((_, rest)) => if value.None? then (7, rest) else AddPath(rest, path, value.value, cs))
    case Move =>
      if from.None? then (4, t)
      else
        (var source := ValueString(from.value);
         var detached: Option<(Json, Json)> := if source.None? then None else DetachPath(t, source.value, cs);
         match detached
         case None => (5, t)
         case Some((item, rest)) => AddPath(rest, path, item, cs))
    case Copy =>
      if from.None? then (4, t)
      else
        (var source := ValueString(from.value);
         var item: Option<Json> := if source.None? then None else Lookup(t, source.value, cs);
         if item.None? then (5, t) else AddPath(t, path, item.value, cs))
    case Add =>
      if path == "" then (if value.None? then (7, t) else (0, value.value))
      else if value.None? then (7, t)
      else AddPath(t, path, value.value, cs)
  }

  /** `get_object_item`, on any node. */
  function GetMember(j: Json, name: string, cs: bool): Option<Json> {
    if j.Object? && Has(j.members, name, cs) then Some(j.members[Find(j.members, name, cs)].value) else None
  }

  /** `decode_patch_operation`. */
  function DecodeOp(patch: Json, cs: bool): Option<Op> {
    match GetMember(patch, "op", cs)
    case Some(String(s)) =>
      if s == "add" then Some(Add)
      else if s == "remove" then Some(Remove)
      else if s == "replace" then Some(Replace)
      else if s == "move" then Some(Move)
      else if s == "copy" then Some(Copy)
      else if s == "test" then Some(Test)
      else None
    case _ => None
  }

  /** `apply_patch`. */
  function ApplyPatch(t: Json, patch: Json, cs: bool): (nat, Json) {
    match GetMember(patch, "path", cs)
    case Some(String(path)) =>
      (match DecodeOp(patch, cs)
       case None => (3, t)
       case Some(op) => Perform(t, op, path, GetMember(patch, "value", cs), GetMember(patch, "from", cs), cs))
    case _ => (2, t)
  }

  /** The loop over the patches stops at the first that fails. */
  function ApplyFrom(t: Json, patches: seq<Json>, cs: bool): (nat, Json)
    decreases |patches|
  {
    if patches == [] then (0, t)
    else
      var (status, t') := ApplyPatch(t, patches[0], cs);
      if status != 0 then (status, t') else ApplyFrom(t', patches[1..], cs)
  }

  /** `cJSONUtils_ApplyPatches` and its case-sensitive form. */
  method ApplyPatches(t: Json, patches: Json, cs: bool) returns (status: nat, result: Json)
    ensures (status, result) == if patches.Array? then ApplyFrom(t, patches.items, cs) else (1, t)
  {
    if !patches.Array? {
      return 1, t;
    }
    status, result := 0, t;
    var i := 0;
    while i < |patches.items|
      invariant i <= |patches.items| && status == 0
      invariant ApplyFrom(t, patches.items, cs) == ApplyFrom(result, patches.items[i..], cs)
    {
      var (s, t') := ApplyPatch(result, patches.items[i], cs);
      assert patches.items[i..][1..] == patches.items[i + 1..];
      status, result := s, t';
      if status != 0 {
        return;
      }
      i := i + 1;
    }
  }

  // ----- generating -----

  /** A generated patch; `ToJson` is the object `compose_patch` makes of it. */
  datatype Patch = Patch(op: Op, path: string, value: Option<Json>)

  function ToJson(p: Patch): Json {
    Object([Member("op", String(OpName(p.op))), Member("path", String(p.path))]
           + if p.value.Some? then [Member("value", p.value.value)] else [])
  }

  function AllToJson(ps: seq<Patch>): (js: seq<Json>)
    ensures |js| == |ps|
  {
    if ps == [] then [] else [ToJson(ps[0])] + AllToJson(ps[1..])
  }

  /** The path of `compose_patch` when it has a suffix, escaped into memory that held `u`. */
  function SubPath(path: string, suffix: string, u: char): string {
    path + ("/" + EncodeKey(suffix, u))
  }

  function SameType(a: Json, b: Json): bool {
    match a
    case Invalid => b.Invalid?
    case False => b.False?
    case True => b.True?
    case Null => b.Null?
    case Number(_, _) => b.Number?
    case String(_) => b.String?
    case Array(_) => b.Array?
    case Object(_) => b.Object?
    case Raw(_) => b.Raw?
  }

  /** `create_patches`: the patches it appends, with paths below `path`. */
  function Diff(path: string, from: Json, to: Json, u: char, cs: bool): seq<Patch>
    decreases Height(from), 1, 0
  {
    if !SameType(from, to) then [Patch(Replace, path, Some(to))]
    else
      match from
      case Number(_, _) => if from != to then [Patch(Replace, path, Some(to))] else []
      case String(_) => if from != to then [Patch(Replace, path, Some(to))] else []
      case Array(xs) => DiffItems(path, xs, to.items, 0, u, cs, Height(from))
      case Object(ms) =>
        SortedLower(ms, cs, Height(from));
        DiffMembers(path, SortMembers(ms, cs), SortMembers(to.members, cs), u, cs, Height(from))
      case _ => []
  }

  /** The array case: patches for the common positions, then removals that all name the position
      behind the common part, then additions at the end. */
  function DiffItems(path: string, xs: seq<Json>, ys: seq<Json>, index: nat, u: char, cs: bool, ghost h: nat): seq<Patch>
    requires LowerItems(xs, h)
    decreases h, 0, |xs| + |ys|
  {
    if xs != [] && ys != [] then
      Diff(path + ("/" + Decimal(index)), xs[0], ys[0], u, cs) + DiffItems(path, xs[1..], ys[1..], index + 1, u, cs, h)
    else if xs != [] then
      [Patch(Remove, SubPath(path, Decimal(index), u), None)] + DiffItems(path, xs[1..], ys, index, u, cs, h)
    else if ys != [] then
      [Patch(Add, SubPath(path, "-", u), Some(ys[0]))] + DiffItems(path, xs, ys[1..], index + 1, u, cs, h)
    else []
  }

  /** Which of the two sorted member lists is behind: negative, zero or positive. */
  function KeyOrder(ms: seq<Member>, ns: seq<Member>, cs: bool): int {
    if ms == [] then 1
    else if ns == [] then -1
    else Compare(Key(ms[0].key, cs), Key(ns[0].key, cs))
  }

  /** The object case: the walk through both sorted member lists. */
  function DiffMembers(path: string, ms: seq<Member>, ns: seq<Member>, u: char, cs: bool, ghost h: nat): seq<Patch>
    requires LowerMembers(ms, h)
    decreases h, 0, |ms| + |ns|
  {
    if ms == [] && ns == [] then []
    else
      var diff := KeyOrder(ms, ns, cs);
      if diff == 0 then
        Diff(SubPath(path, ms[0].key, u), ms[0].value, ns[0].value, u, cs) + DiffMembers(path, ms[1..], ns[1..], u, cs, h)
      else if diff < 0 then
        [Patch(Remove, SubPath(path, ms[0].key, u), None)] + DiffMembers(path, ms[1..], ns, u, cs, h)
      else
        [Patch(Add, SubPath(path, ns[0].key, u), Some(ns[0].value))] + DiffMembers(path, ms, ns[1..], u, cs, h)
  }

  /** `cJSONUtils_GeneratePatches` and its case-sensitive form. */
  function GeneratePatches(from: Json, to: Json, u: char, cs: bool): Json {
    Array(AllToJson(Diff("", from, to, u, cs)))
  }

  /** `create_patches` as the source has it: a list that only grows, and three loops. */
  method CreatePatches(patches0: seq<Patch>, path: string, from: Json, to: Json, u: char, cs: bool)
    returns (patches: seq<Patch>)
    ensures patches == patches0 + Diff(path, from, to, u, cs)
    decreases Height(from), 1
  {
    patches := patches0;
    if !SameType(from, to) {
      return patches + [Patch(Replace, path, Some(to))];
    }
    match from
    case Number(_, _) =>
      if from != to { patches := patches + [Patch(Replace, path, Some(to))]; }
    case String(_) =>
      if from != to { patches := patches + [Patch(Replace, path, Some(to))]; }
    case Array(xs) =>
      patches := CreateItemPatches(patches, path, xs, to.items, u, cs, Height(from));
    case Object(ms) =>
      SortedLower(ms, cs, Height(from));
      patches := CreateMemberPatches(patches, path, SortMembers(ms, cs), SortMembers(to.members, cs), u, cs, Height(from));
    case _ =>
  }

  method CreateItemPatches(patches0: seq<Patch>, path: string, xs: seq<Json>, ys: seq<Json>, u: char, cs: bool, ghost h: nat)
    returns (patches: seq<Patch>)
    requires LowerItems(xs, h)
    ensures patches == patches0 + DiffItems(path, xs, ys, 0, u, cs, h)
    decreases h, 0
  {
    hide DiffItems, Diff;
    patches := patches0;
    ghost var all := patches0 + DiffItems(path, xs, ys, 0, u, cs, h);
    var index, i, j := 0, 0, 0;
    assert xs[0..] == xs && ys[0..] == ys;
    while i < |xs| && j < |ys|
      invariant i == j == index <= |xs| && j <= |ys|
      invariant patches + DiffItems(path, xs[i..], ys[j..], index, u, cs, h) == all
    {
      CommonStep(patches, path, xs, ys, i, j, index, u, cs, h);
      patches := CreatePatches(patches, path + ("/" + Decimal(index)), xs[i], ys[j], u, cs);
      i, j, index := i + 1, j + 1, index + 1;
    }
    while i < |xs|
      invariant i <= |xs| && j <= |ys| && (i < |xs| ==> j == |ys|)
      invariant patches + DiffItems(path, xs[i..], ys[j..], index, u, cs, h) == all
    {
      RemoveStep(patches, path, xs, ys, i, j, index, u, cs, h);
      patches := patches + [Patch(Remove, SubPath(path, Decimal(index), u), None)];
      i := i + 1;
    }
    while j < |ys|
      invariant i == |xs| && j <= |ys|
      invariant patches + DiffItems(path, xs[i..], ys[j..], index, u, cs, h) == all
    {
      AddStep(patches, path, xs, ys, i, j, index, u, cs, h);
      patches := patches + [Patch(Add, SubPath(path, "-", u), Some(ys[j]))];
      j, index := j + 1, index + 1;
    }
    NothingLeft(path, xs[i..], ys[j..], index, u, cs, h);
  }

  lemma NothingLeft(path: string, xs: seq<Json>, ys: seq<Json>, index: nat, u: char, cs: bool, h: nat)
    requires LowerItems(xs, h) && xs == [] && ys == []
    ensures DiffItems(path, xs, ys, index, u, cs, h) == []
  {
  }

  /** What one round of each item loop takes off the list that is still to come. */
  lemma CommonStep(before: seq<Patch>, path: string, xs: seq<Json>, ys: seq<Json>, i: nat, j: nat, index: nat,
                   u: char, cs: bool, h: nat)
    requires LowerItems(xs, h) && i < |xs| && j < |ys|
    ensures before + DiffItems(path, xs[i..], ys[j..], index, u, cs, h) ==
            before + Diff(path + ("/" + Decimal(index)), xs[i], ys[j], u, cs)
            + DiffItems(path, xs[i + 1..], ys[j + 1..], index + 1, u, cs, h)
  {
    assert xs[i..][1..] == xs[i + 1..] && ys[j..][1..] == ys[j + 1..];
    Associative(before, Diff(path + ("/" + Decimal(index)), xs[i], ys[j], u, cs),
                DiffItems(path, xs[i + 1..], ys[j + 1..], index + 1, u, cs, h));
  }

  lemma RemoveStep(before: seq<Patch>, path: string, xs: seq<Json>, ys: seq<Json>, i: nat, j: nat, index: nat,
                   u: char, cs: bool, h: nat)
    requires LowerItems(xs, h) && i < |xs| && j == |ys|
    ensures before + DiffItems(path, xs[i..], ys[j..], index, u, cs, h) ==
            before + [Patch(Remove, SubPath(path, Decimal(index), u), None)] + DiffItems(path, xs[i + 1..], ys[j..], index, u, cs, h)
  {
    assert xs[i..][1..] == xs[i + 1..];
    Associative(before, [Patch(Remove, SubPath(path, Decimal(index), u), None)],
                DiffItems(path, xs[i + 1..], ys[j..], index, u, cs, h));
  }

  lemma AddStep(before: seq<Patch>, path: string, xs: seq<Json>, ys: seq<Json>, i: nat, j: nat, index: nat,
                u: char, cs: bool, h: nat)
    requires LowerItems(xs, h) && i == |xs| && j < |ys|
    ensures before + DiffItems(path, xs[i..], ys[j..], index, u, cs, h) ==
            before + [Patch(Add, SubPath(path, "-", u), Some(ys[j]))] + DiffItems(path, xs[i..], ys[j + 1..], index + 1, u, cs, h)
  {
    assert ys[j..][1..] == ys[j + 1..];
    Associative(before, [Patch(Add, SubPath(path, "-", u), Some(ys[j]))],
                DiffItems(path, xs[i..], ys[j + 1..], index + 1, u, cs, h));
  }

  method CreateMemberPatches(patches0: seq<Patch>, path: string, ms: seq<Member>, ns: seq<Member>, u: char, cs: bool, ghost h: nat)
    returns (patches: seq<Patch>)
    requires LowerMembers(ms, h)
    ensures patches == patches0 + DiffMembers(path, ms, ns, u, cs, h)
    decreases h, 0
  {
    patches := patches0;
    ghost var all := patches0 + DiffMembers(path, ms, ns, u, cs, h);
    var i, j := 0, 0;
    assert ms[0..] == ms && ns[0..] == ns;
    while i < |ms| || j < |ns|
      invariant i <= |ms| && j <= |ns|
      invariant patches + DiffMembers(path, ms[i..], ns[j..], u, cs, h) == all
      decreases |ms| - i + |ns| - j
    {
      var diff := KeyOrder(ms[i..], ns[j..], cs);
      MemberStep(patches, path, ms, ns, i, j, u, cs, h);
      if diff == 0 {
        patches := CreatePatches(patches, SubPath(path, ms[i].key, u), ms[i].value, ns[j].value, u, cs);
        i, j := i + 1, j + 1;
      } else if diff < 0 {
        patches := patches + [Patch(Remove, SubPath(path, ms[i].key, u), None)];
        i := i + 1;
      } else {
        patches := patches + [Patch(Add, SubPath(path, ns[j].key, u), Some(ns[j].value))];
        j := j + 1;
      }
    }
  }

  /** What one round of the member loop takes off the list that is still to come. */
  lemma MemberStep(before: seq<Patch>, path: string, ms: seq<Member>, ns: seq<Member>, i: nat, j: nat, u: char, cs: bool, h: nat)
    requires LowerMembers(ms, h) && i <= |ms| && j <= |ns| && (i < |ms| || j < |ns|)
    ensures var diff := KeyOrder(ms[i..], ns[j..], cs);
            && (diff <= 0 ==> i < |ms|) && (diff >= 0 ==> j < |ns|)
            && before + DiffMembers(path, ms[i..], ns[j..], u, cs, h) ==
               if diff == 0 then
                 before + Diff(SubPath(path, ms[i].key, u), ms[i].value, ns[j].value, u, cs)
                 + DiffMembers(path, ms[i + 1..], ns[j + 1..], u, cs, h)
               else if diff < 0 then
                 before + [Patch(Remove, SubPath(path, ms[i].key, u), None)] + DiffMembers(path, ms[i + 1..], ns[j..], u, cs, h)
               else
                 before + [Patch(Add, SubPath(path, ns[j].key, u), Some(ns[j].value))] + DiffMembers(path, ms[i..], ns[j + 1..], u, cs, h)
  {
    var diff := KeyOrder(ms[i..], ns[j..], cs);
    if diff == 0 {
      assert ms[i..][1..] == ms[i + 1..] && ns[j..][1..] == ns[j + 1..];
      Associative(before, Diff(SubPath(path, ms[i].key, u), ms[i].value, ns[j].value, u, cs),
                  DiffMembers(path, ms[i + 1..], ns[j + 1..], u, cs, h));
    } else if diff < 0 {
      assert ms[i..][1..] == ms[i + 1..];
      Associative(before, [Patch(Remove, SubPath(path, ms[i].key, u), None)], DiffMembers(path, ms[i + 1..], ns[j..], u, cs, h));
    } else {
      assert ns[j..][1..] == ns[j + 1..];
      Associative(before, [Patch(Add, SubPath(path, ns[j].key, u), Some(ns[j].value))],
                  DiffMembers(path, ms[i..], ns[j + 1..], u, cs, h));
    }
  }
}

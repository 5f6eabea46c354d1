/** What a patch document asks for, word by word (section 4 of RFC 6902), with every status. */
module JsonPatchDocuments {

  import opened CStrings
  import opened JsonPatch
  import opened JsonPatchMoves
  import opened JsonPatchRoundTrip
  import opened JsonPaths
  import opened JsonPointer
  import opened JsonResolve
  import opened JsonSame
  import opened JsonTree
  import opened Options
  import opened Sequences

  // ----- the members of a patch -----

  /** The first member of that name holds the value. */
  predicate Holds(patch: Json, name: string, v: Json, cs: bool) {
    && patch.Object? && Has(patch.members, name, cs)
    && patch.members[Find(patch.members, name, cs)].value == v
  }

  predicate Lacks(patch: Json, name: string, cs: bool) {
    patch.Object? ==> forall i :: 0 <= i < |patch.members| ==> !KeyEq(patch.members[i].key, name, cs)
  }

  lemma LacksIs(patch: Json, name: string, cs: bool)
    ensures Lacks(patch, name, cs) <==> forall v :: !Holds(patch, name, v, cs)
  {
    if patch.Object? {
      if Lacks(patch, name, cs) { NotFound(patch.members, name, cs); }
      if Has(patch.members, name, cs) { assert Holds(patch, name, patch.members[Find(patch.members, name, cs)].value, cs); }
    }
  }

  lemma LacksIsNone(patch: Json, name: string, cs: bool)
    requires Lacks(patch, name, cs)
    ensures GetMember(patch, name, cs) == None
  {
    if patch.Object? { NotFound(patch.members, name, cs); }
  }

  lemma FoundIsHeld(patch: Json, name: string, cs: bool)
    ensures GetMember(patch, name, cs).Some? ==> Holds(patch, name, GetMember(patch, name, cs).value, cs)
  {
  }

  /** The patch names an operation and a path. */
  predicate Asks(patch: Json, word: string, path: string, cs: bool) {
    Holds(patch, "op", String(word), cs) && Holds(patch, "path", String(path), cs)
  }

  // ----- one lemma for each operation -----

  /** Taken away at `from`, and put in at `path`. */
  lemma MoveDocument(t: Json, patch: Json, path: string, from: string, cs: bool)
    requires Asks(patch, "move", path, cs) && Holds(patch, "from", String(from), cs)
    ensures ApplyPatch(t, patch, cs) ==
      var d := DetachPath(t, from, cs);
      if d.None? then (5, t) else AddPath(d.value.1, path, d.value.0, cs)
  {
    hide Find, DetachPath, AddPath;
  }

  /** What is found at `from`, put in at `path`. */
  lemma CopyDocument(t: Json, patch: Json, path: string, from: string, cs: bool)
    requires Asks(patch, "copy", path, cs) && Holds(patch, "from", String(from), cs)
    ensures ApplyPatch(t, patch, cs) ==
      var item := Lookup(t, from, cs);
      if item.None? then (5, t) else AddPath(t, path, item.value, cs)
  {
    hide Find, AddPath, Lookup;
  }

  lemma NoSource(t: Json, patch: Json, word: string, path: string, cs: bool)
    requires (word == "move" || word == "copy") && Asks(patch, word, path, cs) && Lacks(patch, "from", cs)
    ensures ApplyPatch(t, patch, cs) == (4, t)
  {
    hide Find, DetachPath, AddPath, Lookup, Lacks;
    LacksIsNone(patch, "from", cs);
  }

  /** The status says whether there is a node that equals the value; the document stays the same. */
  lemma TestDocument(t: Json, patch: Json, path: string, v: Json, cs: bool)
    requires Asks(patch, "test", path, cs) && Holds(patch, "value", v, cs)
    requires Unique(t, cs) && Plain(t) && Unique(v, cs) && Plain(v)
    ensures var (status, r) := ApplyPatch(t, patch, cs);
      && status == (if Lookup(t, path, cs).Some? && Same(Lookup(t, path, cs).value, v, cs) then 0 else 1)
      && Same(r, t, cs)
  {
    hide Find, Lookup, Same, Unique, Plain, Resolve, CompareJson, Left, Put;
    TestDecides(t, path, v, cs);
    TestStatus(t, path, v, cs);
    IsTest(t, patch, path, v, cs);
  }

  lemma IsTest(t: Json, patch: Json, path: string, v: Json, cs: bool)
    requires Asks(patch, "test", path, cs) && Holds(patch, "value", v, cs)
    ensures var from := GetMember(patch, "from", cs);
      ApplyPatch(t, patch, cs) == Perform(t, Test, path, Some(v), from, cs) == Perform(t, Test, path, Some(v), None, cs)
  {
    hide Find, Resolve, CompareJson, Left, Put;
  }

  lemma TestStatus(t: Json, path: string, v: Json, cs: bool)
    ensures Perform(t, Test, path, Some(v), None, cs).0 <= 1
  {
    hide Resolve, CompareJson, Left, Put;
  }

  lemma NothingToTest(t: Json, patch: Json, path: string, cs: bool)
    requires Asks(patch, "test", path, cs) && Lacks(patch, "value", cs)
    ensures ApplyPatch(t, patch, cs) == (1, t)
  {
    hide Find, Resolve, CompareJson, Left, Put, Lacks;
    LacksIsNone(patch, "value", cs);
  }

  lemma RemoveDocument(t: Json, patch: Json, path: string, cs: bool)
    requires Asks(patch, "remove", path, cs)
    ensures ApplyPatch(t, patch, cs) ==
      var d := DetachPath(t, path, cs);
      if path == "" then (0, Invalid) else if d.None? then (13, t) else (0, d.value.1)
  {
    hide Find, DetachPath;
  }

  lemma AddDocument(t: Json, patch: Json, path: string, v: Json, cs: bool)
    requires Asks(patch, "add", path, cs) && Holds(patch, "value", v, cs)
    ensures ApplyPatch(t, patch, cs) == if path == "" then (0, v) else AddPath(t, path, v, cs)
  {
    hide Find, AddPath;
  }

  lemma ReplaceDocument(t: Json, patch: Json, path: string, v: Json, cs: bool)
    requires Asks(patch, "replace", path, cs) && Holds(patch, "value", v, cs)
    ensures ApplyPatch(t, patch, cs) ==
      var d := DetachPath(t, path, cs);
      if path == "" then (0, v) else if d.None? then (13, t) else AddPath(d.value.1, path, v, cs)
  {
    hide Find, AddPath, DetachPath;
  }

  /** Without a value nothing is added; a replacement has taken the old value away by then. */
  lemma NoValue(t: Json, patch: Json, word: string, path: string, cs: bool)
    requires (word == "add" || word == "replace") && Asks(patch, word, path, cs) && Lacks(patch, "value", cs)
    ensures ApplyPatch(t, patch, cs) ==
      var d := DetachPath(t, path, cs);
      if word == "add" || path == "" then (7, t) else if d.None? then (13, t) else (7, d.value.1)
  {
    hide Find, DetachPath, AddPath, Lacks;
    LacksIsNone(patch, "value", cs);
  }

  predicate IsWord(word: string) {
    word == "add" || word == "remove" || word == "replace" || word == "move" || word == "copy" || word == "test"
  }

  /** Any other word is refused, and so is an operation that is no text. */
  lemma OtherWord(t: Json, patch: Json, path: string, cs: bool)
    requires Holds(patch, "path", String(path), cs)
    requires forall word :: IsWord(word) ==> !Holds(patch, "op", String(word), cs)
    ensures ApplyPatch(t, patch, cs) == (3, t)
  {
    hide Perform;
    FoundIsHeld(patch, "op", cs);
  }

  lemma NoPath(t: Json, patch: Json, cs: bool)
    requires forall path :: !Holds(patch, "path", String(path), cs)
    ensures ApplyPatch(t, patch, cs) == (2, t)
  {
    hide Perform;
    FoundIsHeld(patch, "path", cs);
  }

  // ----- where a value is put in and taken away -----

  lemma {:induction false} LastSlash(pre: string, token: string)
    requires '/' !in token
    ensures SplitPath(pre + "/" + token) == Some((pre, token))
    decreases |token|
  {
    var path := pre + "/" + token;
    if token == "" {
      assert path[..|path| - 1] == pre;
    } else {
      var short := token[..|token| - 1];
      assert path[..|path| - 1] == pre + "/" + short;
      LastSlash(pre, short);
      assert short + [token[|token| - 1]] == token;
    }
  }

  /** A node with a value put in: at an index up to the length or at the end of an array, or as the last member of an
      object, in place of one with the key. */
  function Added(node: Json, key: string, v: Json, cs: bool): (nat, Option<Json>) {
    if node.Array? then
      var xs, i := node.items, DecodeIndex(key);
      if key == "-" then (0, Some(Array(xs + [v])))
      else if i.None? then (11, None)
      else if i.value > |xs| then (10, None)
      else (0, Some(Array(xs[..i.value] + [v] + xs[i.value..])))
    else if node.Object? then
      var ms, k := node.members, Find(node.members, key, cs);
      (0, Some(Object((if k < |ms| then ms[..k] + ms[k + 1..] else ms) + [Member(key, v)])))
    else (9, None)
  }

  /** A value is put into the node that the tokens lead to. */
  lemma AddsAt(t: Json, tokens: seq<string>, path: Path, token: string, v: Json, cs: bool)
    requires AreTokens(tokens) && '/' !in token && Leads(t, tokens, path, cs)
    ensures ValidPath(t, path)
    ensures AddPath(t, Join(tokens) + "/" + token, v, cs) ==
      var r := Added(At(t, path), DecodeToken(token), v, cs);
      if r.1.None? then (r.0, t) else (r.0, Put(t, path, r.1.value))
  {
    hide Resolve, Leads, Find, DecodeToken, DecodeIndex, Put, Join, SplitPath;
    LeadsToNode(t, tokens, path, cs);
    ResolveIff(t, tokens, path, cs);
    LastSlash(Join(tokens), token);
  }

  lemma AddsNowhere(t: Json, tokens: seq<string>, token: string, v: Json, cs: bool)
    requires AreTokens(tokens) && '/' !in token && forall path :: !Leads(t, tokens, path, cs)
    ensures AddPath(t, Join(tokens) + "/" + token, v, cs) == (9, t)
  {
    hide Resolve, Leads, DecodeToken, Join, SplitPath;
    LastSlash(Join(tokens), token);
    var r := Resolve(t, Join(tokens), cs);
    if r.Some? { ResolveIff(t, tokens, r.value, cs); }
  }

  /** A value and the node without it: the item at an index below the length, or the first member with the key, whatever
      the letter case. */
  function Taken(node: Json, key: string): Option<(Json, Json)> {
    if node.Array? then
      var xs, i := node.items, DecodeIndex(key);
      if i.Some? && i.value < |xs| then Some((xs[i.value], Array(xs[..i.value] + xs[i.value + 1..]))) else None
    else if node.Object? then
      var ms, k := node.members, Find(node.members, key, false);
      if k < |ms| then Some((ms[k].value, Object(ms[..k] + ms[k + 1..]))) else None
    else None
  }

  /** A value is taken from the node that the tokens lead to. */
  lemma DetachesAt(t: Json, tokens: seq<string>, path: Path, token: string, cs: bool)
    requires AreTokens(tokens) && '/' !in token && Leads(t, tokens, path, cs)
    ensures ValidPath(t, path)
    ensures DetachPath(t, Join(tokens) + "/" + token, cs) ==
      var r := Taken(At(t, path), DecodeToken(token));
      if r.None? then None else Some((r.value.0, Put(t, path, r.value.1)))
  {
    hide Resolve, Leads, Find, DecodeToken, DecodeIndex, Put, Join, SplitPath;
    LeadsToNode(t, tokens, path, cs);
    ResolveIff(t, tokens, path, cs);
    LastSlash(Join(tokens), token);
  }

  lemma DetachesNowhere(t: Json, tokens: seq<string>, token: string, cs: bool)
    requires AreTokens(tokens) && '/' !in token && forall path :: !Leads(t, tokens, path, cs)
    ensures DetachPath(t, Join(tokens) + "/" + token, cs) == None
  {
    hide Resolve, Leads, DecodeToken, Join, SplitPath;
    LastSlash(Join(tokens), token);
    var r := Resolve(t, Join(tokens), cs);
    if r.Some? { ResolveIff(t, tokens, r.value, cs); }
  }

  // ----- lists of documents -----

  lemma TwoPatches(t: Json, a: Json, b: Json, cs: bool)
    requires ApplyPatch(t, a, cs).0 == 0
    ensures ApplyFrom(t, [a, b], cs) == ApplyPatch(ApplyPatch(t, a, cs).1, b, cs)
  {
    hide ApplyPatch;
    var t' := ApplyPatch(t, a, cs).1;
    assert [a, b][1..] == [b] && [b][1..] == [];
    var (status, r) := ApplyPatch(t', b, cs);
    assert ApplyFrom(r, [], cs) == (0, r);
    assert ApplyFrom(t', [b], cs) == (status, r);
  }

  /** Two documents that move a member to a new key and back: the same object again if and only if the member that moves
      has exactly the key that was asked for. */
  lemma MovesThereAndBackIff(ms: seq<Member>, there: Json, back: Json, a: string, b: string, cs: bool)
    requires Unique(Object(ms), cs) && PlainKey(a) && PlainKey(b) && Has(ms, a, false)
    requires !Has(RemoveAt(ms, Find(ms, a, false)), b, false)
    requires Asks(there, "move", "/" + b, cs) && Holds(there, "from", String("/" + a), cs)
    requires Asks(back, "move", "/" + a, cs) && Holds(back, "from", String("/" + b), cs)
    ensures var (status, r) := ApplyFrom(Object(ms), [there, back], cs);
      status == 0 && (Same(r, Object(ms), cs) <==> KeyEq(ms[Find(ms, a, false)].key, a, cs))
  {
    hide Find, Same, Unique, ApplyFrom, ApplyPatch, DetachPath, AddPath, Asks, Holds, PlainKey, KeyEq;
    MoveThereAndBackIff(ms, a, b, cs);
    IsMove(Object(ms), there, "/" + b, "/" + a, cs);
    var t := ApplyPatch(Object(ms), there, cs).1;
    IsMove(t, back, "/" + a, "/" + b, cs);
    TwoPatches(Object(ms), there, back, cs);
  }

  lemma IsMove(t: Json, patch: Json, path: string, from: string, cs: bool)
    requires Asks(patch, "move", path, cs) && Holds(patch, "from", String(from), cs)
    ensures ApplyPatch(t, patch, cs) == Perform(t, Move, path, None, Some(String(from)), cs)
  {
    hide DetachPath, AddPath, ApplyPatch, Asks, Holds;
    MoveDocument(t, patch, path, from, cs);
  }

  /** A document that copies a member, and one that tests the copy. */
  lemma CopiesThenTests(ms: seq<Member>, copy: Json, test: Json, a: string, b: string, cs: bool)
    requires Unique(Object(ms), cs) && Plain(Object(ms)) && PlainKey(a) && PlainKey(b) && Has(ms, a, cs)
    requires Asks(copy, "copy", "/" + b, cs) && Holds(copy, "from", String("/" + a), cs)
    requires Asks(test, "test", "/" + b, cs) && Holds(test, "value", ms[Find(ms, a, cs)].value, cs)
    ensures ApplyPatch(Object(ms), copy, cs) == (0, Object(WithMember(ms, b, ms[Find(ms, a, cs)].value, cs)))
    ensures ApplyFrom(Object(ms), [copy, test], cs).0 == 0
  {
    hide Find, Unique, Plain, ApplyFrom, ApplyPatch, AddPath, Asks, Holds, PlainKey, WithMember, Perform;
    var v := ms[Find(ms, a, cs)].value;
    CopyThenTest(ms, a, b, cs);
    IsCopy(Object(ms), copy, "/" + b, "/" + a, cs);
    var t := ApplyPatch(Object(ms), copy, cs).1;
    IsTest(t, test, "/" + b, v, cs);
    TwoPatches(Object(ms), copy, test, cs);
  }

  lemma IsCopy(t: Json, patch: Json, path: string, from: string, cs: bool)
    requires Asks(patch, "copy", path, cs) && Holds(patch, "from", String(from), cs)
    ensures ApplyPatch(t, patch, cs) == Perform(t, Copy, path, None, Some(String(from)), cs)
  {
    hide Lookup, AddPath, ApplyPatch, Asks, Holds;
    CopyDocument(t, patch, path, from, cs);
  }
}

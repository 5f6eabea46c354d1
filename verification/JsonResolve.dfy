/** Section 4 of RFC 6901: which node a pointer leads to, and when there is none. */
module JsonResolve {

  import opened CStrings
  import opened JsonPaths
  import opened JsonPointer
  import opened JsonTree
  import opened Options

  /** The pointer that is made of the tokens. */
  function Join(tokens: seq<string>): string {
    if tokens == [] then "" else "/" + tokens[0] + Join(tokens[1..])
  }

  predicate AreTokens(tokens: seq<string>) {
    forall i :: 0 <= i < |tokens| ==> '/' !in tokens[i]
  }

  /** The token names the `i`-th child: an item by its index, a member by its key, if it is the first with that key. */
  predicate Names(t: Json, token: string, i: nat, cs: bool) {
    match t
    case Array(xs) => i < |xs| && DecodeIndex(token) == Some(i)
    case Object(ms) =>
      && i < |ms| && Unescape(token).Some? && KeyEq(ms[i].key, Unescape(token).value, cs)
      && forall j :: 0 <= j < i ==> !KeyEq(ms[j].key, Unescape(token).value, cs)
    case _ => false
  }

  /** Token by token, from the root to the node at the path. */
  predicate Leads(t: Json, tokens: seq<string>, path: Path, cs: bool)
    decreases |tokens|
  {
    if tokens == [] || path == [] then tokens == [] && path == []
    else Names(t, tokens[0], path[0], cs) && Leads(Child(t, path[0]), tokens[1..], path[1..], cs)
  }

  lemma {:induction false} LeadsToNode(t: Json, tokens: seq<string>, path: Path, cs: bool)
    requires Leads(t, tokens, path, cs)
    ensures ValidPath(t, path) && |path| == |tokens|
    decreases |tokens|
  {
    if tokens != [] { LeadsToNode(Child(t, path[0]), tokens[1..], path[1..], cs); }
  }

  lemma JoinEnds(tokens: seq<string>)
    ensures EndsToken(Join(tokens))
  {
  }

  /** One step of the walk, for a token and what follows it. */
  lemma ChildIndexIff(t: Json, token: string, rest: string, i: nat, cs: bool)
    requires '/' !in token && EndsToken(rest)
    ensures ChildIndex(t, token + rest, cs) == Some(i) <==> Names(t, token, i, cs)
  {
    hide DecodeIndex, PointerMatches, Unescape;
    DecodeIndexOfToken(token, rest);
    if t.Object? {
      var ms := t.members;
      forall j | 0 <= j < |ms|
        ensures PointerMatches(ms[j].key, token + rest, cs) <==> Unescape(token).Some? && KeyEq(ms[j].key, Unescape(token).value, cs)
      {
        PointerMatchesMeaning(ms[j].key, token, rest, cs);
      }
      if i < |ms| { FindTokenIs(ms, token + rest, cs, i); }
    }
  }

  /** A pointer resolves to a path exactly when its tokens lead there. */
  lemma {:induction false} ResolveIff(t: Json, tokens: seq<string>, path: Path, cs: bool)
    requires AreTokens(tokens)
    ensures Resolve(t, Join(tokens), cs) == Some(path) <==> Leads(t, tokens, path, cs)
    decreases |tokens|
  {
    hide ChildIndex, Names, SkipToken;
    if tokens != [] {
      var token, rest := tokens[0], Join(tokens[1..]);
      JoinEnds(tokens[1..]);
      SkipTokenIs(token, rest);
      assert Join(tokens) == "/" + (token + rest);
      if path == [] {
        NeverRoot(t, token + rest, cs);
      } else {
        ResolveStep(t, token + rest, path, cs);
        ChildIndexIff(t, token, rest, path[0], cs);
        if Names(t, token, path[0], cs) {
          NamesChild(t, token, path[0], cs);
          ResolveIff(Child(t, path[0]), tokens[1..], path[1..], cs);
        }
      }
    }
  }

  lemma NamesChild(t: Json, token: string, i: nat, cs: bool)
    requires Names(t, token, i, cs)
    ensures i < ChildCount(t)
  {
  }

  lemma NeverRoot(t: Json, q: string, cs: bool)
    ensures Resolve(t, "/" + q, cs) != Some([])
  {
    assert ("/" + q)[1..] == q;
  }

  /** There is a node exactly when some path is led to. */
  lemma NodeIff(t: Json, tokens: seq<string>, cs: bool)
    requires AreTokens(tokens)
    ensures Lookup(t, Join(tokens), cs).Some? <==> exists path :: Leads(t, tokens, path, cs)
    ensures forall path :: Leads(t, tokens, path, cs) ==> ValidPath(t, path) && Lookup(t, Join(tokens), cs) == Some(At(t, path))
  {
    hide Resolve, Leads;
    forall path ensures Resolve(t, Join(tokens), cs) == Some(path) <==> Leads(t, tokens, path, cs) { ResolveIff(t, tokens, path, cs); }
    forall path | Leads(t, tokens, path, cs) ensures ValidPath(t, path) { LeadsToNode(t, tokens, path, cs); }
    var r := Resolve(t, Join(tokens), cs);
    if r.Some? { assert Leads(t, tokens, r.value, cs); }
  }

  /** The one token names no child: an index that is none or not below the length, a key that no member has or a wrong
      escape, and anything below a leaf. */
  predicate NamesNothing(t: Json, token: string, cs: bool) {
    match t
    case Array(xs) => DecodeIndex(token).None? || DecodeIndex(token).value >= |xs|
    case Object(ms) => Unescape(token).None? || forall j :: 0 <= j < |ms| ==> !KeyEq(ms[j].key, Unescape(token).value, cs)
    case _ => true
  }

  lemma NamesNothingIff(t: Json, token: string, cs: bool)
    ensures NamesNothing(t, token, cs) <==> forall i: nat :: !Names(t, token, i, cs)
  {
    hide DecodeIndex, Unescape;
    if t.Object? && !NamesNothing(t, token, cs) {
      var i := Find(t.members, Unescape(token).value, cs);
      assert Names(t, token, i, cs);
    } else if t.Array? && !NamesNothing(t, token, cs) {
      assert Names(t, token, DecodeIndex(token).value, cs);
    }
  }

  /** Below the node that the first tokens lead to there is nothing exactly when the next token names nothing. */
  lemma {:induction false} NoChildIff(t: Json, tokens: seq<string>, path: Path, token: string, cs: bool)
    requires AreTokens(tokens) && '/' !in token && Leads(t, tokens, path, cs)
    ensures ValidPath(t, path)
    ensures Lookup(t, Join(tokens + [token]), cs) == None <==> NamesNothing(At(t, path), token, cs)
    decreases |tokens|
  {
    hide Names, NamesNothing, Resolve;
    LeadsToNode(t, tokens, path, cs);
    NamesNothingIff(At(t, path), token, cs);
    NodeIff(t, tokens + [token], cs);
    forall i: nat ensures Leads(t, tokens + [token], path + [i], cs) <==> Names(At(t, path), token, i, cs) { LeadsOn(t, tokens, path, token, i, cs); }
    forall p | Leads(t, tokens + [token], p, cs) ensures exists i: nat :: Names(At(t, path), token, i, cs) {
      LeadsAlong(t, tokens, path, token, p, cs);
      LeadsOn(t, tokens, path, token, p[|path|], cs);
    }
  }

  lemma {:induction false} LeadsOn(t: Json, tokens: seq<string>, path: Path, token: string, i: nat, cs: bool)
    requires Leads(t, tokens, path, cs) && ValidPath(t, path)
    ensures Leads(t, tokens + [token], path + [i], cs) <==> Names(At(t, path), token, i, cs)
    decreases |tokens|
  {
    hide Names;
    if tokens == [] {
      assert [token][1..] == [] && [i][1..] == [];
      assert tokens + [token] == [token] && path + [i] == [i];
    } else {
      assert (tokens + [token])[1..] == tokens[1..] + [token] && (path + [i])[1..] == path[1..] + [i];
      LeadsOn(Child(t, path[0]), tokens[1..], path[1..], token, i, cs);
    }
  }

  /** The tokens in front lead to one node only. */
  lemma {:induction false} LeadsAlong(t: Json, tokens: seq<string>, path: Path, token: string, p: Path, cs: bool)
    requires Leads(t, tokens, path, cs) && Leads(t, tokens + [token], p, cs)
    ensures |p| == |path| + 1 && p == path + [p[|path|]]
    decreases |tokens|
  {
    hide Names;
    if tokens == [] {
      assert [token][1..] == [] && tokens + [token] == [token];
    } else {
      assert (tokens + [token])[1..] == tokens[1..] + [token];
      NamesOne(t, tokens[0], path[0], p[0], cs);
      LeadsAlong(Child(t, path[0]), tokens[1..], path[1..], token, p[1..], cs);
      assert p == [p[0]] + p[1..] && path == [path[0]] + path[1..];
    }
  }

  lemma NamesOne(t: Json, token: string, i: nat, j: nat, cs: bool)
    requires Names(t, token, i, cs) && Names(t, token, j, cs)
    ensures i == j && i < ChildCount(t)
  {
  }

  /** Every pointer with a slash in front is made of tokens; any other is taken for the whole document. */
  lemma {:induction false} Tokens(pointer: string) returns (tokens: seq<string>)
    requires EndsToken(pointer)
    ensures AreTokens(tokens) && pointer == Join(tokens)
    decreases |pointer|
  {
    hide AreTokens, Join, SkipToken;
    if pointer == "" {
      tokens := [];
      OneMore("", []);
    } else {
      var rest := SkipToken(pointer[1..]);
      var token := TokenInFront(pointer[1..]);
      var more := Tokens(rest);
      tokens := [token] + more;
      OneMore(token, more);
      assert pointer == "/" + pointer[1..];
      assert "/" + (token + rest) == "/" + token + rest;
    }
  }

  lemma OneMore(token: string, more: seq<string>)
    ensures AreTokens([]) && Join([]) == "" && Join([token] + more) == "/" + token + Join(more)
    ensures '/' !in token && AreTokens(more) ==> AreTokens([token] + more)
  {
    assert ([token] + more)[1..] == more;
  }

  lemma {:induction false} TokenInFront(q: string) returns (token: string)
    ensures '/' !in token && q == token + SkipToken(q)
  {
    if EndsToken(q) {
      token := "";
    } else {
      var t := TokenInFront(q[1..]);
      token := [q[0]] + t;
    }
  }

  lemma NoSlashIsRoot(t: Json, pointer: string, cs: bool)
    requires pointer != "" && pointer[0] != '/'
    ensures Lookup(t, pointer, cs) == Some(t)
  {
  }

  /** A key as section 3 writes it: `~0` for a tilde, `~1` for a slash. */
  function Escaped(key: string): string {
    if key == "" then ""
    else (if key[0] == '~' then "~0" else if key[0] == '/' then "~1" else [key[0]]) + Escaped(key[1..])
  }

  /** So written, every key is a token, and the token means the key. */
  lemma {:induction false} EscapedMeansKey(key: string)
    ensures '/' !in Escaped(key) && Unescape(Escaped(key)) == Some(key)
    decreases |key|
  {
    if key != "" {
      EscapedMeansKey(key[1..]);
      var e := if key[0] == '~' then "~0" else if key[0] == '/' then "~1" else [key[0]];
      assert (e + Escaped(key[1..]))[|e|..] == Escaped(key[1..]);
      assert [key[0]] + key[1..] == key;
    }
  }
}

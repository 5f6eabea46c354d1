/** Following a JSON Pointer through a tree, and building the pointer of a node.

    A node of a tree is named by its path: the child indices that lead to it. */
module JsonPaths {
  import opened CStrings
  import opened JsonTree
  import opened JsonPointer
  import opened Options

  type Path = seq<nat>

  function ChildCount(t: Json): nat {
    match t
    case Array(xs) => |xs|
    case Object(ms) => |ms|
    case _ => 0
  }

  function Child(t: Json, i: nat): Json
    requires i < ChildCount(t)
  {
    if t.Array? then t.items[i] else t.members[i].value
  }

  /** The tree with its `i`-th child exchanged; an object's member keeps its key and its place. */
  function WithChild(t: Json, i: nat, v: Json): (r: Json)
    requires i < ChildCount(t)
    ensures ChildCount(r) == ChildCount(t) && Child(r, i) == v
    ensures forall j :: 0 <= j < ChildCount(t) && j != i ==> Child(r, j) == Child(t, j)
  {
    if t.Array? then Array(t.items[i := v]) else Object(t.members[i := Member(t.members[i].key, v)])
  }

  predicate ValidPath(t: Json, path: Path)
    decreases |path|
  {
    path == [] || (path[0] < ChildCount(t) && ValidPath(Child(t, path[0]), path[1..]))
  }

  function At(t: Json, path: Path): Json
    requires ValidPath(t, path)
    decreases |path|
  {
    if path == [] then t else At(Child(t, path[0]), path[1..])
  }

  function Put(t: Json, path: Path, v: Json): Json
    requires ValidPath(t, path)
    decreases |path|
  {
    if path == [] then v else WithChild(t, path[0], Put(Child(t, path[0]), path[1..], v))
  }

  // ----- resolving -----

  /** The pointer behind its next token. */
  function SkipToken(pointer: string): (rest: string)
    ensures EndsToken(rest) && |rest| <= |pointer|
  {
    if EndsToken(pointer) then pointer else SkipToken(pointer[1..])
  }

  lemma {:induction false} SkipTokenIs(token: string, rest: string)
    requires '/' !in token && EndsToken(rest)
    ensures SkipToken(token + rest) == rest
  {
    if token == [] {
      assert token + rest == rest;
    } else {
      assert (token + rest)[1..] == token[1..] + rest;
      SkipTokenIs(token[1..], rest);
    }
  }

  /** The first member whose key the token names, or the length. */
  function FindToken(ms: seq<Member>, pointer: string, cs: bool): (r: nat)
    ensures r <= |ms|
    ensures r < |ms| ==> PointerMatches(ms[r].key, pointer, cs)
    ensures forall i :: 0 <= i < r ==> !PointerMatches(ms[i].key, pointer, cs)
  {
    if ms == [] then 0
    else if PointerMatches(ms[0].key, pointer, cs) then 0
    else 1 + FindToken(ms[1..], pointer, cs)
  }

  /** Which child the next token selects. */
  function ChildIndex(t: Json, pointer: string, cs: bool): (r: Option<nat>)
    ensures r.Some? ==> r.value < ChildCount(t)
  {
    match t
    case Array(xs) =>
      var index := DecodeIndex(pointer);
      if index.Some? && index.value < |xs| then index else None
    case Object(ms) =>
      var i := FindToken(ms, pointer, cs);
      if i < |ms| then Some(i) else None
    case _ => None
  }

  /** `get_item_from_pointer`: the path of the node, if there is one. */
  function Resolve(t: Json, pointer: string, cs: bool): (r: Option<Path>)
    ensures r.Some? ==> ValidPath(t, r.value)
    decreases |pointer|
  {
    if pointer == [] || pointer[0] != '/' then Some([])
    else
      match ChildIndex(t, pointer[1..], cs)
      case None => None
      case Some(i) =>
        match Resolve(Child(t, i), SkipToken(pointer[1..]), cs)
        case None => None
        case Some(path) => Some([i] + path)
  }

  function Lookup(t: Json, pointer: string, cs: bool): Option<Json> {
    match Resolve(t, pointer, cs)
    case None => None
    case Some(path) => Some(At(t, path))
  }

  /** The loop of `get_item_from_pointer`. */
  method GetItemFromPointer(object0: Json, pointer0: string, cs: bool) returns (item: Option<Json>)
    ensures item == Lookup(object0, pointer0, cs)
  {
    var current, pointer := object0, pointer0;
    while pointer != [] && pointer[0] == '/'
      invariant Lookup(object0, pointer0, cs) == Lookup(current, pointer, cs)
      decreases |pointer|
    {
      pointer := pointer[1..];
      if current.Array? {
        var index := DecodeArrayIndex(pointer);
        if index == None || index.value >= |current.items| {
          return None;
        }
        LookupChild(current, pointer, index.value, cs);
        current := current.items[index.value];
      } else if current.Object? {
        var i := 0;
        while i < |current.members|
          invariant i <= |current.members|
          invariant forall j :: 0 <= j < i ==> !PointerMatches(current.members[j].key, pointer, cs)
        {
          var matches := ComparePointers(current.members[i].key, pointer, cs);
          if matches {
            break;
          }
          i := i + 1;
        }
        if i == |current.members| {
          return None;
        }
        LookupChild(current, pointer, i, cs);
        current := current.members[i].value;
      } else {
        return None;
      }
      ghost var token := pointer;
      while pointer != [] && pointer[0] != '/'
        invariant SkipToken(pointer) == SkipToken(token) && |pointer| <= |token|
        decreases |pointer|
      {
        pointer := pointer[1..];
      }
    }
    return Some(current);
  }

  lemma LookupChild(t: Json, pointer: string, i: nat, cs: bool)
    requires ChildIndex(t, pointer, cs) == Some(i)
    ensures Lookup(t, ['/'] + pointer, cs) == Lookup(Child(t, i), SkipToken(pointer), cs)
  {
    assert (['/'] + pointer)[1..] == pointer;
    var r := Resolve(Child(t, i), SkipToken(pointer), cs);
    if r.Some? {
      assert ([i] + r.value)[1..] == r.value;
    }
  }

  // ----- the pointer of a node -----

  /** An escaped key, in memory every byte of which held `u`. */
  function EncodeKey(key: string, u: char): string {
    Encode(key, seq(EncodedLength(key), _ => u))
  }

  /** The token for the `i`-th child: the decimal index, or the escaped key. */
  function ChildToken(t: Json, i: nat, u: char): string
    requires i < ChildCount(t)
  {
    if t.Array? then Decimal(i) else EncodeKey(t.members[i].key, u)
  }

  /** `cJSONUtils_FindPointerFromObjectTo`, for the node at `path`. */
  function FindPointer(t: Json, path: Path, u: char): string
    requires ValidPath(t, path)
    decreases |path|
  {
    if path == [] then ""
    else "/" + (ChildToken(t, path[0], u) + FindPointer(Child(t, path[0]), path[1..], u))
  }

  /** The search of `cJSONUtils_FindPointerFromObjectTo`: `t` is the node at `at`, and two nodes are the same
      when their places are. */
  method FindPointerFromObjectTo(t: Json, at: Path, target: Path, u: char) returns (pointer: Option<string>)
    ensures pointer == if at <= target && ValidPath(t, target[|at|..]) then Some(FindPointer(t, target[|at|..], u)) else None
    decreases Height(t)
  {
    hide ChildToken, FindPointer;
    if at == target {
      FindPointerStep(t, target[|at|..], u);
      return Some("");
    }
    var i := 0;
    while i < ChildCount(t)
      invariant i <= ChildCount(t) && (at < target && ValidPath(t, target[|at|..]) ==> target[|at|] >= i)
    {
      var rest := FindPointerFromObjectTo(Child(t, i), at + [i], target, u);
      if rest.Some? {
        Below(at, i, target);
        FindPointerStep(t, target[|at|..], u);
        return Some("/" + (ChildToken(t, i, u) + rest.value));
      }
      if at < target && target[|at|] == i { Below(at, i, target); }
      i := i + 1;
    }
    return None;
  }

  lemma Below(at: Path, i: nat, target: Path)
    ensures at + [i] <= target <==> at < target && target[|at|] == i
    ensures at + [i] <= target ==> target[|at|..][0] == i && target[|at|..][1..] == target[|at + [i]|..]
  {
    if at < target && target[|at|] == i { assert at + [i] == target[..|at| + 1]; }
  }

  lemma FindPointerStep(t: Json, path: Path, u: char)
    requires ValidPath(t, path)
    ensures path == [] ==> FindPointer(t, path, u) == ""
    ensures path != [] ==> path[0] < ChildCount(t) && ValidPath(Child(t, path[0]), path[1..])
    ensures path != [] ==> FindPointer(t, path, u) == "/" + (ChildToken(t, path[0], u) + FindPointer(Child(t, path[0]), path[1..], u))
  {
    hide ChildToken;
  }

  /** Every array is short enough for its indices to fit a `size_t`. */
  predicate Sized(t: Json) {
    match t
    case Array(xs) => |xs| <= SIZE_LIMIT && forall i :: 0 <= i < |xs| ==> Sized(xs[i])
    case Object(ms) => forall i :: 0 <= i < |ms| ==> Sized(ms[i].value)
    case _ => true
  }

  /** What escaping needs of a key: no tilde, and no slash unless fresh memory holds tildes. */
  predicate Portable(key: string, u: char) {
    '~' !in key && ('/' in key ==> u == '~')
  }

  lemma {:induction false} PortableSurvives(key: string, mem: string, u: char)
    requires |mem| == EncodedLength(key) && forall i :: 0 <= i < |mem| ==> mem[i] == u
    ensures Survives(key, mem) <==> Portable(key, u)
  {
    if key != [] {
      assert key == [key[0]] + key[1..];
      assert forall c :: c in key <==> c == key[0] || c in key[1..];
      var w := Width(key[0]);
      if key[0] != '~' { PortableSurvives(key[1..], mem[w..], u); }
    }
  }

  /** On the way down to the node every key is portable, and no earlier sibling has the same key. */
  predicate Addressable(t: Json, path: Path, u: char, cs: bool)
    requires ValidPath(t, path)
    decreases |path|
  {
    path != [] ==>
      && (t.Object? ==>
            && Portable(t.members[path[0]].key, u)
            && forall j :: 0 <= j < path[0] ==> !KeyEq(t.members[j].key, t.members[path[0]].key, cs))
      && Addressable(Child(t, path[0]), path[1..], u, cs)
  }

  lemma FindTokenIs(ms: seq<Member>, pointer: string, cs: bool, i: nat)
    requires i < |ms|
    ensures FindToken(ms, pointer, cs) == i
            <==> PointerMatches(ms[i].key, pointer, cs)
                 && forall j :: 0 <= j < i ==> !PointerMatches(ms[j].key, pointer, cs)
  {
  }

  /** The token built for a child selects that child exactly under the condition of `Addressable`. */
  lemma ChildTokenSelects(t: Json, i: nat, u: char, cs: bool, rest: string)
    requires i < ChildCount(t) && EndsToken(rest) && (t.Array? ==> |t.items| <= SIZE_LIMIT)
    ensures var p := ChildToken(t, i, u) + rest;
            ChildIndex(t, p, cs) == Some(i)
            <==> (t.Object? ==>
                    && Portable(t.members[i].key, u)
                    && forall j :: 0 <= j < i ==> !KeyEq(t.members[j].key, t.members[i].key, cs))
    ensures ChildIndex(t, ChildToken(t, i, u) + rest, cs) == Some(i) ==>
              SkipToken(ChildToken(t, i, u) + rest) == rest
  {
    if t.Array? {
      DecimalIndex(i, rest);
      SkipTokenIs(Decimal(i), rest);
    } else {
      var ms, key := t.members, t.members[i].key;
      var mem := seq(EncodedLength(key), _ => u);
      var token := Encode(key, mem);
      PortableSurvives(key, mem, u);
      EncodedMatchesIff(key, mem, rest, cs);
      FindTokenIs(ms, token + rest, cs, i);
      if Portable(key, u) {
        SurvivorUnescapes(key, mem);
        SkipTokenIs(token, rest);
        forall j | 0 <= j < |ms| ensures PointerMatches(ms[j].key, token + rest, cs) <==> KeyEq(ms[j].key, key, cs) {
          PointerMatchesMeaning(ms[j].key, token, rest, cs);
        }
      }
    }
  }

  /** Printing an index and decoding it gives the index back. */
  lemma DecimalIndex(n: nat, rest: string)
    requires n < SIZE_LIMIT && EndsToken(rest)
    ensures DecodeIndex(Decimal(n) + rest) == Some(n)
  {
    var d := Decimal(n);
    ScanDigits(d, d + rest, 0, n);
    if d[0] == '0' { assert |d| == 1; }
  }

  lemma {:induction false} ScanDigits(d: string, p: string, k: nat, n: nat)
    requires k <= |d| && d == Decimal(n) && n < SIZE_LIMIT
    requires d <= p && (|p| > |d| ==> p[|d|] == '/')
    ensures DigitsValue(d[..k]) <= n
    ensures ScanIndex(p, k, DigitsValue(d[..k])) == (|d|, n)
    decreases |d| - k
  {
    DecimalPrefix(n, k);
    if k == |d| {
      DecimalValue(n);
      assert d[..k] == d;
    } else {
      DecimalPrefix(n, k + 1);
      DigitsStep(d, k);
      ScanOnce(p, k, DigitsValue(d[..k]), DigitsValue(d[..k + 1]));
      ScanDigits(d, p, k + 1, n);
    }
  }

  lemma ScanOnce(p: string, k: nat, parsed: nat, parsed': nat)
    requires k < |p| && '0' <= p[k] && p[0] <= '9'
    requires parsed' == 10 * parsed + (p[k] as int - '0' as int) < SIZE_LIMIT
    ensures ScanIndex(p, k, parsed) == ScanIndex(p, k + 1, parsed')
  {
  }

  lemma DigitsStep(d: string, k: nat)
    requires k < |d| && forall i :: 0 <= i < |d| ==> '0' <= d[i] <= '9'
    ensures DigitsValue(d[..k + 1]) == 10 * DigitsValue(d[..k]) + (d[k] as int - '0' as int)
  {
    assert d[..k + 1][..k] == d[..k];
  }

  lemma {:induction false} DecimalPrefix(n: nat, k: nat)
    requires k <= |Decimal(n)|
    ensures DigitsValue(Decimal(n)[..k]) <= n
  {
    var d := Decimal(n);
    DecimalValue(n);
    if k == |d| {
      assert d[..k] == d;
    } else if n >= 10 {
      assert d[..k] == Decimal(n / 10)[..k];
      DecimalPrefix(n / 10, k);
    } else {
      assert d[..k] == [];
    }
  }

  /** Resolving the pointer of a node gives that very node exactly when the node is addressable. */
  lemma {:induction false} PointerInverse(t: Json, path: Path, u: char, cs: bool)
    requires ValidPath(t, path) && Sized(t)
    ensures EndsToken(FindPointer(t, path, u))
    ensures Resolve(t, FindPointer(t, path, u), cs) == Some(path) <==> Addressable(t, path, u, cs)
    decreases |path|
  {
    if path != [] {
      var i, c := path[0], Child(t, path[0]);
      var rest := FindPointer(c, path[1..], u);
      var q := ChildToken(t, i, u) + rest;
      PointerInverse(c, path[1..], u, cs);
      ChildTokenSelects(t, i, u, cs, rest);
      ResolveStep(t, q, path, cs);
      assert FindPointer(t, path, u) == "/" + q;
    }
  }

  lemma ResolveStep(t: Json, q: string, path: Path, cs: bool)
    requires path != []
    ensures Resolve(t, "/" + q, cs) == Some(path)
            <==> ChildIndex(t, q, cs) == Some(path[0])
                 && Resolve(Child(t, path[0]), SkipToken(q), cs) == Some(path[1..])
  {
    assert ("/" + q)[1..] == q;
    assert path == [path[0]] + path[1..];
    var i := ChildIndex(t, q, cs);
    if i.Some? {
      var r := Resolve(Child(t, i.value), SkipToken(q), cs);
      if r.Some? {
        var whole := [i.value] + r.value;
        assert whole[0] == i.value && whole[1..] == r.value;
      }
    }
  }

  /** Keys that need no escaping, at every depth. */
  predicate FreeKeys(t: Json) {
    match t
    case Array(xs) => forall i :: 0 <= i < |xs| ==> FreeKeys(xs[i])
    case Object(ms) => forall i :: 0 <= i < |ms| ==> Free(ms[i].key) && FreeKeys(ms[i].value)
    case _ => true
  }

  /** With unique keys free of `~` and `/`, every node of the tree is found again by its pointer. */
  lemma {:induction false} EveryNodeAddressable(t: Json, path: Path, u: char, cs: bool)
    requires ValidPath(t, path) && Sized(t) && Unique(t, cs) && FreeKeys(t)
    ensures Resolve(t, FindPointer(t, path, u), cs) == Some(path)
    ensures Lookup(t, FindPointer(t, path, u), cs) == Some(At(t, path))
  {
    AllAddressable(t, path, u, cs);
    PointerInverse(t, path, u, cs);
  }

  lemma {:induction false} AllAddressable(t: Json, path: Path, u: char, cs: bool)
    requires ValidPath(t, path) && Unique(t, cs) && FreeKeys(t)
    ensures Addressable(t, path, u, cs)
    decreases |path|
  {
    if path != [] { AllAddressable(Child(t, path[0]), path[1..], u, cs); }
  }
}

/** The nesting limit of the parser: what it keeps, and what it costs. */
module JsonNesting {

  import opened JsonTree
  import opened JsonText
  import opened JsonParser
  import opened JsonReading
  import opened JsonPrintParse
  import opened CStrings
  import opened Options

  /** No more than `levels` arrays and objects inside each other. */
  predicate Shallow(t: Json, levels: nat) {
    match t
    case Array(xs) => levels > 0 && ItemsShallow(xs, levels - 1)
    case Object(ms) => levels > 0 && MembersShallow(ms, levels - 1)
    case _ => true
  }

  predicate ItemsShallow(xs: seq<Json>, levels: nat) {
    xs != [] ==> Shallow(xs[0], levels) && ItemsShallow(xs[1..], levels)
  }

  predicate MembersShallow(ms: seq<Member>, levels: nat) {
    ms != [] ==> Shallow(ms[0].value, levels) && MembersShallow(ms[1..], levels)
  }

  // ----- what comes out of the parser -----

  lemma NotLast(c: string, o: nat)
    requires Content(c) && o < |c| && c[o] != NUL
    ensures o + 1 < |c|
  {
  }

  /** At whatever depth the parser stands, what it returns fits into the levels that are left. */
  lemma {:induction false} ValueIsShallow(c: string, o: nat, depth: nat, scan: Scanner)
    requires Content(c) && o < |c| && depth <= NESTING_LIMIT
    ensures var t := ValueAt(c, o, depth, scan).0; t.Some? ==> Shallow(t.value, NESTING_LIMIT - depth)
    decreases |c| - o, 1
  {
    hide Content, StringAt, NumberRun, Saturate, Reads, ItemsAt, MembersAt, ItemsShallow, MembersShallow, ArrayAt, ObjectAt;
    if c[o] == '[' { ArrayIsShallow(c, o, depth, scan); }
    if c[o] == '{' { ObjectIsShallow(c, o, depth, scan); }
  }

  lemma {:induction false} ArrayIsShallow(c: string, o: nat, depth: nat, scan: Scanner)
    requires Content(c) && o < |c| && c[o] == '[' && depth <= NESTING_LIMIT
    ensures var t := ArrayAt(c, o, depth, scan).0; t.Some? ==> Shallow(t.value, NESTING_LIMIT - depth)
    decreases |c| - o, 0
  {
    hide Content, SkipBlanks, ItemsAt, ValueAt;
    if depth < NESTING_LIMIT {
      NotLast(c, o);
      var p := SkipBlanks(c, o + 1);
      if c[p] != ']' { ItemsAreShallow(c, p, depth + 1, scan); }
    }
  }

  lemma {:induction false} ItemsAreShallow(c: string, o: nat, depth: nat, scan: Scanner)
    requires Content(c) && o < |c| && depth <= NESTING_LIMIT
    ensures var xs := ItemsAt(c, o, depth, scan).0; xs.Some? ==> ItemsShallow(xs.value, NESTING_LIMIT - depth)
    decreases |c| - o, 2
  {
    hide Content, SkipBlanks, ValueAt, Shallow;
    var p := SkipBlanks(c, o);
    ValueIsShallow(c, p, depth, scan);
    var (v, q) := ValueAt(c, p, depth, scan);
    if v.Some? {
      var e := SkipBlanks(c, q);
      if c[e] == ',' {
        NotLast(c, e);
        ItemsAreShallow(c, e + 1, depth, scan);
        var more := ItemsAt(c, e + 1, depth, scan).0;
        if more.Some? { assert ([v.value] + more.value)[1..] == more.value; }
      }
    }
  }

  lemma {:induction false} ObjectIsShallow(c: string, o: nat, depth: nat, scan: Scanner)
    requires Content(c) && o < |c| && c[o] == '{' && depth <= NESTING_LIMIT
    ensures var t := ObjectAt(c, o, depth, scan).0; t.Some? ==> Shallow(t.value, NESTING_LIMIT - depth)
    decreases |c| - o, 0
  {
    hide Content, SkipBlanks, MembersAt, ValueAt;
    if depth < NESTING_LIMIT {
      NotLast(c, o);
      var p := SkipBlanks(c, o + 1);
      if c[p] != '}' { MembersAreShallow(c, p, depth + 1, scan); }
    }
  }

  lemma {:induction false} MembersAreShallow(c: string, o: nat, depth: nat, scan: Scanner)
    requires Content(c) && o < |c| && depth <= NESTING_LIMIT
    ensures var ms := MembersAt(c, o, depth, scan).0; ms.Some? ==> MembersShallow(ms.value, NESTING_LIMIT - depth)
    decreases |c| - o, 2
  {
    hide Content, SkipBlanks, ValueAt, StringAt, Shallow;
    var p := SkipBlanks(c, o);
    var (key, k) := StringAt(c, p);
    if key.Some? {
      var colon := SkipBlanks(c, k);
      if c[colon] == ':' {
        var at := SkipBlanks(c, colon + 1);
        ValueIsShallow(c, at, depth, scan);
        var (v, q) := ValueAt(c, at, depth, scan);
        if v.Some? {
          var e := SkipBlanks(c, q);
          if c[e] == ',' {
            NotLast(c, e);
            MembersAreShallow(c, e + 1, depth, scan);
            var more := MembersAt(c, e + 1, depth, scan).0;
            if more.Some? { assert ([Member(key.value, v.value)] + more.value)[1..] == more.value; }
          }
        }
      }
    }
  }

  /** Whatever the text, a tree that is returned is nested no deeper than the limit. */
  lemma ParsedIsShallow(value: string, requireNullTerminated: bool, scan: Scanner)
    requires NulFree(value)
    ensures var t := ParseWithOpts(value, requireNullTerminated, scan).0; t.Some? ==> Shallow(t.value, NESTING_LIMIT)
  {
    hide ValueAt, SkipBlanks, Reads, Shallow;
    var c := value + [NUL];
    assert c[..|c| - 1] == value;
    var start := if |c| > 4 && Reads(c, 0, [0xEF as char, 0xBB as char, 0xBF as char]) then 3 else 0;
    ValueIsShallow(c, SkipBlanks(c, start), 0, scan);
  }

  // ----- which trees come back -----

  lemma {:induction false} ReadableWithin(t: Json, n: nat, levels: nat, token: real -> string, scan: Scanner)
    requires Readable(t, n, token, scan)
    ensures Shallow(t, levels) <==> Readable(t, levels, token, scan)
    decreases t
  {
    match t
    case Array(xs) => if levels > 0 { ItemsReadableWithin(xs, n - 1, levels - 1, token, scan); }
    case Object(ms) => if levels > 0 { MembersReadableWithin(ms, n - 1, levels - 1, token, scan); }
    case _ =>
  }

  lemma {:induction false} ItemsReadableWithin(xs: seq<Json>, n: nat, levels: nat, token: real -> string, scan: Scanner)
    requires ItemsReadable(xs, n, token, scan)
    ensures ItemsShallow(xs, levels) <==> ItemsReadable(xs, levels, token, scan)
    decreases xs
  {
    if xs != [] {
      ReadableWithin(xs[0], n, levels, token, scan);
      ItemsReadableWithin(xs[1..], n, levels, token, scan);
    }
  }

  lemma {:induction false} MembersReadableWithin(ms: seq<Member>, n: nat, levels: nat, token: real -> string, scan: Scanner)
    requires MembersReadable(ms, n, token, scan)
    ensures MembersShallow(ms, levels) <==> MembersReadable(ms, levels, token, scan)
    decreases ms
  {
    if ms != [] {
      ReadableWithin(ms[0].value, n, levels, token, scan);
      MembersReadableWithin(ms[1..], n, levels, token, scan);
    }
  }

  /** Of the trees that can be printed, of any depth, exactly those within the limit come back. */
  lemma ComesBackIff(t: Json, n: nat, format: bool, requireNullTerminated: bool, token: real -> string, scan: Scanner)
    requires Readable(t, n, token, scan)
    ensures Printable(t, token) && NulFree(Text(t, 0, format, token))
    ensures ParseWithOpts(Text(t, 0, format, token), requireNullTerminated, scan).0 == Some(t) <==> Shallow(t, NESTING_LIMIT)
  {
    hide Text, Readable, Shallow, Printable, Terminated, ParseWithOpts;
    ReadableIsPrintable(t, n, token, scan);
    TextNulFree(t, 0, format, token);
    ReadableWithin(t, n, NESTING_LIMIT, token, scan);
    ParsedIsShallow(Text(t, 0, format, token), requireNullTerminated, scan);
    if Shallow(t, NESTING_LIMIT) { PrintThenParse(t, format, requireNullTerminated, token, scan); }
  }
}

/** The parser of cJSON.c. The content ends with the terminator of the C string; every function says
    what it makes of the content from an offset on, and where the offset is afterwards. */
module JsonParser {

  import opened CStrings
  import opened JsonTree
  import opened JsonText
  import opened JsonStrings
  import opened Options
  import opened Sequences

  const NESTING_LIMIT: nat := 1000
  const INT_MAX := 0x7FFF_FFFF
  const INT_MIN := -0x8000_0000

  /** `strtod`: the number at the beginning of a text, and how many characters it takes. */
  type Scanner = string -> Option<(real, nat)>

  /** A C string with its terminator. */
  predicate Content(c: string) {
    c != [] && c[|c| - 1] == NUL && NulFree(c[..|c| - 1])
  }

  predicate IsBlank(x: char) {
    x as int <= 32
  }

  /** `buffer_skip_whitespace`: the terminator is skipped, too, but then taken back. */
  function SkipBlanks(c: string, o: nat): (p: nat)
    requires c != [] && o <= |c|
    ensures p < |c| && (o < |c| ==> o <= p) && (o == |c| ==> p == |c| - 1)
    decreases |c| - o
  {
    if o == |c| then |c| - 1
    else if IsBlank(c[o]) then SkipBlanks(c, o + 1)
    else o
  }

  predicate Reads(c: string, o: nat, word: string) {
    o + |word| <= |c| && c[o..o + |word|] == word
  }

  // ----- numbers -----

  predicate IsNumberChar(x: char) {
    '0' <= x <= '9' || x == '+' || x == '-' || x == 'e' || x == 'E' || x == '.'
  }

  /** The characters that go to the scanner: at most 63. */
  function NumberRun(c: string, o: nat, n: nat := 63): (r: string)
    requires o <= |c|
    ensures |r| <= n && Reads(c, o, r)
    decreases n
  {
    if n > 0 && o < |c| && IsNumberChar(c[o]) then [c[o]] + NumberRun(c, o + 1, n - 1) else ""
  }

  /** `valueint`: cut off, and limited to what an `int` holds. */
  function Saturate(d: real): int {
    if d >= INT_MAX as real then INT_MAX
    else if d <= INT_MIN as real then INT_MIN
    else if d >= 0.0 then d.Floor
    else -((-d).Floor)
  }

  function NumberAt(c: string, o: nat, scan: Scanner): (r: (Option<Json>, nat))
    requires o <= |c|
    ensures r.0.Some? ==> o < r.1 <= |c|
  {
    var run := NumberRun(c, o);
    var s := scan(run);
    if s == None || s.value.1 == 0 || s.value.1 > |run| then (None, o)
    else (Some(Number(Saturate(s.value.0), s.value.0)), o + s.value.1)
  }

  // ----- strings -----

  function StringAt(c: string, o: nat): (r: (Option<string>, nat))
    requires o < |c|
    ensures r.0.Some? ==> o < r.1 <= |c|
  {
    if c[o] != '"' then (None, o + 1)
    else
      var m := Closing(c, o + 1);
      if m == None then (None, o + 1)
      else
        var (s, p) := Unescape(c, o + 1, m.value.end);
        if s == None then (None, p) else (Some(CString(s.value)), m.value.end + 1)
  }

  // ----- values -----

  function ValueAt(c: string, o: nat, depth: nat, scan: Scanner): (r: (Option<Json>, nat))
    requires Content(c) && o < |c|
    ensures r.0.Some? ==> o < r.1 <= |c|
    decreases |c| - o, 1
  {
    if Reads(c, o, "null") then (Some(Null), o + 4)
    else if Reads(c, o, "false") then (Some(False), o + 5)
    else if Reads(c, o, "true") then (Some(True), o + 4)
    else if c[o] == '"' then
      var (s, p) := StringAt(c, o);
      (if s == None then None else Some(String(s.value)), p)
    else if c[o] == '-' || '0' <= c[o] <= '9' then NumberAt(c, o, scan)
    else if c[o] == '[' then ArrayAt(c, o, depth, scan)
    else if c[o] == '{' then ObjectAt(c, o, depth, scan)
    else (None, o)
  }

  function ArrayAt(c: string, o: nat, depth: nat, scan: Scanner): (r: (Option<Json>, nat))
    requires Content(c) && o < |c| && c[o] == '['
    ensures r.0.Some? ==> o < r.1 <= |c|
    decreases |c| - o, 0
  {
    if depth >= NESTING_LIMIT then (None, o)
    else
      var p := SkipBlanks(c, o + 1);
      if c[p] == ']' then (Some(Array([])), p + 1)
      else
        var (xs, q) := ItemsAt(c, p, depth + 1, scan);
        if xs == None then (None, q)
        else if c[q] != ']' then (None, q)
        else (Some(Array(xs.value)), q + 1)
  }

  /** The items from `o` on, up to what follows the last one. */
  function ItemsAt(c: string, o: nat, depth: nat, scan: Scanner): (r: (Option<seq<Json>>, nat))
    requires Content(c) && o < |c|
    ensures r.0.Some? ==> o <= r.1 < |c|
    decreases |c| - o, 2
  {
    var p := SkipBlanks(c, o);
    var (v, q) := ValueAt(c, p, depth, scan);
    if v == None then (None, q)
    else
      var e := SkipBlanks(c, q);
      if c[e] == ',' then
        var (rest, f) := ItemsAt(c, e + 1, depth, scan);
        (if rest == None then None else Some([v.value] + rest.value), f)
      else (Some([v.value]), e)
  }

  function ObjectAt(c: string, o: nat, depth: nat, scan: Scanner): (r: (Option<Json>, nat))
    requires Content(c) && o < |c| && c[o] == '{'
    ensures r.0.Some? ==> o < r.1 <= |c|
    decreases |c| - o, 0
  {
    if depth >= NESTING_LIMIT then (None, o)
    else
      var p := SkipBlanks(c, o + 1);
      if c[p] == '}' then (Some(Object([])), p + 1)
      else
        var (ms, q) := MembersAt(c, p, depth + 1, scan);
        if ms == None then (None, q)
        else if c[q] != '}' then (None, q)
        else (Some(Object(ms.value)), q + 1)
  }

  function MembersAt(c: string, o: nat, depth: nat, scan: Scanner): (r: (Option<seq<Member>>, nat))
    requires Content(c) && o < |c|
    ensures r.0.Some? ==> o <= r.1 < |c|
    decreases |c| - o, 2
  {
    var p := SkipBlanks(c, o);
    var (key, k) := StringAt(c, p);
    if key == None then (None, k)
    else
      var colon := SkipBlanks(c, k);
      if c[colon] != ':' then (None, colon)
      else
        var (v, q) := ValueAt(c, SkipBlanks(c, colon + 1), depth, scan);
        if v == None then (None, q)
        else
          var e := SkipBlanks(c, q);
          var m := Member(key.value, v.value);
          if c[e] == ',' then
            var (rest, f) := MembersAt(c, e + 1, depth, scan);
            (if rest == None then None else Some([m] + rest.value), f)
          else (Some([m]), e)
  }

  /** `cJSON_ParseWithOpts`: the tree, and the end of the parse or the position of the error. */
  function ParseWithOpts(value: string, requireNullTerminated: bool, scan: Scanner): (Option<Json>, nat)
    requires NulFree(value)
  {
    var c := value + [NUL];
    assert c[..|c| - 1] == value;
    var start := if |c| > 4 && Reads(c, 0, [0xEF as char, 0xBB as char, 0xBF as char]) then 3 else 0;
    var (t, q) := ValueAt(c, SkipBlanks(c, start), 0, scan);
    if t == None then (None, ErrorPosition(c, q))
    else if requireNullTerminated then
      var e := SkipBlanks(c, q);
      if c[e] != NUL then (None, e) else (t, e)
    else (t, q)
  }

  function ErrorPosition(c: string, q: nat): nat
    requires c != []
  {
    if q < |c| then q else |c| - 1
  }

  // ----- the program -----

  class ParseBuffer {
    const content: string
    var offset: nat
    var depth: nat

    constructor (value: string)
      requires NulFree(value)
      ensures content == value + [NUL] && offset == 0 && depth == 0 && Content(content)
    {
      content := value + [NUL];
      offset, depth := 0, 0;
      new;
      assert content[..|content| - 1] == value;
    }

    ghost predicate Valid()
      reads `offset
    {
      Content(content) && offset < |content|
    }

    method SkipWhitespace()
      requires Content(content) && offset <= |content|
      modifies `offset
      ensures Valid() && offset == SkipBlanks(content, old(offset))
    {
      while offset < |content| && IsBlank(content[offset])
        invariant offset <= |content| && SkipBlanks(content, offset) == SkipBlanks(content, old(offset))
      {
        offset := offset + 1;
      }
      if offset == |content| {
        offset := offset - 1;
      }
    }

    /** The characters of a number, copied to a buffer of 64. */
    method CopyNumber() returns (digits: string)
      requires Valid()
      ensures digits == NumberRun(content, offset)
    {
      hide NumberRun;
      digits := "";
      var i := 0;
      ghost var run := NumberRun(content, offset);
      assert "" + run == run;
      while i < 63 && offset + i < |content| && IsNumberChar(content[offset + i])
        invariant 0 <= i <= 63 && offset + i <= |content|
        invariant digits + NumberRun(content, offset + i, 63 - i) == run
      {
        RunStep(content, offset + i, 63 - i);
        Associative(digits, [content[offset + i]], NumberRun(content, offset + i + 1, 62 - i));
        digits := digits + [content[offset + i]];
        i := i + 1;
      }
      RunStep(content, offset + i, 63 - i);
      assert digits + "" == digits;
    }

    method ParseNumber(scan: Scanner) returns (r: Option<Json>)
      requires Valid()
      modifies `offset
      ensures (r, offset) == NumberAt(content, old(offset), scan)
    {
      hide NumberRun, Saturate;
      var digits := CopyNumber();
      var s := scan(digits);
      if s == None || s.value.1 == 0 || s.value.1 > |digits| {
        return None;
      }
      offset := offset + s.value.1;
      return Some(Number(Saturate(s.value.0), s.value.0));
    }

    method ParseString() returns (r: Option<string>)
      requires Valid()
      modifies `offset
      ensures (r, offset) == StringAt(content, old(offset))
    {
      hide Closing, Unescape;
      var start := offset + 1;
      if content[offset] != '"' {
        offset := start;
        return None;
      }
      var m := MeasureString(content, start);
      if m == None {
        offset := start;
        return None;
      }
      var end, skipped := m.value.end, m.value.skipped;
      ClosingFits(content, start);
      var output := new char[end - offset - skipped + 1];
      var ok, op, p := UnescapeInto(content, start, end, skipped, output);
      if !ok {
        offset := p;
        return None;
      }
      offset := end + 1;
      return Some(CString(output[..op]));
    }

    method ParseValue(scan: Scanner) returns (r: Option<Json>)
      requires Valid()
      modifies this
      ensures (r, offset) == ValueAt(content, old(offset), old(depth), scan)
      ensures r.Some? ==> depth == old(depth)
      decreases |content| - offset, 1
    {
      hide StringAt, NumberAt;
      if Reads(content, offset, "null") {
        offset := offset + 4;
        return Some(Null);
      }
      if Reads(content, offset, "false") {
        offset := offset + 5;
        return Some(False);
      }
      if Reads(content, offset, "true") {
        offset := offset + 4;
        return Some(True);
      }
      var x := content[offset];
      if x == '"' {
        var s := ParseString();
        return if s == None then None else Some(String(s.value));
      }
      if x == '-' || '0' <= x <= '9' {
        r := ParseNumber(scan);
        return;
      }
      if x == '[' {
        r := ParseArray(scan);
        return;
      }
      if x == '{' {
        r := ParseObject(scan);
        return;
      }
      return None;
    }

    method ParseArray(scan: Scanner) returns (r: Option<Json>)
      requires Valid() && content[offset] == '['
      modifies this
      ensures (r, offset) == ArrayAt(content, old(offset), old(depth), scan)
      ensures r.Some? ==> depth == old(depth)
      decreases |content| - offset, 0
    {
      hide ItemsAt, SkipBlanks;
      if depth >= NESTING_LIMIT {
        return None;
      }
      depth := depth + 1;
      offset := offset + 1;
      SkipWhitespace();
      var items: seq<Json> := [];
      if content[offset] != ']' {
        var xs := ParseItems(scan);
        if xs == None || content[offset] != ']' {
          return None;
        }
        items := xs.value;
      }
      depth := depth - 1;
      offset := offset + 1;
      return Some(Array(items));
    }

    /** The loop over the items: each is put behind the ones before it. */
    method ParseItems(scan: Scanner) returns (r: Option<seq<Json>>)
      requires Valid()
      modifies this
      ensures (r, offset) == ItemsAt(content, old(offset), old(depth), scan)
      ensures r.Some? ==> depth == old(depth)
      decreases |content| - offset, 2
    {
      hide ValueAt, SkipBlanks;
      var items: seq<Json> := [];
      ghost var start := offset;
      ghost var c, d := content, depth;
      NothingInFront(ItemsAt(c, start, d, scan));
      while true
        invariant Valid() && depth == d && start <= offset
        invariant InFront(items, ItemsAt(c, offset, d, scan)) == ItemsAt(c, start, d, scan)
        decreases |content| - offset
      {
        ghost var o := offset;
        SkipWhitespace();
        var v := ParseValue(scan);
        if v == None {
          return None;
        }
        SkipWhitespace();
        if content[offset] != ',' {
          return Some(items + [v.value]);
        }
        offset := offset + 1;
        InFrontTwice(items, [v.value], ItemsAt(c, offset, d, scan));
        items := items + [v.value];
      }
    }

    method ParseObject(scan: Scanner) returns (r: Option<Json>)
      requires Valid() && content[offset] == '{'
      modifies this
      ensures (r, offset) == ObjectAt(content, old(offset), old(depth), scan)
      ensures r.Some? ==> depth == old(depth)
      decreases |content| - offset, 0
    {
      hide MembersAt, SkipBlanks;
      if depth >= NESTING_LIMIT {
        return None;
      }
      depth := depth + 1;
      offset := offset + 1;
      SkipWhitespace();
      var members: seq<Member> := [];
      if content[offset] != '}' {
        var ms := ParseMembers(scan);
        if ms == None || content[offset] != '}' {
          return None;
        }
        members := ms.value;
      }
      depth := depth - 1;
      offset := offset + 1;
      return Some(Object(members));
    }

    method ParseMembers(scan: Scanner) returns (r: Option<seq<Member>>)
      requires Valid()
      modifies this
      ensures (r, offset) == MembersAt(content, old(offset), old(depth), scan)
      ensures r.Some? ==> depth == old(depth)
      decreases |content| - offset, 2
    {
      hide ValueAt, SkipBlanks, StringAt, MembersAt;
      var members: seq<Member> := [];
      ghost var start := offset;
      ghost var c, d := content, depth;
      NothingInFront(MembersAt(c, start, d, scan));
      while true
        invariant Valid() && depth == d && start <= offset
        invariant InFront(members, MembersAt(c, offset, d, scan)) == MembersAt(c, start, d, scan)
        decreases |content| - offset
      {
        MembersStep(c, offset, d, scan);
        SkipWhitespace();
        var key := ParseString();
        if key == None {
          return None;
        }
        SkipWhitespace();
        if content[offset] != ':' {
          return None;
        }
        offset := offset + 1;
        SkipWhitespace();
        var v := ParseValue(scan);
        if v == None {
          return None;
        }
        SkipWhitespace();
        var m := Member(key.value, v.value);
        if content[offset] != ',' {
          return Some(members + [m]);
        }
        offset := offset + 1;
        InFrontTwice(members, [m], MembersAt(c, offset, d, scan));
        members := members + [m];
      }
    }
  }

  /** One round of the loop over the members. */
  lemma MembersStep(c: string, o: nat, depth: nat, scan: Scanner)
    requires Content(c) && o < |c|
    ensures var (key, k) := StringAt(c, SkipBlanks(c, o));
      if key == None then MembersAt(c, o, depth, scan) == (None, k)
      else
        var colon := SkipBlanks(c, k);
        if c[colon] != ':' then MembersAt(c, o, depth, scan) == (None, colon)
        else
          var (v, q) := ValueAt(c, SkipBlanks(c, colon + 1), depth, scan);
          if v == None then MembersAt(c, o, depth, scan) == (None, q)
          else
            var e, m := SkipBlanks(c, q), Member(key.value, v.value);
            MembersAt(c, o, depth, scan) == if c[e] == ',' then InFront([m], MembersAt(c, e + 1, depth, scan)) else (Some([m]), e)
  {
    hide ValueAt, StringAt;
  }

  lemma RunStep(c: string, o: nat, n: nat)
    requires o <= |c|
    ensures NumberRun(c, o, n) == if n > 0 && o < |c| && IsNumberChar(c[o]) then [c[o]] + NumberRun(c, o + 1, n - 1) else ""
  {
  }

  function InFront<T>(a: seq<T>, r: (Option<seq<T>>, nat)): (Option<seq<T>>, nat) {
    (if r.0 == None then None else Some(a + r.0.value), r.1)
  }

  lemma NothingInFront<T>(r: (Option<seq<T>>, nat))
    ensures InFront([], r) == r
  {
    if r.0 != None { assert [] + r.0.value == r.0.value; }
  }

  lemma InFrontTwice<T>(a: seq<T>, b: seq<T>, r: (Option<seq<T>>, nat))
    ensures InFront(a, InFront(b, r)) == InFront(a + b, r)
  {
    if r.0 != None { Associative(a, b, r.0.value); }
  }

  lemma ClosingFits(c: string, start: nat)
    requires start <= |c| && Closing(c, start).Some?
    ensures Closing(c, start).value.skipped <= Closing(c, start).value.end - start
  {
    ClosingStarts(c, start);
    StartsFew(c, start, Closing(c, start).value.end);
  }

  /** `cJSON_ParseWithOpts`. */
  method Parse(value: string, requireNullTerminated: bool, scan: Scanner) returns (item: Option<Json>, end: nat)
    requires NulFree(value)
    ensures (item, end) == ParseWithOpts(value, requireNullTerminated, scan)
  {
    hide ValueAt, SkipBlanks;
    var buffer := new ParseBuffer(value);
    if |buffer.content| > 4 && Reads(buffer.content, 0, [0xEF as char, 0xBB as char, 0xBF as char]) {
      buffer.offset := 3;
    }
    buffer.SkipWhitespace();
    item := buffer.ParseValue(scan);
    if item == None {
      return None, ErrorPosition(buffer.content, buffer.offset);
    }
    if requireNullTerminated {
      buffer.SkipWhitespace();
      if buffer.content[buffer.offset] != NUL {
        return None, buffer.offset;
      }
    }
    end := buffer.offset;
  }
}

/** Whatever the parser of cJSON.c takes is a text of the grammar, so that it takes exactly those. */
module JsonGrammarSpelt {

  import opened CStrings
  import opened JsonTree
  import opened JsonText
  import opened JsonStrings
  import opened JsonParser
  import opened JsonReading
  import opened JsonGrammar
  import opened JsonGrammarParse
  import opened Options
  import opened Sequences

  // ----- whatever is taken is a text of the grammar -----

  /** From `o` to `q` the content spells a tree that stands for `t`. */
  predicate Spelt(d: Doc, c: string, o: nat, q: nat, t: Json, levels: nat, scan: Scanner) {
    o <= q < |c| && c[o..q] == Spell(d) && Proper(d, levels, scan) && Spaced(d, Blank) && Mean(d, scan) == t
  }

  lemma NotLast(c: string, o: nat)
    requires Content(c) && o < |c| && c[o] != NUL
    ensures o + 1 < |c|
  {
  }

  lemma {:induction false} BlanksBetween(c: string, o: nat)
    requires c != [] && o < |c|
    ensures o <= SkipBlanks(c, o) < |c| && Blank(c[o..SkipBlanks(c, o)])
    decreases |c| - o
  {
    var p := SkipBlanks(c, o);
    if IsBlank(c[o]) && o + 1 < |c| {
      BlanksBetween(c, o + 1);
      assert c[o..p] == [c[o]] + c[o + 1..p];
    }
  }

  lemma NoNumberBehind(c: string, q: nat)
    requires c != [] && q <= |c| && !IsNumberChar(c[SkipBlanks(c, q)])
    ensures q < |c| ==> !IsNumberChar(c[q])
  {
  }

  lemma WordSpelt(c: string, o: nat, w: string, levels: nat, scan: Scanner)
    requires Content(c) && Reads(c, o, w) && (w == "null" || w == "true" || w == "false")
    ensures Spelt(Word(w), c, o, o + |w|, Mean(Word(w), scan), levels, scan)
  {
    assert c[o + |w| - 1] == c[o..o + |w|][|w| - 1];
    NotLast(c, o + |w| - 1);
  }

  lemma QuotedSpelt(c: string, o: nat, levels: nat, scan: Scanner) returns (d: Doc)
    requires Content(c) && o < |c| && StringAt(c, o).0.Some?
    ensures Spelt(d, c, o, StringAt(c, o).1, String(StringAt(c, o).0.value), levels, scan)
  {
    hide StringAt, Content;
    BodySpelled(c, o);
    var e := StringAt(c, o).1;
    d := Quoted(c[o + 1..e - 1]);
    assert c[e - 1] == c[o..e][e - o - 1] == '"';
    NotLast(c, e - 1);
  }

  lemma {:induction false} RunChars(c: string, o: nat, n: nat)
    requires o <= |c|
    ensures forall i :: 0 <= i < |NumberRun(c, o, n)| ==> IsNumberChar(NumberRun(c, o, n)[i])
    decreases n
  {
    if n > 0 && o < |c| && IsNumberChar(c[o]) { RunChars(c, o + 1, n - 1); }
  }

  lemma NumeralSpelt(c: string, o: nat, levels: nat, scan: Scanner) returns (d: Doc)
    requires Content(c) && o < |c| && (c[o] == '-' || '0' <= c[o] <= '9') && NumberAt(c, o, scan).0.Some?
    requires var q := NumberAt(c, o, scan).1; q < |c| ==> !IsNumberChar(c[q])
    ensures Spelt(d, c, o, NumberAt(c, o, scan).1, NumberAt(c, o, scan).0.value, levels, scan)
  {
    hide NumberRun, Saturate;
    var run, q := NumberRun(c, o), NumberAt(c, o, scan).1;
    RunChars(c, o, 63);
    assert c[o..o + |run|] == run;
    forall i | o <= i < o + |run| ensures c[i] == run[i - o] { assert c[i] == c[o..o + |run|][i - o]; }
    d := Numeral(run);
    assert c[o] == run[0] && c[q - 1] == run[|run| - 1];
    NotLast(c, q - 1);
  }

  lemma {:induction false} ValueSpelt(c: string, o: nat, nesting: nat, scan: Scanner) returns (d: Doc)
    requires Content(c) && o < |c| && nesting <= NESTING_LIMIT && ValueAt(c, o, nesting, scan).0.Some?
    requires var q := ValueAt(c, o, nesting, scan).1; q < |c| ==> !IsNumberChar(c[q])
    ensures Spelt(d, c, o, ValueAt(c, o, nesting, scan).1, ValueAt(c, o, nesting, scan).0.value, NESTING_LIMIT - nesting, scan)
    decreases |c| - o, 1
  {
    hide Spelt, Content, StringAt, NumberAt, ArrayAt, ObjectAt, Stands, Saturate;
    var levels := NESTING_LIMIT - nesting;
    if Reads(c, o, "null") {
      d := Word("null");
      WordSpelt(c, o, "null", levels, scan);
    } else if Reads(c, o, "false") {
      d := Word("false");
      WordSpelt(c, o, "false", levels, scan);
    } else if Reads(c, o, "true") {
      d := Word("true");
      WordSpelt(c, o, "true", levels, scan);
    } else if c[o] == '"' {
      d := QuotedSpelt(c, o, levels, scan);
    } else if c[o] == '[' {
      d := ArraySpelt(c, o, nesting, scan);
    } else if c[o] == '{' {
      d := ObjectSpelt(c, o, nesting, scan);
    } else {
      d := NumeralSpelt(c, o, levels, scan);
    }
  }

  lemma Joined(c: string, a: nat, b: nat, e: nat)
    requires a <= b <= e <= |c|
    ensures c[a..b] + c[b..e] == c[a..e] && (b < |c| ==> c[b..b + 1] == [c[b]])
  {
  }

  /** An array that is taken is empty, or has the items that the loop finds. */
  lemma ArrayTaken(c: string, o: nat, depth: nat, scan: Scanner)
    requires Content(c) && o + 1 < |c| && c[o] == '[' && ArrayAt(c, o, depth, scan).0.Some?
    ensures depth < NESTING_LIMIT
    ensures var p := SkipBlanks(c, o + 1);
      var (xs, q) := ItemsAt(c, o + 1, depth + 1, scan);
      if c[p] == ']' then ArrayAt(c, o, depth, scan) == (Some(Array([])), p + 1)
      else xs.Some? && c[q] == ']' && ArrayAt(c, o, depth, scan) == (Some(Array(xs.value)), q + 1)
  {
    hide ItemsAt, SkipBlanks;
    SkipTwice(c, o + 1, depth + 1, scan);
  }

  lemma {:induction false} ArraySpelt(c: string, o: nat, nesting: nat, scan: Scanner) returns (d: Doc)
    requires Content(c) && o < |c| && c[o] == '[' && nesting <= NESTING_LIMIT && ArrayAt(c, o, nesting, scan).0.Some?
    ensures Spelt(d, c, o, ArrayAt(c, o, nesting, scan).1, ArrayAt(c, o, nesting, scan).0.value, NESTING_LIMIT - nesting, scan)
    decreases |c| - o, 0
  {
    hide *;
    BracketNotLast(c, o);
    ArrayTaken(c, o, nesting, scan);
    var p := SkipBlanks(c, o + 1);
    BlanksBetween(c, o + 1);
    NothingProper(NESTING_LIMIT - nesting - 1, scan);
    if c[p] == ']' {
      NothingMeant(scan);
      d := Items(c[o + 1..p], []);
      BracketNotLast(c, p);
      ItemsAreSpelt(c[o + 1..p], [], c, o, p, NESTING_LIMIT - nesting, scan);
    } else {
      var q := ItemsAt(c, o + 1, nesting + 1, scan).1;
      var xs := ItemsSpelt(c, o + 1, nesting + 1, scan);
      d := Items("", xs);
      BracketNotLast(c, q);
      ItemsAreSpelt("", xs, c, o, q, NESTING_LIMIT - nesting, scan);
    }
  }

  lemma BracketNotLast(c: string, o: nat)
    requires Content(c) && o < |c| && (c[o] == '[' || c[o] == ']' || c[o] == '{' || c[o] == '}' || c[o] == ',' || c[o] == ':')
    ensures o + 1 < |c|
  {
    NotLast(c, o);
  }

  lemma ItemsAreSpelt(open: string, xs: seq<Item>, c: string, o: nat, q: nat, levels: nat, scan: Scanner)
    requires o < q && q + 1 < |c| && c[o] == '[' && c[q] == ']' && levels > 0
    requires Blank(open) && ItemsProper(xs, levels - 1, scan) && ItemsSpaced(xs, Blank)
    requires c[o + 1..q] == if xs == [] then open else SpellItems(xs)
    ensures Spelt(Items(open, xs), c, o, q + 1, Array(MeanItems(xs, scan)), levels, scan)
  {
    hide ItemsProper, ItemsSpaced, SpellItems, MeanItems, Blank;
    Enclosed(c, o, q, '[', ']');
  }

  lemma NothingProper(levels: nat, scan: Scanner)
    ensures ItemsProper([], levels, scan) && ItemsSpaced([], Blank) && FieldsProper([], levels, scan) && FieldsSpaced([], Blank) && Blank("")
  {
  }

  lemma Enclosed(c: string, o: nat, q: nat, open: char, close: char)
    requires o < q < |c| && c[o] == open && c[q] == close
    ensures c[o..q + 1] == [open] + (c[o + 1..q] + [close])
  {
  }

  lemma {:induction false} ItemsSpelt(c: string, o: nat, nesting: nat, scan: Scanner) returns (xs: seq<Item>)
    requires Content(c) && o < |c| && nesting <= NESTING_LIMIT && ItemsAt(c, o, nesting, scan).0.Some?
    requires c[ItemsAt(c, o, nesting, scan).1] == ']'
    ensures xs != [] && ItemsProper(xs, NESTING_LIMIT - nesting, scan) && ItemsSpaced(xs, Blank)
    ensures var (v, q) := ItemsAt(c, o, nesting, scan); c[o..q] == SpellItems(xs) && v.value == MeanItems(xs, scan)
    decreases |c| - o, 2
  {
    hide Content, SkipBlanks, ValueAt, Spelt, ItemsProper, ItemsSpaced, SpellItems, MeanItems;
    var p := SkipBlanks(c, o);
    BlanksBetween(c, o);
    var (v, q) := ValueAt(c, p, nesting, scan);
    var e := SkipBlanks(c, q);
    NoNumberBehind(c, q);
    var d := ValueSpelt(c, p, nesting, scan);
    SpeltEnds(d, c, p, q, v.value, NESTING_LIMIT - nesting, scan);
    BlanksBetween(c, q);
    var x := Item(c[o..p], d, c[q..e]);
    if c[e] == ',' {
      NotLast(c, e);
      var more := ItemsSpelt(c, e + 1, nesting, scan);
      xs := [x] + more;
      ItemsOneMore(x, more, c, o, p, q, e, ItemsAt(c, o, nesting, scan).1, v.value, NESTING_LIMIT - nesting, scan);
    } else {
      xs := [x];
      ItemsLast(x, c, o, p, q, e, v.value, NESTING_LIMIT - nesting, scan);
    }
  }

  lemma SpeltEnds(d: Doc, c: string, o: nat, q: nat, t: Json, levels: nat, scan: Scanner)
    requires Spelt(d, c, o, q, t, levels, scan)
    ensures o <= q < |c| && c[o..q] == Spell(d) && Mean(d, scan) == t && Proper(d, levels, scan) && Spaced(d, Blank)
  {
  }

  /** An item between blanks, spelt from `o` to `e`. */
  predicate ItemSpelt(x: Item, c: string, o: nat, p: nat, q: nat, e: nat, t: Json, levels: nat, scan: Scanner) {
    && o <= p <= q <= e < |c| && x.front == c[o..p] && Blank(x.front) && x.behind == c[q..e] && Blank(x.behind)
    && Spelt(x.value, c, p, q, t, levels, scan)
  }

  lemma ItemsLast(x: Item, c: string, o: nat, p: nat, q: nat, e: nat, t: Json, levels: nat, scan: Scanner)
    requires ItemSpelt(x, c, o, p, q, e, t, levels, scan)
    ensures SpellItems([x]) == c[o..e] && ItemsProper([x], levels, scan) && ItemsSpaced([x], Blank) && MeanItems([x], scan) == [t]
  {
    hide Spell, Proper, Spaced, Mean, Blank;
    NothingProper(levels, scan);
    NothingMeant(scan);
    assert [x][1..] == [];
    assert x.behind + "" == x.behind;
    Joined(c, p, q, e);
    Joined(c, o, p, e);
  }

  lemma ItemsOneMore(x: Item, more: seq<Item>, c: string, o: nat, p: nat, q: nat, e: nat, f: nat, t: Json, levels: nat, scan: Scanner)
    requires ItemSpelt(x, c, o, p, q, e, t, levels, scan) && c[e] == ','
    requires more != [] && ItemsProper(more, levels, scan) && ItemsSpaced(more, Blank)
    requires e + 1 <= f <= |c| && SpellItems(more) == c[e + 1..f]
    ensures SpellItems([x] + more) == c[o..f]
    ensures ItemsProper([x] + more, levels, scan) && ItemsSpaced([x] + more, Blank) && MeanItems([x] + more, scan) == [t] + MeanItems(more, scan)
  {
    hide Spell, Proper, Spaced, Mean, Blank, Spelt;
    SpeltEnds(x.value, c, p, q, t, levels, scan);
    assert ([x] + more)[1..] == more;
    SpellOneMore(x, more);
    Joined(c, e, e + 1, f);
    Joined(c, q, e, f);
    Joined(c, p, q, f);
    Joined(c, o, p, f);
  }

  lemma SpellOneMore(x: Item, more: seq<Item>)
    requires more != []
    ensures SpellItems([x] + more) == x.front + (Spell(x.value) + (x.behind + ([','] + SpellItems(more))))
  {
    hide Spell;
    assert ([x] + more)[1..] == more;
  }

  lemma ObjectTaken(c: string, o: nat, depth: nat, scan: Scanner)
    requires Content(c) && o + 1 < |c| && c[o] == '{' && ObjectAt(c, o, depth, scan).0.Some?
    ensures depth < NESTING_LIMIT
    ensures var p := SkipBlanks(c, o + 1);
      var (ms, q) := MembersAt(c, o + 1, depth + 1, scan);
      if c[p] == '}' then ObjectAt(c, o, depth, scan) == (Some(Object([])), p + 1)
      else ms.Some? && c[q] == '}' && ObjectAt(c, o, depth, scan) == (Some(Object(ms.value)), q + 1)
  {
    hide MembersAt, SkipBlanks;
    SkipTwice(c, o + 1, depth + 1, scan);
  }

  lemma {:induction false} ObjectSpelt(c: string, o: nat, nesting: nat, scan: Scanner) returns (d: Doc)
    requires Content(c) && o < |c| && c[o] == '{' && nesting <= NESTING_LIMIT && ObjectAt(c, o, nesting, scan).0.Some?
    ensures Spelt(d, c, o, ObjectAt(c, o, nesting, scan).1, ObjectAt(c, o, nesting, scan).0.value, NESTING_LIMIT - nesting, scan)
    decreases |c| - o, 0
  {
    hide *;
    BracketNotLast(c, o);
    ObjectTaken(c, o, nesting, scan);
    var p := SkipBlanks(c, o + 1);
    BlanksBetween(c, o + 1);
    NothingProper(NESTING_LIMIT - nesting - 1, scan);
    if c[p] == '}' {
      NothingMeant(scan);
      d := Fields(c[o + 1..p], []);
      BracketNotLast(c, p);
      FieldsAreSpelt(c[o + 1..p], [], c, o, p, NESTING_LIMIT - nesting, scan);
    } else {
      var q := MembersAt(c, o + 1, nesting + 1, scan).1;
      var fs := FieldsSpelt(c, o + 1, nesting + 1, scan);
      d := Fields("", fs);
      BracketNotLast(c, q);
      FieldsAreSpelt("", fs, c, o, q, NESTING_LIMIT - nesting, scan);
    }
  }

  lemma FieldsAreSpelt(open: string, fs: seq<Field>, c: string, o: nat, q: nat, levels: nat, scan: Scanner)
    requires o < q && q + 1 < |c| && c[o] == '{' && c[q] == '}' && levels > 0
    requires Blank(open) && FieldsProper(fs, levels - 1, scan) && FieldsSpaced(fs, Blank)
    requires c[o + 1..q] == if fs == [] then open else SpellFields(fs)
    ensures Spelt(Fields(open, fs), c, o, q + 1, Object(MeanFields(fs, scan)), levels, scan)
  {
    hide FieldsProper, FieldsSpaced, SpellFields, MeanFields, Blank;
    Enclosed(c, o, q, '{', '}');
  }

  /** Where the parts of a member stand: key, colon, value, and what follows the value. */
  datatype Places = Places(p: nat, k: nat, colon: nat, v: nat, q: nat, e: nat)

  function PlacesAt(c: string, o: nat, depth: nat, scan: Scanner): (r: Places)
    requires Content(c) && o < |c| && MembersAt(c, o, depth, scan).0.Some?
    ensures r.p < |c| && r.k <= |c| && r.colon < |c| && r.v < |c| && r.q <= |c| && r.e < |c|
  {
    hide ValueAt, StringAt, SkipBlanks;
    var p := SkipBlanks(c, o);
    var k := StringAt(c, p).1;
    var colon := SkipBlanks(c, k);
    var v := SkipBlanks(c, colon + 1);
    var q := ValueAt(c, v, depth, scan).1;
    Places(p, k, colon, v, q, SkipBlanks(c, q))
  }

  /** A member that is taken has a key, a colon and a value, with blanks around them. */
  lemma MemberTaken(c: string, o: nat, depth: nat, scan: Scanner)
    requires Content(c) && o < |c| && MembersAt(c, o, depth, scan).0.Some?
    ensures var r := PlacesAt(c, o, depth, scan);
      && r.p == SkipBlanks(c, o) && StringAt(c, r.p).0.Some? && StringAt(c, r.p).1 == r.k
      && r.colon == SkipBlanks(c, r.k) && c[r.colon] == ':' && r.v == SkipBlanks(c, r.colon + 1)
      && ValueAt(c, r.v, depth, scan).0.Some? && ValueAt(c, r.v, depth, scan).1 == r.q && r.e == SkipBlanks(c, r.q)
      && MembersAt(c, o, depth, scan)
         == AfterMember(Member(StringAt(c, r.p).0.value, ValueAt(c, r.v, depth, scan).0.value), c, r.e, depth, scan)
  {
    hide ValueAt, StringAt, SkipBlanks;
  }

  /** The parts of a field, spelt between `o` and `r.e`. */
  predicate FieldSpelt(f: Field, c: string, o: nat, r: Places, t: Json, levels: nat, scan: Scanner) {
    && o <= r.p <= r.k <= r.colon < r.v <= r.q <= r.e < |c| && c[r.colon] == ':'
    && f.front == c[o..r.p] && Blank(f.front) && InQuotes(f.key) == c[r.p..r.k] && Stands(f.key).Some?
    && f.left == c[r.k..r.colon] && Blank(f.left) && f.right == c[r.colon + 1..r.v] && Blank(f.right)
    && Spelt(f.value, c, r.v, r.q, t, levels, scan) && f.behind == c[r.q..r.e] && Blank(f.behind)
  }

  lemma {:induction false} FieldIsSpelt(c: string, o: nat, nesting: nat, scan: Scanner) returns (f: Field)
    requires Content(c) && o < |c| && nesting <= NESTING_LIMIT && MembersAt(c, o, nesting, scan).0.Some?
    requires !IsNumberChar(c[PlacesAt(c, o, nesting, scan).e])
    ensures var r := PlacesAt(c, o, nesting, scan);
      && StringAt(c, r.p).0 == Some(Stood(f.key)) && ValueAt(c, r.v, nesting, scan).0.Some?
      && FieldSpelt(f, c, o, r, ValueAt(c, r.v, nesting, scan).0.value, NESTING_LIMIT - nesting, scan)
    decreases |c| - o, 2
  {
    hide Content, SkipBlanks, ValueAt, StringAt, Spelt, Stands, Blank, PlacesAt, MembersAt;
    var r := PlacesAt(c, o, nesting, scan);
    MemberTaken(c, o, nesting, scan);
    BlanksBetween(c, o);
    BodySpelled(c, r.p);
    QuoteNotLast(c, r.p);
    BlanksBetween(c, r.k);
    BracketNotLast(c, r.colon);
    BlanksBetween(c, r.colon + 1);
    NoNumberBehind(c, r.q);
    var d := ValueSpelt(c, r.v, nesting, scan);
    SpeltEnds(d, c, r.v, r.q, ValueAt(c, r.v, nesting, scan).0.value, NESTING_LIMIT - nesting, scan);
    BlanksBetween(c, r.q);
    f := Field(c[o..r.p], c[r.p + 1..r.k - 1], c[r.k..r.colon], c[r.colon + 1..r.v], d, c[r.q..r.e]);
  }

  lemma QuoteNotLast(c: string, o: nat)
    requires Content(c) && o < |c| && StringAt(c, o).0.Some?
    ensures o < StringAt(c, o).1 < |c|
  {
    hide Closing, Unescape;
  }

  lemma {:induction false} FieldsSpelt(c: string, o: nat, nesting: nat, scan: Scanner) returns (fs: seq<Field>)
    requires Content(c) && o < |c| && nesting <= NESTING_LIMIT && MembersAt(c, o, nesting, scan).0.Some?
    requires c[MembersAt(c, o, nesting, scan).1] == '}'
    ensures fs != [] && FieldsProper(fs, NESTING_LIMIT - nesting, scan) && FieldsSpaced(fs, Blank)
    ensures var (v, q) := MembersAt(c, o, nesting, scan); o <= q < |c| && c[o..q] == SpellFields(fs) && v.value == MeanFields(fs, scan)
    decreases |c| - o, 3
  {
    hide Content, SkipBlanks, ValueAt, StringAt, FieldSpelt, FieldsProper, FieldsSpaced, SpellFields, MeanFields, MembersAt, PlacesAt;
    var r, levels := PlacesAt(c, o, nesting, scan), NESTING_LIMIT - nesting;
    MemberTaken(c, o, nesting, scan);
    var f := FieldIsSpelt(c, o, nesting, scan);
    var t, end := ValueAt(c, r.v, nesting, scan).0.value, MembersAt(c, o, nesting, scan).1;
    FieldOrder(f, c, o, r, t, levels, scan);
    if c[r.e] == ',' {
      NotLast(c, r.e);
      var more := FieldsSpelt(c, r.e + 1, nesting, scan);
      fs := [f] + more;
      FieldsOneMore(f, more, c, o, r, end, t, levels, scan);
    } else {
      fs := [f];
      FieldsLast(f, c, o, r, t, levels, scan);
    }
  }

  lemma FieldOrder(f: Field, c: string, o: nat, r: Places, t: Json, levels: nat, scan: Scanner)
    requires FieldSpelt(f, c, o, r, t, levels, scan)
    ensures o < r.e < |c|
  {
  }

  /** A field up to its value, and then whatever follows. */
  lemma FieldText(f: Field, tail: string, c: string, o: nat, r: Places, end: nat, t: Json, levels: nat, scan: Scanner)
    requires FieldSpelt(f, c, o, r, t, levels, scan) && r.e <= end <= |c| && tail == c[r.e..end]
    ensures f.front + (InQuotes(f.key) + (f.left + (":" + (f.right + (Spell(f.value) + (f.behind + tail)))))) == c[o..end]
  {
    hide Spell, Proper, Spaced, Mean, Blank, Stands, InQuotes;
    SevenJoined(c, o, r, end);
    assert ":" == [c[r.colon]];
  }

  lemma SevenJoined(c: string, o: nat, r: Places, end: nat)
    requires o <= r.p <= r.k <= r.colon < r.v <= r.q <= r.e <= end <= |c|
    ensures c[o..r.p] + (c[r.p..r.k] + (c[r.k..r.colon] + ([c[r.colon]] + (c[r.colon + 1..r.v]
         + (c[r.v..r.q] + (c[r.q..r.e] + c[r.e..end])))))) == c[o..end]
  {
    Joined(c, r.q, r.e, end);
    Joined(c, r.v, r.q, end);
    Joined(c, r.colon + 1, r.v, end);
    Joined(c, r.colon, r.colon + 1, end);
    Joined(c, r.k, r.colon, end);
    Joined(c, r.p, r.k, end);
    Joined(c, o, r.p, end);
  }

  lemma FieldsLast(f: Field, c: string, o: nat, r: Places, t: Json, levels: nat, scan: Scanner)
    requires FieldSpelt(f, c, o, r, t, levels, scan)
    ensures SpellFields([f]) == c[o..r.e] && FieldsProper([f], levels, scan) && FieldsSpaced([f], Blank)
    ensures MeanFields([f], scan) == [Member(Stood(f.key), t)]
  {
    hide Spell, Proper, Spaced, Mean, Blank, Stands, InQuotes;
    NothingProper(levels, scan);
    NothingMeant(scan);
    assert [f][1..] == [];
    FieldText(f, "", c, o, r, r.e, t, levels, scan);
  }

  lemma FieldsOneMore(f: Field, more: seq<Field>, c: string, o: nat, r: Places, end: nat, t: Json, levels: nat, scan: Scanner)
    requires FieldSpelt(f, c, o, r, t, levels, scan) && c[r.e] == ','
    requires more != [] && FieldsProper(more, levels, scan) && FieldsSpaced(more, Blank)
    requires r.e + 1 <= end <= |c| && SpellFields(more) == c[r.e + 1..end]
    ensures SpellFields([f] + more) == c[o..end] && FieldsProper([f] + more, levels, scan) && FieldsSpaced([f] + more, Blank)
    ensures MeanFields([f] + more, scan) == [Member(Stood(f.key), t)] + MeanFields(more, scan)
  {
    hide Spell, Proper, Spaced, Mean, Blank, Stands, InQuotes;
    assert ([f] + more)[1..] == more;
    Joined(c, r.e, r.e + 1, end);
    assert "," + SpellFields(more) == c[r.e..end];
    FieldText(f, "," + SpellFields(more), c, o, r, end, t, levels, scan);
  }

  // ----- whole texts -----

  const BYTE_ORDER_MARK: string := [0xEF as char, 0xBB as char, 0xBF as char]

  /** A value with blanks around it, and perhaps a byte order mark in front. */
  predicate Whole(value: string, mark: bool, front: string, d: Doc, behind: string, scan: Scanner) {
    && value == (if mark then BYTE_ORDER_MARK else "") + (front + (Spell(d) + behind))
    && Blank(front) && Blank(behind) && Proper(d, 1000, scan) && Spaced(d, Blank)
  }

  function Start(c: string): nat {
    if |c| > 4 && Reads(c, 0, BYTE_ORDER_MARK) then 3 else 0
  }

  /** With the text at `q` behind the value nothing but blanks are left. */
  lemma {:induction false} BlanksToEnd(c: string, q: nat)
    requires Content(c) && q < |c| && Blank(c[q..|c| - 1])
    ensures SkipBlanks(c, q) == |c| - 1
    decreases |c| - q
  {
    if q < |c| - 1 {
      assert c[q] == c[q..|c| - 1][0];
      assert c[q + 1..|c| - 1] == c[q..|c| - 1][1..];
      BlanksToEnd(c, q + 1);
    } else {
      EndOfContent(c);
    }
  }

  /** A whole text at the beginning of the content, and `rest` behind it. */
  lemma WholeBegins(value: string, rest: string, mark: bool, front: string, d: Doc, behind: string, scan: Scanner)
    requires Whole(value, mark, front, d, behind, scan) && rest != "" && Ends(behind + rest)
    ensures var c, o := value + rest, if mark then 3 else 0;
      && Start(c) == o && At(c, o, front, Spell(d) + (behind + rest))
      && Spell(d) != "" && !IsBlank(Spell(d)[0])
      && |value| == o + |front| + |Spell(d)| + |behind|
  {
    hide Spell, Proper, Spaced;
    DocBegins(d, NESTING_LIMIT, scan);
    var c, text := value + rest, front + (Spell(d) + behind);
    assert text + rest == front + (Spell(d) + (behind + rest));
    if mark {
      assert c == BYTE_ORDER_MARK + (text + rest);
      assert c[0..3] == BYTE_ORDER_MARK && c[3..] == text + rest;
    } else {
      assert c == text + rest && c[0..] == c;
      assert c[0] as int < 128 by { if front != "" { assert front[0] as int <= 0x20; } }
      if |c| > 4 { assert c[0..3][0] == c[0]; }
    }
  }

  /** Every whole text is taken for what its value means, to the end. */
  lemma WholeParses(value: string, mark: bool, front: string, d: Doc, behind: string, scan: Scanner)
    requires NulFree(value) && Whole(value, mark, front, d, behind, scan)
    ensures ParseWithOpts(value, true, scan) == (Some(Mean(d, scan)), |value|)
    ensures ParseWithOpts(value, false, scan) == (Some(Mean(d, scan)), |value| - |behind|)
  {
    hide *;
    var c, o := value + [NUL], if mark then 3 else 0;
    EndIsNoNumber();
    WholeIs(value, mark, front, d, behind, scan);
    BlanksEnd(behind, [NUL]);
    WholeBegins(value, [NUL], mark, front, d, behind, scan);
    SkipTo(c, o, front, Spell(d) + (behind + [NUL]));
    var p := o + |front|;
    AtNext(c, o, front, Spell(d), behind + [NUL]);
    DocParses(d, c, p, behind + [NUL], 0, scan);
    var q := p + |Spell(d)|;
    BlanksBehind(c, p, Spell(d), behind);
    ParseStep(value, scan);
  }

  lemma EndIsNoNumber()
    ensures Ends([NUL])
  {
  }

  /** A whole text with something else behind it: not taken where the text has to end, and the position of the error is
      that of what follows; taken where it need not end. */
  lemma JunkBehind(value: string, mark: bool, front: string, d: Doc, behind: string, junk: string, scan: Scanner)
    requires NulFree(value + junk) && Whole(value, mark, front, d, behind, scan)
    requires junk != "" && junk[0] as int > 0x20 && (behind == "" ==> junk[0] !in "+-.0123456789Ee")
    ensures ParseWithOpts(value + junk, true, scan) == (None, |value|)
    ensures ParseWithOpts(value + junk, false, scan) == (Some(Mean(d, scan)), |value| - |behind|)
  {
    hide *;
    var rest := junk + [NUL];
    var c, o := value + junk + [NUL], if mark then 3 else 0;
    Associative(value, junk, [NUL]);
    JunkParts(value, junk, mark, front, d, behind, scan);
    WholeBegins(value, rest, mark, front, d, behind, scan);
    SkipTo(c, o, front, Spell(d) + (behind + rest));
    var p := o + |front|;
    AtNext(c, o, front, Spell(d), behind + rest);
    DocParses(d, c, p, behind + rest, 0, scan);
    var q := p + |Spell(d)|;
    AtNext(c, p, Spell(d), behind, rest);
    BehindValue(c, q, behind, rest);
    ParseStep(value + junk, scan);
  }

  lemma JunkParts(value: string, junk: string, mark: bool, front: string, d: Doc, behind: string, scan: Scanner)
    requires NulFree(value + junk) && Whole(value, mark, front, d, behind, scan)
    requires junk != "" && junk[0] as int > 0x20 && (behind == "" ==> junk[0] !in "+-.0123456789Ee")
    ensures Blank(front) && Blank(behind) && Proper(d, NESTING_LIMIT, scan) && Spaced(d, Blank)
    ensures Ends(behind + (junk + [NUL])) && !IsBlank((junk + [NUL])[0]) && (junk + [NUL])[0] != NUL
    ensures Content(value + junk + [NUL])
  {
    hide Spell, Proper, Spaced;
    assert (value + junk + [NUL])[..|value + junk|] == value + junk;
    assert junk[0] == (value + junk)[|value|];
    if behind != "" { assert behind[0] as int <= 0x20; }
  }

  lemma WholeIs(value: string, mark: bool, front: string, d: Doc, behind: string, scan: Scanner)
    requires NulFree(value) && Whole(value, mark, front, d, behind, scan)
    ensures Blank(front) && Blank(behind) && Proper(d, NESTING_LIMIT, scan) && Spaced(d, Blank)
    ensures Content(value + [NUL])
  {
    hide Spell, Proper, Spaced;
    assert (value + [NUL])[..|value|] == value;
  }

  lemma AtNext(c: string, o: nat, a: string, b: string, rest: string)
    requires At(c, o, a, b + rest)
    ensures At(c, o + |a|, b, rest)
  {
    Next(c, o, a, b + rest);
  }

  lemma BlanksBehind(c: string, p: nat, s: string, behind: string)
    requires Content(c) && At(c, p, s, behind + [NUL]) && Blank(behind)
    ensures p + |s| < |c| && SkipBlanks(c, p + |s|) == |c| - 1 && c[|c| - 1] == NUL
  {
    hide SkipBlanks, Blank;
    var q := p + |s|;
    Next(c, p, s, behind + [NUL]);
    assert |c[q..]| == |behind| + 1;
    assert c[q..|c| - 1] == c[q..][..|behind|] == behind;
    BlanksToEnd(c, q);
  }

  /** What is made of the value that is read first. */
  lemma ParseStep(value: string, scan: Scanner)
    requires NulFree(value)
    ensures var c := value + [NUL];
      && Content(c)
      && var (t, q) := ValueAt(c, SkipBlanks(c, Start(c)), 0, scan);
         && (t.None? ==> ParseWithOpts(value, true, scan).0 == None)
         && (t.Some? ==> ParseWithOpts(value, false, scan) == (t, q))
         && (t.Some? ==>
              var e := SkipBlanks(c, q);
              ParseWithOpts(value, true, scan) == (if c[e] == NUL then t else None, e))
  {
    hide ValueAt, SkipBlanks;
    assert (value + [NUL])[..|value|] == value;
  }

  /** Whatever is taken to the end is a whole text. */
  lemma WholeSpelt(value: string, scan: Scanner) returns (mark: bool, front: string, d: Doc, behind: string)
    requires NulFree(value) && ParseWithOpts(value, true, scan).0.Some?
    ensures Whole(value, mark, front, d, behind, scan) && ParseWithOpts(value, true, scan).0 == Some(Mean(d, scan))
  {
    hide Spell, Proper, Spaced, Mean, ValueAt, SkipBlanks, Blank, Spelt;
    var c := value + [NUL];
    assert c[..|c| - 1] == value;
    var o := Start(c);
    var p := SkipBlanks(c, o);
    BlanksBetween(c, o);
    var (t, q) := ValueAt(c, p, 0, scan);
    var e := SkipBlanks(c, q);
    assert forall i :: 0 <= i < |value| ==> c[i] == value[i];
    NoNumberBehind(c, q);
    d := ValueSpelt(c, p, 0, scan);
    SpeltEnds(d, c, p, q, t.value, NESTING_LIMIT, scan);
    BlanksBetween(c, q);
    mark, front, behind := o == 3, c[o..p], c[q..e];
    Joined(c, p, q, e);
    Joined(c, o, p, e);
    Joined(c, 0, o, e);
    assert c[0..e] == value && c[0..0] == "";
  }

  /** The parser takes a text for a tree exactly when the text is a whole text of the grammar that means the tree. */
  lemma ParsesIff(value: string, t: Json, scan: Scanner)
    requires NulFree(value)
    ensures ParseWithOpts(value, true, scan).0 == Some(t)
      <==> exists mark, front, d, behind :: Whole(value, mark, front, d, behind, scan) && Mean(d, scan) == t
  {
    hide Whole, ParseWithOpts, Mean;
    if ParseWithOpts(value, true, scan).0.Some? {
      var mark, front, d, behind := WholeSpelt(value, scan);
      assert Whole(value, mark, front, d, behind, scan);
      if exists mark', front', d', behind' :: Whole(value, mark', front', d', behind', scan) && Mean(d', scan) == t {
        var mark', front', d', behind' :| Whole(value, mark', front', d', behind', scan) && Mean(d', scan) == t;
        WholeParses(value, mark', front', d', behind', scan);
      }
    } else if exists mark, front, d, behind :: Whole(value, mark, front, d, behind, scan) && Mean(d, scan) == t {
      var mark, front, d, behind :| Whole(value, mark, front, d, behind, scan) && Mean(d, scan) == t;
      WholeParses(value, mark, front, d, behind, scan);
      assert false;
    }
  }
}

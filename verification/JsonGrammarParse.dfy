/** The parser of cJSON.c takes every text of the grammar, for what it means. */
module JsonGrammarParse {

  import opened CStrings
  import opened JsonTree
  import opened JsonText
  import opened JsonStrings
  import opened JsonParser
  import opened JsonReading
  import opened JsonGrammar
  import opened Options
  import opened Sequences

  // ----- every text of the grammar is taken -----

  /** Two neighbouring parts of the text. */
  lemma Parts(c: string, o: nat, a: string, b: string, rest: string)
    requires At(c, o, a + b, rest)
    ensures At(c, o, a, b + rest) && At(c, o + |a|, b, rest)
  {
    Regroup(c, o, a, b, rest);
    Next(c, o, a, b + rest);
  }

  /** A value begins with a character that is no blank and closes no array. */
  lemma DocBegins(d: Doc, levels: nat, scan: Scanner)
    requires Proper(d, levels, scan)
    ensures var s := Spell(d); s != "" && !IsBlank(s[0]) && s[0] != ']' && s[0] as int < 128
  {
    hide SpellItems, SpellFields, ItemsProper, FieldsProper;
  }

  lemma NumeralParses(c: string, o: nat, s: string, rest: string, depth: nat, scan: Scanner)
    requires Content(c) && At(c, o, s, rest) && Ends(rest) && IsNumeral(s, scan)
    ensures o < |c| && ValueAt(c, o, depth, scan) == (Some(Mean(Numeral(s), scan)), o + |s|)
  {
    hide Content, Saturate, ValueAt, NumberRun;
    assert |c[o..]| > 0;
    assert c[o] == c[o..][0] == s[0];
    ValueAtFirst(c, o, depth, scan);
    RunIs(c, o, s, rest, 63);
  }

  lemma WordIsParsed(c: string, o: nat, w: string, rest: string, depth: nat, scan: Scanner)
    requires Content(c) && At(c, o, w, rest) && (w == "null" || w == "true" || w == "false")
    ensures o < |c| && ValueAt(c, o, depth, scan) == (Some(Mean(Word(w), scan)), o + |w|)
  {
    hide Content, ValueAt;
    Next(c, o, w, rest);
    WordParses(c, o, depth, scan);
  }

  lemma QuotedParses(c: string, o: nat, body: string, rest: string, depth: nat, scan: Scanner)
    requires Content(c) && At(c, o, InQuotes(body), rest) && Stands(body).Some?
    ensures o < |c| && ValueAt(c, o, depth, scan) == (Some(Mean(Quoted(body), scan)), o + |body| + 2)
  {
    hide Content, ValueAt, Stands, StringAt, Stood;
    BodyParses(c, o, body, rest);
    ValueAtFirst(c, o, depth, scan);
  }

  lemma {:induction false} DocParses(d: Doc, c: string, o: nat, rest: string, nesting: nat, scan: Scanner)
    requires Content(c) && nesting <= NESTING_LIMIT && Proper(d, NESTING_LIMIT - nesting, scan) && Spaced(d, Blank)
    requires At(c, o, Spell(d), rest) && Ends(rest)
    ensures o < |c| && ValueAt(c, o, nesting, scan) == (Some(Mean(d, scan)), o + |Spell(d)|)
    decreases d, 0
  {
    hide Content, ValueAt, Stands, IsNumeral, SpellItems, SpellFields, ItemsProper, FieldsProper, ItemsSpaced, FieldsSpaced, ArrayAt, ObjectAt, Blank, MeanItems, MeanFields;
    match d
    case Word(w) => WordIsParsed(c, o, w, rest, nesting, scan);
    case Numeral(s) => NumeralParses(c, o, s, rest, nesting, scan);
    case Quoted(body) => QuotedParses(c, o, body, rest, nesting, scan);
    case Items(open, xs) =>
      ArrayParses(open, xs, c, o, rest, nesting, scan);
      ValueAtFirst(c, o, nesting, scan);
    case Fields(open, fs) =>
      ObjectParses(open, fs, c, o, rest, nesting, scan);
      ValueAtFirst(c, o, nesting, scan);
  }

  // ----- arrays -----

  /** What the function makes of an array from the first item on. */
  lemma ArrayAtStep(c: string, o: nat, depth: nat, scan: Scanner)
    requires Content(c) && o < |c| && c[o] == '[' && depth < NESTING_LIMIT
    ensures var p := SkipBlanks(c, o + 1);
      && (c[p] == ']' ==> ArrayAt(c, o, depth, scan) == (Some(Array([])), p + 1))
      && (c[p] != ']' ==>
        var (xs, q) := ItemsAt(c, p, depth + 1, scan);
        xs.Some? && c[q] == ']' ==> ArrayAt(c, o, depth, scan) == (Some(Array(xs.value)), q + 1))
  {
    hide ItemsAt, SkipBlanks;
  }

  lemma {:induction false} SkipStays(c: string, o: nat)
    requires c != [] && o <= |c|
    ensures SkipBlanks(c, SkipBlanks(c, o)) == SkipBlanks(c, o)
    decreases |c| - o
  {
    if o == |c| {
      assert IsBlank(c[o - 1]) ==> SkipBlanks(c, o) == o - 1;
    } else if IsBlank(c[o]) {
      SkipStays(c, o + 1);
    }
  }

  lemma SkipTwice(c: string, o: nat, depth: nat, scan: Scanner)
    requires Content(c) && o < |c|
    ensures ItemsAt(c, SkipBlanks(c, o), depth, scan) == ItemsAt(c, o, depth, scan)
    ensures MembersAt(c, SkipBlanks(c, o), depth, scan) == MembersAt(c, o, depth, scan)
  {
    hide ValueAt, StringAt, SkipBlanks;
    SkipStays(c, o);
  }

  /** A bracket and what stands behind it. */
  lemma BracketAt(c: string, o: nat, bracket: char, inside: string, rest: string)
    requires At(c, o, [bracket] + inside, rest)
    ensures o < |c| && c[o] == bracket && At(c, o + 1, inside, rest)
  {
    Parts(c, o, [bracket], inside, rest);
    Next(c, o, [bracket], inside + rest);
    assert c[o] == c[o..o + 1][0];
  }

  lemma {:induction false} ArrayParses(open: string, xs: seq<Item>, c: string, o: nat, rest: string, nesting: nat, scan: Scanner)
    requires Content(c) && nesting < NESTING_LIMIT && ItemsProper(xs, NESTING_LIMIT - nesting - 1, scan)
    requires (xs == [] ==> Blank(open)) && ItemsSpaced(xs, Blank) && At(c, o, Spell(Items(open, xs)), rest)
    ensures o < |c| && c[o] == '['
    ensures ArrayAt(c, o, nesting, scan) == (Some(Array(MeanItems(xs, scan))), o + |Spell(Items(open, xs))|)
    decreases xs, 1
  {
    hide *;
    var inside := if xs == [] then open else SpellItems(xs);
    SpellArray(open, xs);
    BracketAt(c, o, '[', inside + "]", rest);
    Parts(c, o + 1, inside, "]", rest);
    ArrayAtStep(c, o, nesting, scan);
    if xs == [] {
      BehindValue(c, o + 1, open, "]" + rest);
      NothingMeant(scan);
    } else {
      ItemBegins(xs, c, o + 1, "]" + rest, NESTING_LIMIT - nesting - 1, scan);
      SkipTwice(c, o + 1, nesting + 1, scan);
      ItemsParse(xs, c, o + 1, "]" + rest, nesting + 1, scan);
      BracketAt(c, o + 1 + |inside|, ']', "", rest);
    }
  }

  lemma SpellArray(open: string, xs: seq<Item>)
    ensures Spell(Items(open, xs)) == ['['] + ((if xs == [] then open else SpellItems(xs)) + "]")
    ensures "]" == [']'] + "" && "]" != "" && !IsBlank("]"[0])
  {
  }

  lemma NothingMeant(scan: Scanner)
    ensures MeanItems([], scan) == [] && MeanFields([], scan) == []
  {
  }

  lemma ItemBegins(xs: seq<Item>, c: string, o: nat, rest: string, levels: nat, scan: Scanner)
    requires xs != [] && ItemsProper(xs, levels, scan) && ItemsSpaced(xs, Blank) && At(c, o, SpellItems(xs), rest)
    ensures var s, p, more := Spell(xs[0].value), o + |xs[0].front|, BehindFirstItem(xs);
      && p < |c| && SkipBlanks(c, o) == p && !IsBlank(c[p]) && c[p] != ']'
      && At(c, p, s, more + rest) && At(c, p + |s|, more, rest) && |SpellItems(xs)| == |xs[0].front| + |s| + |more|
  {
    hide Spell, Proper, Spaced, SkipBlanks, Blank;
    var x := xs[0];
    var more := BehindFirstItem(xs);
    DocBegins(x.value, levels, scan);
    Parts(c, o, x.front, Spell(x.value) + more, rest);
    Parts(c, o + |x.front|, Spell(x.value), more, rest);
    SkipTo(c, o, x.front, Spell(x.value) + more + rest);
  }

  /** What the loop makes of an item and of what stands at `e` behind it. */
  function AfterItem(v: Json, c: string, e: nat, depth: nat, scan: Scanner): (Option<seq<Json>>, nat)
    requires Content(c) && e < |c|
  {
    if c[e] == ',' then
      var (more, f) := ItemsAt(c, e + 1, depth, scan);
      (if more == None then None else Some([v] + more.value), f)
    else (Some([v]), e)
  }

  lemma NoMoreItems(v: Json, c: string, e: nat, depth: nat, scan: Scanner)
    requires Content(c) && e < |c| && c[e] != ','
    ensures AfterItem(v, c, e, depth, scan) == (Some([v]), e)
  {
  }

  lemma MoreItems(v: Json, more: seq<Json>, c: string, e: nat, depth: nat, scan: Scanner)
    requires Content(c) && e + 1 < |c| && c[e] == ',' && ItemsAt(c, e + 1, depth, scan).0 == Some(more)
    ensures AfterItem(v, c, e, depth, scan) == (Some([v] + more), ItemsAt(c, e + 1, depth, scan).1)
  {
  }

  lemma ItemsAtStep(c: string, o: nat, depth: nat, scan: Scanner)
    requires Content(c) && o < |c|
    ensures var (v, q) := ValueAt(c, SkipBlanks(c, o), depth, scan);
      v.Some? ==> ItemsAt(c, o, depth, scan) == AfterItem(v.value, c, SkipBlanks(c, q), depth, scan)
  {
    hide ValueAt, SkipBlanks;
  }

  /** Behind a value there are blanks, and then what is no blank. */
  lemma BehindValue(c: string, q: nat, behind: string, next: string)
    requires At(c, q, behind, next) && Blank(behind) && next != "" && !IsBlank(next[0])
    ensures var e := q + |behind|; e < |c| && SkipBlanks(c, q) == e && c[e] == next[0] && At(c, e, "", next)
  {
    hide SkipBlanks;
    SkipTo(c, q, behind, next);
    assert "" + next == next;
  }

  lemma BlanksEnd(behind: string, next: string)
    requires Blank(behind) && Ends(next)
    ensures Ends(behind + next)
  {
    if behind != "" { assert IsBlank(behind[0]); }
  }

  lemma FirstItemIs(xs: seq<Item>, levels: nat, scan: Scanner)
    requires xs != [] && ItemsProper(xs, levels, scan) && ItemsSpaced(xs, Blank)
    ensures Proper(xs[0].value, levels, scan) && Spaced(xs[0].value, Blank) && Blank(xs[0].front) && Blank(xs[0].behind)
    ensures ItemsProper(xs[1..], levels, scan) && ItemsSpaced(xs[1..], Blank)
    ensures MeanItems(xs, scan) == [Mean(xs[0].value, scan)] + MeanItems(xs[1..], scan)
    ensures |xs| == 1 ==> MeanItems(xs, scan) == [Mean(xs[0].value, scan)]
  {
    hide Spaced, Proper, Mean, Blank;
    NothingMeant(scan);
  }

  lemma {:induction false} ItemsParse(xs: seq<Item>, c: string, o: nat, rest: string, nesting: nat, scan: Scanner)
    requires Content(c) && nesting <= NESTING_LIMIT && xs != [] && ItemsProper(xs, NESTING_LIMIT - nesting, scan)
    requires ItemsSpaced(xs, Blank) && At(c, o, SpellItems(xs), rest) && rest != "" && rest[0] == ']'
    ensures o < |c| && ItemsAt(c, o, nesting, scan) == (Some(MeanItems(xs, scan)), o + |SpellItems(xs)|)
    decreases xs, 0
  {
    hide *;
    var x, levels := xs[0], NESTING_LIMIT - nesting;
    ItemBegins(xs, c, o, rest, levels, scan);
    FirstItemIs(xs, levels, scan);
    var p := o + |x.front|;
    var q := p + |Spell(x.value)|;
    BehindFirstItemIs(xs, rest);
    DocParses(x.value, c, p, BehindFirstItem(xs) + rest, nesting, scan);
    ItemsAtStep(c, o, nesting, scan);
    var e := q + |x.behind|;
    if |xs| == 1 {
      BehindValue(c, q, x.behind, rest);
      NoMoreItems(Mean(x.value, scan), c, e, nesting, scan);
    } else {
      MarkAt(c, q, x.behind, ',', SpellItems(xs[1..]), rest);
      ItemsParse(xs[1..], c, e + 1, rest, nesting, scan);
      MoreItems(Mean(x.value, scan), MeanItems(xs[1..], scan), c, e, nesting, scan);
    }
  }

  /** What follows the first item. */
  function BehindFirstItem(xs: seq<Item>): string
    requires xs != []
  {
    xs[0].behind + if |xs| == 1 then "" else "," + SpellItems(xs[1..])
  }

  lemma BehindFirstItemIs(xs: seq<Item>, rest: string)
    requires xs != [] && Blank(xs[0].behind) && rest != "" && rest[0] == ']'
    ensures Ends(BehindFirstItem(xs) + rest) && !IsBlank(rest[0]) && !IsBlank(',')
    ensures |xs| == 1 ==> BehindFirstItem(xs) == xs[0].behind
    ensures |xs| > 1 ==> BehindFirstItem(xs) == xs[0].behind + ([','] + SpellItems(xs[1..]))
  {
    hide SpellItems, Blank;
    if |xs| == 1 {
      assert xs[0].behind + "" == xs[0].behind;
      BlanksEnd(xs[0].behind, rest);
    } else {
      BlanksEnd(xs[0].behind, "," + SpellItems(xs[1..]) + rest);
      Associative(xs[0].behind, "," + SpellItems(xs[1..]), rest);
    }
  }

  /** Blanks, a mark and what stands behind it. */
  lemma MarkAt(c: string, k: nat, left: string, mark: char, more: string, rest: string)
    requires At(c, k, left + ([mark] + more), rest) && Blank(left) && !IsBlank(mark)
    ensures var e := k + |left|;
      e < |c| && SkipBlanks(c, k) == e && c[e] == mark && At(c, e + 1, more, rest)
  {
    hide SkipBlanks, Blank, At;
    Parts(c, k, left, [mark] + more, rest);
    BehindValue(c, k, left, [mark] + more + rest);
    BracketAt(c, k + |left|, mark, more, rest);
  }

  // ----- objects -----

  lemma ObjectAtStep(c: string, o: nat, depth: nat, scan: Scanner)
    requires Content(c) && o < |c| && c[o] == '{' && depth < NESTING_LIMIT
    ensures var p := SkipBlanks(c, o + 1);
      && (c[p] == '}' ==> ObjectAt(c, o, depth, scan) == (Some(Object([])), p + 1))
      && (c[p] != '}' ==>
        var (ms, q) := MembersAt(c, p, depth + 1, scan);
        ms.Some? && c[q] == '}' ==> ObjectAt(c, o, depth, scan) == (Some(Object(ms.value)), q + 1))
  {
    hide MembersAt, SkipBlanks;
  }

  lemma {:induction false} ObjectParses(open: string, fs: seq<Field>, c: string, o: nat, rest: string, nesting: nat, scan: Scanner)
    requires Content(c) && nesting < NESTING_LIMIT && FieldsProper(fs, NESTING_LIMIT - nesting - 1, scan)
    requires (fs == [] ==> Blank(open)) && FieldsSpaced(fs, Blank) && At(c, o, Spell(Fields(open, fs)), rest)
    ensures o < |c| && c[o] == '{'
    ensures ObjectAt(c, o, nesting, scan) == (Some(Object(MeanFields(fs, scan))), o + |Spell(Fields(open, fs))|)
    decreases fs, 1
  {
    hide *;
    var inside := if fs == [] then open else SpellFields(fs);
    SpellObject(open, fs);
    BracketAt(c, o, '{', inside + "}", rest);
    Parts(c, o + 1, inside, "}", rest);
    ObjectAtStep(c, o, nesting, scan);
    if fs == [] {
      BehindValue(c, o + 1, open, "}" + rest);
      NothingMeant(scan);
    } else {
      FieldBegins(fs, c, o + 1, "}" + rest, NESTING_LIMIT - nesting - 1, scan);
      SkipTwice(c, o + 1, nesting + 1, scan);
      FieldsParse(fs, c, o + 1, "}" + rest, nesting + 1, scan);
      BracketAt(c, o + 1 + |inside|, '}', "", rest);
    }
  }

  lemma SpellObject(open: string, fs: seq<Field>)
    ensures Spell(Fields(open, fs)) == ['{'] + ((if fs == [] then open else SpellFields(fs)) + "}")
    ensures "}" == ['}'] + "" && "}" != "" && !IsBlank("}"[0])
  {
  }

  /** What follows the key of the first field. */
  function BehindKey(fs: seq<Field>): string
    requires fs != []
  {
    fs[0].left + (":" + (fs[0].right + (Spell(fs[0].value) + BehindFirst(fs))))
  }

  /** What follows the value of the first field. */
  function BehindFirst(fs: seq<Field>): string
    requires fs != []
  {
    fs[0].behind + if |fs| == 1 then "" else "," + SpellFields(fs[1..])
  }

  lemma SpellFieldsIs(fs: seq<Field>)
    requires fs != []
    ensures SpellFields(fs) == fs[0].front + (InQuotes(fs[0].key) + BehindKey(fs))
  {
    hide Spell;
  }

  lemma FirstFieldIs(fs: seq<Field>, levels: nat, scan: Scanner)
    requires fs != [] && FieldsProper(fs, levels, scan) && FieldsSpaced(fs, Blank)
    ensures var f := fs[0];
      && Stands(f.key).Some? && Proper(f.value, levels, scan) && Spaced(f.value, Blank)
      && Blank(f.front) && Blank(f.left) && Blank(f.right) && Blank(f.behind)
      && FieldsProper(fs[1..], levels, scan) && FieldsSpaced(fs[1..], Blank)
      && MeanFirst(fs, scan) == Member(Stood(f.key), Mean(f.value, scan))
      && MeanFields(fs, scan) == [MeanFirst(fs, scan)] + MeanFields(fs[1..], scan)
      && (|fs| == 1 ==> MeanFields(fs, scan) == [MeanFirst(fs, scan)])
  {
    hide Spaced, Proper, Mean, Blank, Stands;
    NothingMeant(scan);
  }

  lemma FieldBegins(fs: seq<Field>, c: string, o: nat, rest: string, levels: nat, scan: Scanner)
    requires fs != [] && FieldsProper(fs, levels, scan) && FieldsSpaced(fs, Blank) && At(c, o, SpellFields(fs), rest)
    ensures var f, p := fs[0], o + |fs[0].front|;
      && p < |c| && SkipBlanks(c, o) == p && c[p] == '"' && !IsBlank(c[p])
      && At(c, p, InQuotes(f.key), BehindKey(fs) + rest) && At(c, p + |f.key| + 2, BehindKey(fs), rest)
      && |SpellFields(fs)| == |f.front| + |f.key| + 2 + |BehindKey(fs)|
  {
    hide *;
    var f := fs[0];
    FirstFieldIs(fs, levels, scan);
    SpellFieldsIs(fs);
    Parts(c, o, f.front, InQuotes(f.key) + BehindKey(fs), rest);
    Parts(c, o + |f.front|, InQuotes(f.key), BehindKey(fs), rest);
    QuotesBegin(f.key);
    SkipTo(c, o, f.front, InQuotes(f.key) + BehindKey(fs) + rest);
  }

  lemma QuotesBegin(body: string)
    ensures |InQuotes(body)| == |body| + 2 && InQuotes(body)[0] == '"' && !IsBlank('"')
  {
  }

  /** What the loop makes of a member and of what stands at `e` behind it. */
  function AfterMember(m: Member, c: string, e: nat, depth: nat, scan: Scanner): (Option<seq<Member>>, nat)
    requires Content(c) && e < |c|
  {
    if c[e] == ',' then
      var (more, f) := MembersAt(c, e + 1, depth, scan);
      (if more == None then None else Some([m] + more.value), f)
    else (Some([m]), e)
  }

  lemma NoMoreMembers(m: Member, c: string, e: nat, depth: nat, scan: Scanner)
    requires Content(c) && e < |c| && c[e] != ','
    ensures AfterMember(m, c, e, depth, scan) == (Some([m]), e)
  {
  }

  lemma MoreMembers(m: Member, more: seq<Member>, c: string, e: nat, depth: nat, scan: Scanner)
    requires Content(c) && e + 1 < |c| && c[e] == ',' && MembersAt(c, e + 1, depth, scan).0 == Some(more)
    ensures AfterMember(m, c, e, depth, scan) == (Some([m] + more), MembersAt(c, e + 1, depth, scan).1)
  {
  }

  lemma MembersAtStep(c: string, o: nat, depth: nat, scan: Scanner)
    requires Content(c) && o < |c|
    ensures var (key, k) := StringAt(c, SkipBlanks(c, o));
      key.Some? ==>
        var colon := SkipBlanks(c, k);
        c[colon] == ':' ==>
          var (v, q) := ValueAt(c, SkipBlanks(c, colon + 1), depth, scan);
          v.Some? ==>
            MembersAt(c, o, depth, scan) == AfterMember(Member(key.value, v.value), c, SkipBlanks(c, q), depth, scan)
  {
    hide ValueAt, StringAt;
  }

  /** The first field from `o` on; its value ends at `q`. */
  lemma {:induction false} FieldParses(fs: seq<Field>, c: string, o: nat, rest: string, nesting: nat, scan: Scanner) returns (q: nat)
    requires Content(c) && nesting <= NESTING_LIMIT && fs != [] && FieldsProper(fs, NESTING_LIMIT - nesting, scan)
    requires FieldsSpaced(fs, Blank) && At(c, o, SpellFields(fs), rest) && rest != "" && rest[0] == '}'
    ensures o < |c| && q <= |c| && At(c, q, BehindFirst(fs), rest) && q + |BehindFirst(fs)| == o + |SpellFields(fs)|
    ensures MembersAt(c, o, nesting, scan) == AfterMember(MeanFirst(fs, scan), c, SkipBlanks(c, q), nesting, scan)
    decreases fs[0].value, 1
  {
    hide *;
    var f, levels := fs[0], NESTING_LIMIT - nesting;
    FieldBegins(fs, c, o, rest, levels, scan);
    FirstFieldIs(fs, levels, scan);
    var k := o + |f.front| + |f.key| + 2;
    BodyParses(c, o + |f.front|, f.key, BehindKey(fs) + rest);
    ValueBegins(fs, c, k, rest, levels, scan);
    var p := k + |f.left| + 1 + |f.right|;
    BehindFirstIs(fs, rest);
    DocParses(f.value, c, p, BehindFirst(fs) + rest, nesting, scan);
    MembersAtStep(c, o, nesting, scan);
    q := p + |Spell(f.value)|;
  }

  lemma BehindFirstIs(fs: seq<Field>, rest: string)
    requires fs != [] && Blank(fs[0].behind) && rest != "" && rest[0] == '}'
    ensures Ends(BehindFirst(fs) + rest) && !IsBlank(rest[0]) && !IsBlank(',')
    ensures |fs| == 1 ==> BehindFirst(fs) == fs[0].behind
    ensures |fs| > 1 ==> BehindFirst(fs) == fs[0].behind + ([','] + SpellFields(fs[1..]))
  {
    hide SpellFields, Blank;
    if |fs| == 1 {
      assert fs[0].behind + "" == fs[0].behind;
      BlanksEnd(fs[0].behind, rest);
    } else {
      BlanksEnd(fs[0].behind, "," + SpellFields(fs[1..]) + rest);
      Associative(fs[0].behind, "," + SpellFields(fs[1..]), rest);
    }
  }

  function MeanFirst(fs: seq<Field>, scan: Scanner): Member
    requires fs != []
  {
    Member(Stood(fs[0].key), Mean(fs[0].value, scan))
  }

  lemma {:induction false} FieldsParse(fs: seq<Field>, c: string, o: nat, rest: string, nesting: nat, scan: Scanner)
    requires Content(c) && nesting <= NESTING_LIMIT && fs != [] && FieldsProper(fs, NESTING_LIMIT - nesting, scan)
    requires FieldsSpaced(fs, Blank) && At(c, o, SpellFields(fs), rest) && rest != "" && rest[0] == '}'
    ensures o < |c| && MembersAt(c, o, nesting, scan) == (Some(MeanFields(fs, scan)), o + |SpellFields(fs)|)
    decreases fs, 0
  {
    hide *;
    var levels := NESTING_LIMIT - nesting;
    var q := FieldParses(fs, c, o, rest, nesting, scan);
    FirstFieldIs(fs, levels, scan);
    BehindFirstIs(fs, rest);
    var e, m := q + |fs[0].behind|, MeanFirst(fs, scan);
    if |fs| == 1 {
      BehindValue(c, q, fs[0].behind, rest);
      NoMoreMembers(m, c, e, nesting, scan);
    } else {
      MarkAt(c, q, fs[0].behind, ',', SpellFields(fs[1..]), rest);
      FieldsParse(fs[1..], c, e + 1, rest, nesting, scan);
      MoreMembers(m, MeanFields(fs[1..], scan), c, e, nesting, scan);
    }
  }

  /** The colon behind a key and the value behind that. */
  lemma ValueBegins(fs: seq<Field>, c: string, k: nat, rest: string, levels: nat, scan: Scanner)
    requires fs != [] && FieldsProper(fs, levels, scan) && FieldsSpaced(fs, Blank) && At(c, k, BehindKey(fs), rest)
    ensures var f, colon := fs[0], k + |fs[0].left|;
      var p := colon + 1 + |f.right|;
      && colon < |c| && SkipBlanks(c, k) == colon && c[colon] == ':' && p < |c| && SkipBlanks(c, colon + 1) == p
      && At(c, p, Spell(f.value), BehindFirst(fs) + rest) && At(c, p + |Spell(f.value)|, BehindFirst(fs), rest)
      && |BehindKey(fs)| == |f.left| + 1 + |f.right| + |Spell(f.value)| + |BehindFirst(fs)|
  {
    hide *;
    var f := fs[0];
    var s, more := Spell(f.value), BehindFirst(fs);
    FirstFieldIs(fs, levels, scan);
    DocBegins(f.value, levels, scan);
    BehindKeyIs(fs);
    MarkAt(c, k, f.left, ':', f.right + (s + more), rest);
    AfterBlanks(c, k + |f.left| + 1, f.right, s, more, rest);
  }

  lemma BehindKeyIs(fs: seq<Field>)
    requires fs != []
    ensures BehindKey(fs) == fs[0].left + ([':'] + (fs[0].right + (Spell(fs[0].value) + BehindFirst(fs)))) && !IsBlank(':')
  {
    hide Spell, BehindFirst;
  }

  lemma AfterBlanks(c: string, o: nat, blank: string, s: string, more: string, rest: string)
    requires At(c, o, blank + (s + more), rest) && Blank(blank) && s != "" && !IsBlank(s[0])
    ensures var p := o + |blank|;
      p < |c| && SkipBlanks(c, o) == p && At(c, p, s, more + rest) && At(c, p + |s|, more, rest)
  {
    hide SkipBlanks, Blank, At;
    Parts(c, o, blank, s + more, rest);
    Parts(c, o + |blank|, s, more, rest);
    BehindValue(c, o, blank, s + more + rest);
  }
}

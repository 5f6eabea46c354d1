/** Minifying a text that is parsed changes nothing of what it means, and of a print it leaves the unformatted print. */
module JsonMinifyMeaning {

  import opened CStrings
  import opened JsonTree
  import opened JsonText
  import opened JsonStrings
  import opened JsonParser
  import opened JsonReading
  import opened JsonGrammar
  import opened JsonGrammarParse
  import opened JsonGrammarSpelt
  import opened JsonPrintParse
  import opened JsonMinifyText
  import JsonMinify
  import opened Options
  import opened Sequences

  // ----- the tokens of a proper text are kept -----

  lemma {:induction false} ClosingCloses(q: string, i: nat)
    requires i < |q| && Closing(q, i).Some? && Closing(q, i).value.end == |q| - 1 && NulFree(q)
    ensures Closed(q[i..|q| - 1])
    decreases |q| - i
  {
    hide Closing;
    ClosingStep(q, i);
    var body := q[i..|q| - 1];
    if q[i] == '\\' {
      assert body[2..] == q[i + 2..|q| - 1];
      ClosingCloses(q, i + 2);
    } else if q[i] != '"' {
      assert body[1..] == q[i + 1..|q| - 1];
      ClosingCloses(q, i + 1);
    }
  }

  lemma StandingIsClosed(body: string)
    requires Stands(body).Some? && NulFree(InQuotes(body))
    ensures Closed(body)
  {
    hide Closing, Closed, Unescape, CString;
    var q := InQuotes(body);
    assert q[1..|q| - 1] == body;
    ClosingCloses(q, 1);
  }

  lemma NulFreeParts(a: string, b: string)
    requires NulFree(a + b)
    ensures NulFree(a) && NulFree(b)
  {
    assert forall i :: 0 <= i < |a| ==> a[i] == (a + b)[i];
    assert forall i :: 0 <= i < |b| ==> b[i] == (a + b)[|a| + i];
  }

  lemma BlankIsLoose(s: string)
    requires NulFree(s)
    ensures Blank(s) ==> Loose(s)
  {
    hide Blank, NulFree, Gap;
  }

  lemma WordIsPlain(w: string)
    requires w == "null" || w == "true" || w == "false"
    ensures AllPlain(w)
  {
  }

  lemma NumeralIsPlain(s: string, scan: Scanner)
    requires IsNumeral(s, scan)
    ensures AllPlain(s)
  {
    forall i | 0 <= i < |s| ensures JsonMinifyText.Plain(s[i]) { assert s[i] in "+-.0123456789Ee"; }
  }

  /** A text without a terminator in it: its strings are closed, its words and numbers plain. */
  lemma {:induction false} ProperIsKept(d: Doc, levels: nat, scan: Scanner)
    requires Proper(d, levels, scan) && NulFree(Spell(d))
    ensures Kept(d) && (Spaced(d, Blank) ==> Spaced(d, Loose))
    decreases d, 0
  {
    hide IsNumeral, AllPlain, Stands, Closed, SpellItems, SpellFields, NulFree, ItemsProper, FieldsProper, ItemsKept, FieldsKept, InQuotes, Blank, Loose, ItemsSpaced, FieldsSpaced;
    match d
    case Word(w) => WordIsPlain(w);
    case Numeral(s) => NumeralIsPlain(s, scan);
    case Quoted(body) => StandingIsClosed(body);
    case Items(open, xs) =>
      var inside := if xs == [] then open else SpellItems(xs);
      NulFreeParts("[", inside + "]");
      NulFreeParts(inside, "]");
      if Blank(open) && NulFree(open) { BlankIsLoose(open); }
      ItemsAreKept(xs, levels - 1, scan);
    case Fields(open, fs) =>
      var inside := if fs == [] then open else SpellFields(fs);
      NulFreeParts("{", inside + "}");
      NulFreeParts(inside, "}");
      if Blank(open) && NulFree(open) { BlankIsLoose(open); }
      FieldsAreKept(fs, levels - 1, scan);
  }

  lemma {:induction false} ItemsAreKept(xs: seq<Item>, levels: nat, scan: Scanner)
    requires ItemsProper(xs, levels, scan) && (xs != [] ==> NulFree(SpellItems(xs)))
    ensures ItemsKept(xs) && (ItemsSpaced(xs, Blank) ==> ItemsSpaced(xs, Loose))
    decreases xs, 1
  {
    hide Spell, Proper, Kept, NulFree, SpellItems, Blank, Loose, Spaced;
    if xs != [] {
      var x, more := xs[0], if |xs| == 1 then "" else [','] + SpellItems(xs[1..]);
      ItemsSpell(xs);
      NulFreeParts(x.front, Spell(x.value) + (x.behind + more));
      NulFreeParts(Spell(x.value), x.behind + more);
      NulFreeParts(x.behind, more);
      BlankIsLoose(x.front);
      BlankIsLoose(x.behind);
      ProperIsKept(x.value, levels, scan);
      if |xs| > 1 {
        NulFreeParts([','], SpellItems(xs[1..]));
      }
      ItemsAreKept(xs[1..], levels, scan);
    }
  }

  lemma {:induction false} FieldsAreKept(fs: seq<Field>, levels: nat, scan: Scanner)
    requires FieldsProper(fs, levels, scan) && (fs != [] ==> NulFree(SpellFields(fs)))
    ensures FieldsKept(fs) && (FieldsSpaced(fs, Blank) ==> FieldsSpaced(fs, Loose))
    decreases fs, 1
  {
    hide Spell, Proper, Kept, NulFree, SpellFields, Closed, Stands, BehindFirst, BehindKey, InQuotes, Blank, Loose, Spaced;
    if fs != [] {
      var f, more := fs[0], if |fs| == 1 then "" else [','] + SpellFields(fs[1..]);
      FieldsSpellOne(fs);
      NulFreeParts(f.front, InQuotes(f.key) + BehindKey(fs));
      NulFreeParts(InQuotes(f.key), BehindKey(fs));
      StandingIsClosed(f.key);
      NulFreeParts(f.left, [':'] + (f.right + (Spell(f.value) + BehindFirst(fs))));
      NulFreeParts([':'], f.right + (Spell(f.value) + BehindFirst(fs)));
      NulFreeParts(f.right, Spell(f.value) + BehindFirst(fs));
      NulFreeParts(Spell(f.value), BehindFirst(fs));
      ProperIsKept(f.value, levels, scan);
      NulFreeParts(f.behind, more);
      BlankIsLoose(f.front);
      BlankIsLoose(f.left);
      BlankIsLoose(f.right);
      BlankIsLoose(f.behind);
      if |fs| > 1 { NulFreeParts([','], SpellFields(fs[1..])); }
      FieldsAreKept(fs[1..], levels, scan);
    }
  }

  // ----- what is left means the same -----

  lemma {:induction false} BareMeans(d: Doc, levels: nat, scan: Scanner)
    requires Spaced(d, Loose)
    ensures Mean(Bare(d), scan) == Mean(d, scan) && (Proper(Bare(d), levels, scan) <==> Proper(d, levels, scan)) && Spaced(Bare(d), Blank)
    decreases d
  {
    hide Stands, Loose, Remains, Blank, IsNumeral, ItemsProper, FieldsProper, MeanItems, MeanFields, BareItems, BareFields, ItemsSpaced, FieldsSpaced, Saturate;
    match d
    case Items(open, xs) =>
      if xs == [] { RemainsIsBlank(open); }
      if levels > 0 { BareItemsMean(xs, levels - 1, scan); } else { BareItemsMean(xs, 0, scan); }
    case Fields(open, fs) =>
      if fs == [] { RemainsIsBlank(open); }
      if levels > 0 { BareFieldsMean(fs, levels - 1, scan); } else { BareFieldsMean(fs, 0, scan); }
    case _ =>
  }

  lemma {:induction false} BareItemsMean(xs: seq<Item>, levels: nat, scan: Scanner)
    requires ItemsSpaced(xs, Loose)
    ensures MeanItems(BareItems(xs), scan) == MeanItems(xs, scan)
    ensures (ItemsProper(BareItems(xs), levels, scan) <==> ItemsProper(xs, levels, scan)) && ItemsSpaced(BareItems(xs), Blank)
    decreases xs
  {
    hide Mean, Proper, Spaced, Bare, Loose, Remains, Blank;
    if xs != [] {
      RemainsIsBlank(xs[0].front);
      RemainsIsBlank(xs[0].behind);
      BareMeans(xs[0].value, levels, scan);
      BareItemsMean(xs[1..], levels, scan);
      assert BareItems(xs)[1..] == BareItems(xs[1..]);
    }
  }

  lemma {:induction false} BareFieldsMean(fs: seq<Field>, levels: nat, scan: Scanner)
    requires FieldsSpaced(fs, Loose)
    ensures MeanFields(BareFields(fs), scan) == MeanFields(fs, scan)
    ensures (FieldsProper(BareFields(fs), levels, scan) <==> FieldsProper(fs, levels, scan)) && FieldsSpaced(BareFields(fs), Blank)
    decreases fs
  {
    hide Mean, Proper, Spaced, Bare, Loose, Remains, Blank, Stands;
    if fs != [] {
      var f := fs[0];
      RemainsIsBlank(f.front);
      RemainsIsBlank(f.left);
      RemainsIsBlank(f.right);
      RemainsIsBlank(f.behind);
      BareMeans(f.value, levels, scan);
      BareFieldsMean(fs[1..], levels, scan);
      assert BareFields(fs)[1..] == BareFields(fs[1..]);
    }
  }

  lemma NulFreeWhole(a: string, b: string)
    ensures NulFree(a) && NulFree(b) ==> NulFree(a + b)
    ensures NulFree("[") && NulFree("]") && NulFree("{") && NulFree("}") && NulFree([',']) && NulFree([':']) && NulFree("")
  {
  }

  lemma {:induction false} BareNulFree(d: Doc)
    requires NulFree(Spell(d)) && Spaced(d, Loose)
    ensures NulFree(Spell(Bare(d)))
    decreases d, 0
  {
    hide NulFree, Loose, Remains, SpellItems, SpellFields, BareItems, BareFields, ItemsSpaced, FieldsSpaced;
    match d
    case Items(open, xs) =>
      var inside, left := if xs == [] then open else SpellItems(xs), if xs == [] then Remains(open) else SpellItems(BareItems(xs));
      NulFreeParts("[", inside + "]");
      NulFreeParts(inside, "]");
      if xs == [] { RemainsIsBlank(open); } else { BareItemsNulFree(xs); }
      NulFreeWhole(left, "]");
      NulFreeWhole("[", left + "]");
    case Fields(open, fs) =>
      var inside, left := if fs == [] then open else SpellFields(fs), if fs == [] then Remains(open) else SpellFields(BareFields(fs));
      NulFreeParts("{", inside + "}");
      NulFreeParts(inside, "}");
      if fs == [] { RemainsIsBlank(open); } else { BareFieldsNulFree(fs); }
      NulFreeWhole(left, "}");
      NulFreeWhole("{", left + "}");
    case _ =>
  }

  lemma {:induction false} BareItemsNulFree(xs: seq<Item>)
    requires xs != [] && NulFree(SpellItems(xs)) && ItemsSpaced(xs, Loose)
    ensures NulFree(SpellItems(BareItems(xs)))
    decreases xs, 1
  {
    hide NulFree, Loose, Remains, Spell, SpellItems, Bare, BareItems, Spaced;
    var x, more := xs[0], if |xs| == 1 then "" else [','] + SpellItems(xs[1..]);
    var less := if |xs| == 1 then "" else [','] + SpellItems(BareItems(xs[1..]));
    ItemsSpell(xs);
    NulFreeParts(x.front, Spell(x.value) + (x.behind + more));
    NulFreeParts(Spell(x.value), x.behind + more);
    NulFreeParts(x.behind, more);
    RemainsIsBlank(x.front);
    RemainsIsBlank(x.behind);
    BareNulFree(x.value);
    if |xs| > 1 {
      NulFreeParts([','], SpellItems(xs[1..]));
      BareItemsNulFree(xs[1..]);
      NulFreeWhole([','], SpellItems(BareItems(xs[1..])));
    }
    NulFreeWhole(Remains(x.behind), less);
    NulFreeWhole(Spell(Bare(x.value)), Remains(x.behind) + less);
    NulFreeWhole(Remains(x.front), Spell(Bare(x.value)) + (Remains(x.behind) + less));
  }

  lemma {:induction false} BareFieldsNulFree(fs: seq<Field>)
    requires fs != [] && NulFree(SpellFields(fs)) && FieldsSpaced(fs, Loose)
    ensures NulFree(SpellFields(BareFields(fs)))
    decreases fs, 1
  {
    hide NulFree, Loose, Remains, Spell, SpellFields, Bare, BareFields, Spaced, InQuotes, BehindKey, BehindFirst;
    var f, bare := fs[0], BareFields(fs);
    var more, less := if |fs| == 1 then "" else [','] + SpellFields(fs[1..]), if |fs| == 1 then "" else [','] + SpellFields(BareFields(fs[1..]));
    FieldsSpell(fs);
    NulFreeParts(f.front, InQuotes(f.key) + BehindKey(fs));
    NulFreeParts(InQuotes(f.key), BehindKey(fs));
    NulFreeParts(f.left, [':'] + (f.right + (Spell(f.value) + BehindFirst(fs))));
    NulFreeParts([':'], f.right + (Spell(f.value) + BehindFirst(fs)));
    NulFreeParts(f.right, Spell(f.value) + BehindFirst(fs));
    NulFreeParts(Spell(f.value), BehindFirst(fs));
    NulFreeParts(f.behind, more);
    RemainsIsBlank(f.front);
    RemainsIsBlank(f.left);
    RemainsIsBlank(f.right);
    RemainsIsBlank(f.behind);
    BareNulFree(f.value);
    if |fs| > 1 {
      NulFreeParts([','], SpellFields(fs[1..]));
      BareFieldsNulFree(fs[1..]);
      NulFreeWhole([','], SpellFields(BareFields(fs[1..])));
    }
    NulFreeWhole(Remains(f.behind), less);
    NulFreeWhole(Spell(Bare(f.value)), BehindFirst(bare));
    NulFreeWhole(Remains(f.right), Spell(Bare(f.value)) + BehindFirst(bare));
    NulFreeWhole([':'], Remains(f.right) + (Spell(Bare(f.value)) + BehindFirst(bare)));
    NulFreeWhole(Remains(f.left), [':'] + (Remains(f.right) + (Spell(Bare(f.value)) + BehindFirst(bare))));
    NulFreeWhole(InQuotes(f.key), BehindKey(bare));
    NulFreeWhole(Remains(f.front), InQuotes(f.key) + BehindKey(bare));
  }

  // ----- the results -----

  /** What minifying leaves of a text, if the program stops in the memory. */
  function MinifiedText(value: string, behind: string): Option<string> {
    JsonMinify.Minified(value + ([NUL] + behind), 0)
  }

  function Mark(mark: bool): string {
    if mark then BYTE_ORDER_MARK else ""
  }

  /** A text of the grammar with blanks and comments between its tokens: what is left of it is a text without comments
      that is parsed to what the tokens mean. */
  lemma MinifyThenParse(mark: bool, front: string, d: Doc, end: string, behind: string, scan: Scanner)
    requires Loose(front) && Loose(end) && Spaced(d, Loose) && Proper(d, NESTING_LIMIT, scan)
    requires NulFree(Mark(mark) + (front + (Spell(d) + end)))
    ensures var out := MinifiedText(Mark(mark) + (front + (Spell(d) + end)), behind);
      out.Some? && NulFree(out.value) && ParseWithOpts(out.value, true, scan) == (Some(Mean(d, scan)), |out.value|)
  {
    hide *;
    var text := front + (Spell(d) + end);
    var left := Remains(front) + (Spell(Bare(d)) + Remains(end));
    NulFreeParts(Mark(mark), text);
    NulFreeParts(front, Spell(d) + end);
    NulFreeParts(Spell(d), end);
    ProperIsKept(d, NESTING_LIMIT, scan);
    TokensAreLeft(front, d, end, behind);
    BehindMark(mark, text, front, Spell(d), end, behind, left);
    RemainsIsBlank(front);
    RemainsIsBlank(end);
    BareNulFree(d);
    NulFreeWhole(Spell(Bare(d)), Remains(end));
    NulFreeWhole(Remains(front), Spell(Bare(d)) + Remains(end));
    NulFreeWhole(Mark(mark), left);
    BareMeans(d, NESTING_LIMIT, scan);
    IsWhole(mark, Remains(front), Bare(d), Remains(end), scan);
    WholeParses(Mark(mark) + left, mark, Remains(front), Bare(d), Remains(end), scan);
  }

  lemma IsWhole(mark: bool, front: string, d: Doc, end: string, scan: Scanner)
    requires Blank(front) && Blank(end) && Proper(d, NESTING_LIMIT, scan) && Spaced(d, Blank)
    ensures Whole(Mark(mark) + (front + (Spell(d) + end)), mark, front, d, end, scan)
  {
  }

  /** A byte order mark stays. */
  lemma BehindMark(mark: bool, text: string, front: string, s: string, end: string, behind: string, left: string)
    requires text == front + (s + end) && JsonMinify.Minified(front + (s + (end + ([NUL] + behind))), 0) == Some(left)
    ensures MinifiedText(Mark(mark) + text, behind) == Some(Mark(mark) + left)
  {
    hide JsonMinify.Minified;
    var m := front + (s + (end + ([NUL] + behind)));
    assert text + ([NUL] + behind) == m;
    assert Mark(mark) + text + ([NUL] + behind) == Mark(mark) + m;
    assert (Mark(mark) + m)[0..] == Mark(mark) + m;
    assert AllPlain(Mark(mark));
    PlainKept(Mark(mark) + m, 0, Mark(mark), m);
    JsonMinify.InFrontIsNothing(Mark(mark), m, 0);
  }

  /** Whatever is parsed: minifying leaves a text that is parsed to the same tree. */
  lemma MinifyKeepsMeaning(value: string, behind: string, scan: Scanner)
    requires NulFree(value) && ParseWithOpts(value, true, scan).0.Some?
    ensures var out := MinifiedText(value, behind);
      out.Some? && NulFree(out.value) && ParseWithOpts(out.value, true, scan).0 == ParseWithOpts(value, true, scan).0
  {
    hide *;
    var mark, front, d, end := WholeSpelt(value, scan);
    WholeParts(value, mark, front, d, end, scan);
    NulFreeParts(Mark(mark), front + (Spell(d) + end));
    NulFreeParts(front, Spell(d) + end);
    NulFreeParts(Spell(d), end);
    BlankIsLoose(front);
    BlankIsLoose(end);
    ProperIsKept(d, NESTING_LIMIT, scan);
    MinifyThenParse(mark, front, d, end, behind, scan);
  }

  lemma WholeParts(value: string, mark: bool, front: string, d: Doc, end: string, scan: Scanner)
    requires Whole(value, mark, front, d, end, scan)
    ensures value == Mark(mark) + (front + (Spell(d) + end)) && Blank(front) && Blank(end)
    ensures Proper(d, NESTING_LIMIT, scan) && Spaced(d, Blank)
  {
  }

  // ----- prints -----

  /** No raw item, and numbers without blanks, slashes and quotation marks. */
  predicate Minifiable(t: Json, token: real -> string) {
    match t
    case Number(_, d) => AllPlain(token(d))
    case Array(xs) => ItemsMinifiable(xs, token)
    case Object(ms) => MembersMinifiable(ms, token)
    case Raw(_) => false
    case _ => true
  }

  predicate ItemsMinifiable(xs: seq<Json>, token: real -> string) {
    xs != [] ==> Minifiable(xs[0], token) && ItemsMinifiable(xs[1..], token)
  }

  predicate MembersMinifiable(ms: seq<Member>, token: real -> string) {
    ms != [] ==> Minifiable(ms[0].value, token) && MembersMinifiable(ms[1..], token)
  }

  lemma {:induction false} EscapedIsClosed(s: string)
    ensures Closed(EscapeAll(s))
  {
    if s != "" {
      hide EscapeAll;
      EscapeAllStep(s);
      EscapedIsClosed(s[1..]);
      EscapeCloses(s[0], EscapeAll(s[1..]));
    }
  }

  lemma EscapeCloses(x: char, rest: string)
    requires Closed(rest)
    ensures Closed(Escape(x) + rest)
  {
    var e := Escape(x);
    var t := e + rest;
    if Letter(x) != NUL {
      assert t[2..] == rest;
    } else if x as int < 32 {
      assert t[2..][1..][1..][1..][1..] == rest;
      assert Closed(t[2..][1..][1..][1..]);
      assert Closed(t[2..][1..][1..]);
      assert Closed(t[2..][1..]);
      assert Closed(t[2..]);
    } else {
      assert t[1..] == rest;
    }
  }

  /** The print of a tree in either format: its tokens are kept, and without what stands between them it is the
      unformatted print. */
  lemma {:induction false} PrintIsBare(t: Json, depth: nat, depth': nat, format: bool, token: real -> string)
    requires Minifiable(t, token)
    ensures var d := Printed(t, depth, format, token); Kept(d) && Spaced(d, Gap) && Bare(d) == Printed(t, depth', false, token)
    decreases t
  {
    hide PrintedItems, PrintedFields, Closed, EscapeAll, ItemsKept, FieldsKept, ItemsSpaced, FieldsSpaced, BareItems, BareFields, Gap, Loose, ItemsMinifiable, MembersMinifiable, Tabs, Line, Indent;
    match t
    case String(s) => EscapedIsClosed(s);
    case Array(xs) =>
      NoGap();
      ItemsAreBare(xs, "", depth + 1, depth' + 1, format, token);
    case Object(ms) =>
      NoGap();
      LineIsGap(depth, format);
      FieldsAreBare(ms, Line(format) + Indent(depth, format), depth + 1, depth' + 1, format, token);
    case _ =>
  }

  lemma NoGap()
    ensures Gap("") && Gap(" ") && Gap("\t") && forall s :: Gap(s) ==> Remains(s) == ""
    ensures forall depth: nat :: Line(false) + Indent(depth, false) == ""
  {
    hide LineComment, BlockComment;
    assert " "[1..] == "" && "\t"[1..] == "";
  }

  lemma {:induction false} SpaceIsGap(s: string)
    requires AllSpace(s)
    ensures Gap(s)
    decreases |s|
  {
    if s != "" { SpaceIsGap(s[1..]); }
  }

  lemma LineIsGap(depth: nat, format: bool)
    ensures Gap(Line(format) + Indent(depth, format))
  {
    SpaceIsGap(Line(format) + Indent(depth, format));
  }

  lemma {:induction false} ItemsAreBare(xs: seq<Json>, front: string, depth: nat, depth': nat, format: bool, token: real -> string)
    requires ItemsMinifiable(xs, token) && Gap(front)
    ensures var d := PrintedItems(xs, front, depth, format, token);
      ItemsKept(d) && ItemsSpaced(d, Gap) && BareItems(d) == PrintedItems(xs, "", depth', false, token)
    decreases xs
  {
    hide Printed, Kept, Spaced, Bare, Gap, Minifiable;
    NoGap();
    if xs != [] {
      PrintIsBare(xs[0], depth, depth', format, token);
      ItemsAreBare(xs[1..], if format then " " else "", depth, depth', format, token);
      var x := Item(front, Printed(xs[0], depth, format, token), "");
      var more := PrintedItems(xs[1..], if format then " " else "", depth, format, token);
      assert ([x] + more)[1..] == more;
    }
  }

  lemma {:induction false} FieldsAreBare(ms: seq<Member>, close: string, depth: nat, depth': nat, format: bool, token: real -> string)
    requires MembersMinifiable(ms, token) && Gap(close)
    ensures var d := PrintedFields(ms, close, depth, format, token);
      FieldsKept(d) && FieldsSpaced(d, Gap) && BareFields(d) == PrintedFields(ms, "", depth', false, token)
    decreases ms
  {
    hide Printed, Kept, Spaced, Bare, Gap, Minifiable, Closed, EscapeAll, Line, Indent;
    NoGap();
    if ms != [] {
      LineIsGap(depth, format);
      EscapedIsClosed(ms[0].key);
      PrintIsBare(ms[0].value, depth, depth', format, token);
      FieldsAreBare(ms[1..], close, depth, depth', format, token);
      var f := Field(Line(format) + Indent(depth, format), EscapeAll(ms[0].key), "", if format then "\t" else "",
                     Printed(ms[0].value, depth, format, token), if |ms| == 1 then close else "");
      var more := PrintedFields(ms[1..], close, depth, format, token);
      assert ([f] + more)[1..] == more;
    }
  }

  /** A print with blanks and comments between its tokens, in front of it and behind it, is minified to the unformatted
      print, whatever stands behind it in the memory. */
  lemma CommentedPrint(t: Json, front: string, d: Doc, end: string, token: real -> string, behind: string)
    requires Minifiable(t, token) && Gap(front) && Gap(end) && Spaced(d, Gap)
    requires Bare(d) == Bare(Printed(t, 0, false, token))
    ensures MinifiedText(front + (Spell(d) + end), behind) == Some(Text(t, 0, false, token))
  {
    hide *;
    var p := Printed(t, 0, false, token);
    PrintIsBare(t, 0, 0, false, token);
    GapIsLoose(d, front, end);
    SameKept(d, p);
    TokensAreLeft(front, d, end, behind);
    SpellPrinted(t, 0, false, token);
    Nested(front, Spell(d), end, [NUL] + behind);
    NoGap();
    assert "" + (Spell(p) + "") == Spell(p);
    MinifiedTextIs(front + (Spell(d) + end), behind);
  }

  lemma MinifiedTextIs(value: string, behind: string)
    ensures MinifiedText(value, behind) == JsonMinify.Minified(value + ([NUL] + behind), 0)
  {
  }

  lemma Nested(a: string, b: string, c: string, rest: string)
    ensures a + (b + c) + rest == a + (b + (c + rest))
  {
    Associative(a, b + c, rest);
    Associative(b, c, rest);
  }

  lemma {:induction false} GapIsLoose(d: Doc, front: string, end: string)
    requires Spaced(d, Gap) && Gap(front) && Gap(end)
    ensures Spaced(d, Loose) && Loose(front) && Loose(end)
    decreases d
  {
    hide Gap, Blank, NulFree, ItemsSpaced, FieldsSpaced;
    match d
    case Items(_, xs) => ItemGapsLoose(xs);
    case Fields(_, fs) => FieldGapsLoose(fs);
    case _ =>
  }

  lemma {:induction false} ItemGapsLoose(xs: seq<Item>)
    requires ItemsSpaced(xs, Gap)
    ensures ItemsSpaced(xs, Loose)
    decreases xs
  {
    hide Gap, Blank, NulFree, Spaced;
    if xs != [] {
      GapIsLoose(xs[0].value, xs[0].front, xs[0].behind);
      ItemGapsLoose(xs[1..]);
    }
  }

  lemma {:induction false} FieldGapsLoose(fs: seq<Field>)
    requires FieldsSpaced(fs, Gap)
    ensures FieldsSpaced(fs, Loose)
    decreases fs
  {
    hide Gap, Blank, NulFree, Spaced;
    if fs != [] {
      GapIsLoose(fs[0].value, fs[0].front, fs[0].left);
      GapIsLoose(fs[0].value, fs[0].right, fs[0].behind);
      FieldGapsLoose(fs[1..]);
    }
  }

  /** The tokens decide whether they are kept, not what stands between them. */
  lemma {:induction false} SameKept(d: Doc, p: Doc)
    requires Bare(d) == Bare(p) && Kept(p)
    ensures Kept(d)
    decreases d
  {
    hide Closed, Remains, BareItems, BareFields, ItemsKept, FieldsKept;
    match d
    case Items(_, xs) => ItemsSameKept(xs, p.xs);
    case Fields(_, fs) => FieldsSameKept(fs, p.fs);
    case _ =>
  }

  lemma {:induction false} ItemsSameKept(xs: seq<Item>, ys: seq<Item>)
    requires BareItems(xs) == BareItems(ys) && ItemsKept(ys)
    ensures ItemsKept(xs)
    decreases xs
  {
    hide Remains, Kept, Bare;
    if xs != [] {
      assert BareItems(xs)[0] == BareItems(ys)[0] && BareItems(xs)[1..] == BareItems(xs[1..]) && BareItems(ys)[1..] == BareItems(ys[1..]);
      SameKept(xs[0].value, ys[0].value);
      ItemsSameKept(xs[1..], ys[1..]);
    }
  }

  lemma {:induction false} FieldsSameKept(fs: seq<Field>, gs: seq<Field>)
    requires BareFields(fs) == BareFields(gs) && FieldsKept(gs)
    ensures FieldsKept(fs)
    decreases fs
  {
    hide Remains, Kept, Bare, Closed;
    if fs != [] {
      BareFirst(fs);
      BareFirst(gs);
      SameKept(fs[0].value, gs[0].value);
      FieldsSameKept(fs[1..], gs[1..]);
    }
  }

  /** Minifying what was printed, formatted or not, gives the unformatted text, whatever stands behind it. */
  lemma MinifiedPrint(t: Json, format: bool, token: real -> string, behind: string)
    requires Minifiable(t, token)
    ensures MinifiedText(Text(t, 0, format, token), behind) == Some(Text(t, 0, false, token))
  {
    hide *;
    var d := Printed(t, 0, format, token);
    PrintIsBare(t, 0, 0, format, token);
    PrintIsBare(t, 0, 0, false, token);
    SpellPrinted(t, 0, format, token);
    NoGap();
    assert "" + (Spell(d) + "") == Spell(d);
    CommentedPrint(t, "", d, "", token, behind);
  }
}

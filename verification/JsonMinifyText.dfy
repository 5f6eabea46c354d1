/** What minifying leaves of a text: its tokens, without the blanks and comments between them. */
module JsonMinifyText {

  import opened CStrings
  import opened JsonTree
  import opened JsonText
  import opened JsonStrings
  import opened JsonParser
  import opened JsonReading
  import opened JsonGrammar
  import opened JsonGrammarParse
  import opened JsonPrintParse
  import JsonMinify
  import opened Options
  import opened Sequences

  /** Over the next `n` characters of the text, `s` is what is left. */
  ghost predicate Yields(c: string, r: nat, n: nat, s: string) {
    r + n <= |c| && JsonMinify.Minified(c, r) == JsonMinify.Then(s, JsonMinify.Minified(c, r + n))
  }

  lemma YieldsBoth(c: string, r: nat, n: nat, s: string, m: nat, t: string)
    requires Yields(c, r, n, s) && Yields(c, r + n, m, t)
    ensures Yields(c, r, n + m, s + t)
  {
    JsonMinify.ThenTwice(s, t, JsonMinify.Minified(c, r + n + m));
  }

  lemma YieldsNothing(c: string, r: nat)
    requires r <= |c|
    ensures Yields(c, r, 0, "")
  {
    JsonMinify.NothingThen(JsonMinify.Minified(c, r));
  }

  predicate Plain(x: char) {
    !JsonMinify.IsSpace(x) && x != '/' && x != '"' && x != NUL
  }

  predicate AllPlain(s: string) {
    forall i :: 0 <= i < |s| ==> Plain(s[i])
  }

  predicate AllSpace(s: string) {
    forall i :: 0 <= i < |s| ==> JsonMinify.IsSpace(s[i])
  }

  lemma {:induction false} PlainKept(c: string, r: nat, s: string, rest: string)
    requires At(c, r, s, rest) && AllPlain(s)
    ensures Yields(c, r, |s|, s)
    decreases |s|
  {
    hide JsonMinify.Minified;
    if s == "" {
      YieldsNothing(c, r);
    } else {
      assert c[r] == c[r..][0] == s[0] && Plain(s[0]);
      assert c[r + 1..] == c[r..][1..] == s[1..] + rest;
      PlainKept(c, r + 1, s[1..], rest);
      JsonMinify.MinifiedStep(c, r);
      YieldsBoth(c, r, 1, [s[0]], |s| - 1, s[1..]);
      assert [s[0]] + s[1..] == s;
    }
  }

  lemma {:induction false} SpacesGone(c: string, r: nat, s: string, rest: string)
    requires At(c, r, s, rest) && AllSpace(s)
    ensures Yields(c, r, |s|, "")
    decreases |s|
  {
    hide JsonMinify.Minified;
    if s == "" {
      YieldsNothing(c, r);
    } else {
      assert c[r] == c[r..][0] == s[0] && JsonMinify.IsSpace(s[0]);
      assert c[r + 1..] == c[r..][1..] == s[1..] + rest;
      SpacesGone(c, r + 1, s[1..], rest);
      JsonMinify.MinifiedStep(c, r);
      JsonMinify.NothingThen(JsonMinify.Minified(c, r + 1));
      YieldsBoth(c, r, 1, "", |s| - 1, "");
    }
  }

  // ----- comments -----

  /** Two slashes and the rest of the line. */
  predicate LineComment(s: string) {
    && |s| >= 3 && s[0] == '/' && s[1] == '/' && s[|s| - 1] == '\n'
    && forall i :: 0 <= i < |s| - 1 ==> s[i] != '\n' && s[i] != NUL
  }

  /** From a slash and an asterisk to the first asterisk and slash; the asterisk in front may be the same, so that the
      shortest comment is a slash, an asterisk and a slash. */
  predicate BlockComment(s: string) {
    && |s| >= 3 && s[0] == '/' && s[1] == '*' && s[|s| - 2] == '*' && s[|s| - 1] == '/'
    && (forall i :: 0 <= i < |s| - 2 ==> !(s[i] == '*' && s[i + 1] == '/'))
    && NulFree(s)
  }

  /** Blanks and comments. */
  predicate Gap(s: string) {
    || s == ""
    || (JsonMinify.IsSpace(s[0]) && Gap(s[1..]))
    || exists k: nat | 3 <= k <= |s| :: (LineComment(s[..k]) || BlockComment(s[..k])) && Gap(s[k..])
  }

  lemma CharAt(c: string, r: nat, s: string, rest: string, i: nat)
    requires At(c, r, s, rest) && i < |s|
    ensures r + i < |c| && c[r + i] == s[i]
  {
    assert c[r + i] == c[r..][i];
  }

  lemma {:induction false} LineEndIs(c: string, r: nat, s: string, rest: string, i: nat)
    requires At(c, r, s, rest) && LineComment(s) && i < |s|
    ensures r + i < |c| && JsonMinify.LineEnd(c, r + i) == r + |s| - 1
    decreases |s| - i
  {
    CharAt(c, r, s, rest, i);
    if i < |s| - 1 { LineEndIs(c, r, s, rest, i + 1); }
  }

  lemma LineCommentGone(c: string, r: nat, s: string, rest: string)
    requires At(c, r, s, rest) && LineComment(s)
    ensures Yields(c, r, |s|, "")
  {
    hide JsonMinify.Minified, JsonMinify.LineEnd;
    CharAt(c, r, s, rest, 0);
    CharAt(c, r, s, rest, 1);
    CharAt(c, r, s, rest, |s| - 1);
    LineEndIs(c, r, s, rest, 0);
    JsonMinify.MinifiedStep(c, r);
    JsonMinify.MinifiedStep(c, r + |s| - 1);
    JsonMinify.NothingThen(JsonMinify.Minified(c, r + |s|));
  }

  lemma {:induction false} CommentEndIs(c: string, r: nat, s: string, rest: string, i: nat)
    requires At(c, r, s, rest) && BlockComment(s) && i <= |s| - 2
    ensures r + i < |c| && JsonMinify.CommentEnd(c, r + i) == r + |s| - 2
    decreases |s| - i
  {
    CharAt(c, r, s, rest, i);
    CharAt(c, r, s, rest, i + 1);
    if i < |s| - 2 { CommentEndIs(c, r, s, rest, i + 1); }
  }

  lemma BlockCommentGone(c: string, r: nat, s: string, rest: string)
    requires At(c, r, s, rest) && BlockComment(s)
    ensures Yields(c, r, |s|, "")
  {
    hide JsonMinify.Minified, JsonMinify.CommentEnd;
    CharAt(c, r, s, rest, 0);
    CharAt(c, r, s, rest, 1);
    CharAt(c, r, s, rest, |s| - 1);
    CommentEndIs(c, r, s, rest, 0);
    JsonMinify.MinifiedStep(c, r);
    JsonMinify.NothingThen(JsonMinify.Minified(c, r + |s|));
  }

  /** The first blank or comment of a gap. */
  lemma GapBegins(s: string) returns (k: nat)
    requires Gap(s) && s != ""
    ensures 1 <= k <= |s| && Gap(s[k..]) && s == s[..k] + s[k..] && (AllSpace(s[..k]) || LineComment(s[..k]) || BlockComment(s[..k]))
  {
    hide LineComment, BlockComment;
    if JsonMinify.IsSpace(s[0]) && Gap(s[1..]) {
      k := 1;
    } else {
      k :| 3 <= k <= |s| && (LineComment(s[..k]) || BlockComment(s[..k])) && Gap(s[k..]);
    }
  }

  lemma {:induction false} GapGone(c: string, r: nat, s: string, rest: string)
    requires At(c, r, s, rest) && Gap(s)
    ensures Yields(c, r, |s|, "")
    decreases |s|
  {
    hide *;
    if s == "" {
      YieldsNone(c, r, rest);
    } else {
      var k := GapBegins(s);
      Parts(c, r, s[..k], s[k..], rest);
      if AllSpace(s[..k]) {
        SpacesGone(c, r, s[..k], s[k..] + rest);
      } else if LineComment(s[..k]) {
        LineCommentGone(c, r, s[..k], s[k..] + rest);
      } else {
        BlockCommentGone(c, r, s[..k], s[k..] + rest);
      }
      GapGone(c, r + k, s[k..], rest);
      Both(c, r, s[..k], s[k..], "", "");
      assert "" + "" == "";
    }
  }

  /** A gap, or what the parser takes for blanks: any control characters. */
  predicate Loose(s: string) {
    Gap(s) || (Blank(s) && NulFree(s))
  }

  /** Only blanks, tabs, carriage returns and newlines go; other control characters stay. */
  function Squeezed(s: string): string {
    if s == "" then "" else if JsonMinify.IsSpace(s[0]) then Squeezed(s[1..]) else [s[0]] + Squeezed(s[1..])
  }

  /** What is left between two tokens. */
  function Remains(s: string): string {
    if Gap(s) then "" else Squeezed(s)
  }

  lemma {:induction false} SqueezedLeft(c: string, r: nat, s: string, rest: string)
    requires At(c, r, s, rest) && Blank(s) && NulFree(s)
    ensures Yields(c, r, |s|, Squeezed(s))
    decreases |s|
  {
    hide JsonMinify.Minified, Yields, At;
    if s == "" {
      YieldsNone(c, r, rest);
    } else {
      assert s == [s[0]] + s[1..];
      Parts(c, r, [s[0]], s[1..], rest);
      SqueezedLeft(c, r + 1, s[1..], rest);
      if JsonMinify.IsSpace(s[0]) {
        SpacesGone(c, r, [s[0]], s[1..] + rest);
        Both(c, r, [s[0]], s[1..], "", Squeezed(s[1..]));
        assert "" + Squeezed(s[1..]) == Squeezed(s[1..]);
      } else {
        assert IsBlank(s[0]) && s[0] != NUL;
        PlainKept(c, r, [s[0]], s[1..] + rest);
        Both(c, r, [s[0]], s[1..], [s[0]], Squeezed(s[1..]));
      }
    }
  }

  lemma GapLeft(c: string, r: nat, s: string, rest: string)
    requires At(c, r, s, rest) && Loose(s)
    ensures Yields(c, r, |s|, Remains(s))
  {
    hide Yields, At, Gap, Squeezed, Blank;
    if Gap(s) { GapGone(c, r, s, rest); } else { SqueezedLeft(c, r, s, rest); }
  }

  lemma {:induction false} RemainsIsBlank(s: string)
    requires Loose(s)
    ensures Blank(Remains(s)) && NulFree(Remains(s))
  {
    if !Gap(s) { SqueezedIsBlank(s); }
  }

  lemma {:induction false} SqueezedIsBlank(s: string)
    requires Blank(s) && NulFree(s)
    ensures Blank(Squeezed(s)) && NulFree(Squeezed(s))
    decreases |s|
  {
    if s != "" { SqueezedIsBlank(s[1..]); }
  }

  // ----- tokens -----

  /** A string body in which every quotation mark is escaped. */
  predicate Closed(body: string) {
    if body == "" then true
    else if body[0] == '\\' then |body| >= 2 && Closed(body[2..])
    else body[0] != '"' && body[0] != NUL && Closed(body[1..])
  }

  /** One character or one escape of a closed body. */
  lemma ClosedStep(body: string) returns (n: nat)
    requires Closed(body) && body != ""
    ensures n == (if body[0] == '\\' then 2 else 1) <= |body| && body == body[..n] + body[n..]
    ensures Closed(body[n..]) && body[0] != '"' && body[0] != NUL
  {
    n := if body[0] == '\\' then 2 else 1;
  }

  lemma QuoteFound(c: string, p: nat, rest: string)
    requires At(c, p, "", "\"" + rest)
    ensures p < |c| && JsonMinify.StringEnd(c, p) == p
  {
    assert "" + ("\"" + rest) == "\"" + rest;
    assert c[p] == c[p..][0] == '"';
  }

  lemma {:induction false} StringEndFound(c: string, p: nat, body: string, rest: string)
    requires At(c, p, body, "\"" + rest) && Closed(body)
    ensures p + |body| < |c| && JsonMinify.StringEnd(c, p) == p + |body|
    decreases |body|
  {
    hide *;
    if body == "" {
      QuoteFound(c, p, rest);
    } else {
      CharAt(c, p, body, "\"" + rest, 0);
      var n := ClosedStep(body);
      Parts(c, p, body[..n], body[n..], "\"" + rest);
      StringEndFound(c, p + n, body[n..], rest);
      JsonMinify.StringEndStep(c, p);
    }
  }

  lemma QuotedKept(c: string, r: nat, body: string, rest: string)
    requires At(c, r, InQuotes(body), rest) && Closed(body)
    ensures Yields(c, r, |body| + 2, InQuotes(body))
  {
    hide JsonMinify.Minified, JsonMinify.StringEnd, Closed, At;
    var q := InQuotes(body);
    CharAt(c, r, q, rest, 0);
    assert q == "\"" + (body + "\"");
    Parts(c, r, "\"", body + "\"", rest);
    Regroup(c, r + 1, body, "\"", rest);
    StringEndFound(c, r + 1, body, rest);
    Next(c, r, q, rest);
    StringYields(c, r, q);
  }

  lemma StringYields(c: string, r: nat, q: string)
    requires Reads(c, r, q) && |q| >= 2 && c[r] == '"' && JsonMinify.StringEnd(c, r + 1) == r + |q| - 1
    ensures Yields(c, r, |q|, q)
  {
    hide JsonMinify.Minified, JsonMinify.StringEnd;
    JsonMinify.MinifiedStep(c, r);
  }

  /** Words and numbers without blanks, slashes and quotation marks, and strings that are closed. */
  predicate Kept(d: Doc) {
    match d
    case Word(w) => AllPlain(w)
    case Numeral(s) => AllPlain(s)
    case Quoted(body) => Closed(body)
    case Items(_, xs) => ItemsKept(xs)
    case Fields(_, fs) => FieldsKept(fs)
  }

  predicate ItemsKept(xs: seq<Item>) {
    xs != [] ==> Kept(xs[0].value) && ItemsKept(xs[1..])
  }

  predicate FieldsKept(fs: seq<Field>) {
    fs != [] ==> Closed(fs[0].key) && Kept(fs[0].value) && FieldsKept(fs[1..])
  }

  /** The tree with what is left between its tokens. */
  function Bare(d: Doc): Doc {
    match d
    case Items(open, xs) => Items(Remains(open), BareItems(xs))
    case Fields(open, fs) => Fields(Remains(open), BareFields(fs))
    case _ => d
  }

  function BareItems(xs: seq<Item>): (r: seq<Item>)
    ensures |r| == |xs|
  {
    if xs == [] then [] else [Item(Remains(xs[0].front), Bare(xs[0].value), Remains(xs[0].behind))] + BareItems(xs[1..])
  }

  function BareFields(fs: seq<Field>): (r: seq<Field>)
    ensures |r| == |fs|
  {
    if fs == [] then []
    else
      [Field(Remains(fs[0].front), fs[0].key, Remains(fs[0].left), Remains(fs[0].right), Bare(fs[0].value), Remains(fs[0].behind))]
      + BareFields(fs[1..])
  }

  // ----- whole trees -----

  lemma MarkKept(c: string, r: nat, mark: char, rest: string)
    requires At(c, r, [mark], rest) && mark in "[]{}:,"
    ensures Yields(c, r, 1, [mark])
  {
    hide Yields;
    PlainKept(c, r, [mark], rest);
  }

  /** Two neighbouring parts of the text, and what they yield. */
  lemma Both(c: string, r: nat, a: string, b: string, s: string, t: string)
    requires Yields(c, r, |a|, s) && Yields(c, r + |a|, |b|, t)
    ensures Yields(c, r, |a + b|, s + t)
  {
    hide Yields;
    YieldsBoth(c, r, |a|, s, |b|, t);
  }

  lemma {:induction false} DocMinified(d: Doc, c: string, r: nat, rest: string)
    requires At(c, r, Spell(d), rest) && Spaced(d, Loose) && Kept(d)
    ensures Yields(c, r, |Spell(d)|, Spell(Bare(d)))
    decreases d, 0
  {
    hide Yields, SpellItems, SpellFields, ItemsKept, FieldsKept, ItemsSpaced, FieldsSpaced, BareItems, BareFields, Closed, Remains, Loose, At;
    match d
    case Word(w) => PlainKept(c, r, w, rest);
    case Numeral(s) => PlainKept(c, r, s, rest);
    case Quoted(body) => QuotedKept(c, r, body, rest);
    case Items(open, xs) =>
      if xs == [] {
        InsideAt(c, r, '[', open, ']', rest);
        GapLeft(c, r + 1, open, "]" + rest);
        EnclosedMinified(c, r, '[', open, ']', rest, Remains(open));
      } else {
        var inside := SpellItems(xs);
        InsideAt(c, r, '[', inside, ']', rest);
        ItemsMinified(xs, c, r + 1, "]" + rest);
        EnclosedMinified(c, r, '[', inside, ']', rest, SpellItems(BareItems(xs)));
      }
    case Fields(open, fs) =>
      if fs == [] {
        InsideAt(c, r, '{', open, '}', rest);
        GapLeft(c, r + 1, open, "}" + rest);
        EnclosedMinified(c, r, '{', open, '}', rest, Remains(open));
      } else {
        var inside := SpellFields(fs);
        InsideAt(c, r, '{', inside, '}', rest);
        FieldsMinified(fs, c, r + 1, "}" + rest);
        EnclosedMinified(c, r, '{', inside, '}', rest, SpellFields(BareFields(fs)));
      }
  }

  lemma InsideAt(c: string, r: nat, open: char, inside: string, close: char, rest: string)
    requires At(c, r, [open] + (inside + [close]), rest)
    ensures At(c, r, [open], inside + [close] + rest) && At(c, r + 1, inside, [close] + rest) && At(c, r + 1 + |inside|, [close], rest)
  {
    hide At;
    Parts(c, r, [open], inside + [close], rest);
    Parts(c, r + 1, inside, [close], rest);
  }

  lemma EnclosedMinified(c: string, r: nat, open: char, inside: string, close: char, rest: string, short: string)
    requires At(c, r, [open] + (inside + [close]), rest) && open in "[{" && close in "]}"
    requires Yields(c, r + 1, |inside|, short)
    ensures Yields(c, r, |[open] + (inside + [close])|, [open] + (short + [close]))
  {
    hide At, Yields, Loose, Remains;
    InsideAt(c, r, open, inside, close, rest);
    MarkKept(c, r, open, inside + [close] + rest);
    MarkKept(c, r + 1 + |inside|, close, rest);
    Both(c, r + 1, inside, [close], short, [close]);
    Both(c, r, [open], inside + [close], [open], short + [close]);
  }

  lemma {:induction false} ItemsMinified(xs: seq<Item>, c: string, r: nat, rest: string)
    requires xs != [] && At(c, r, SpellItems(xs), rest) && ItemsSpaced(xs, Loose) && ItemsKept(xs)
    ensures Yields(c, r, |SpellItems(xs)|, SpellItems(BareItems(xs)))
    decreases xs, 1
  {
    hide Yields, Spell, Spaced, Kept, Bare, Loose, Remains, At, SpellItems, BareItems;
    var x := xs[0];
    var s, more := Spell(x.value), if |xs| == 1 then "" else [','] + SpellItems(xs[1..]);
    var t, less := Spell(Bare(x.value)), if |xs| == 1 then "" else [','] + SpellItems(BareItems(xs[1..]));
    ItemsSpell(xs);
    Parts(c, r, x.front, s + (x.behind + more), rest);
    Parts(c, r + |x.front|, s, x.behind + more, rest);
    Parts(c, r + |x.front| + |s|, x.behind, more, rest);
    GapLeft(c, r, x.front, s + (x.behind + more) + rest);
    DocMinified(x.value, c, r + |x.front|, x.behind + more + rest);
    var e := r + |x.front| + |s| + |x.behind|;
    GapLeft(c, e - |x.behind|, x.behind, more + rest);
    if |xs| == 1 {
      YieldsNone(c, e, rest);
    } else {
      Parts(c, e, [','], SpellItems(xs[1..]), rest);
      MarkKept(c, e, ',', SpellItems(xs[1..]) + rest);
      ItemsMinified(xs[1..], c, e + 1, rest);
      Both(c, e, [','], SpellItems(xs[1..]), [','], SpellItems(BareItems(xs[1..])));
    }
    Both(c, e - |x.behind|, x.behind, more, Remains(x.behind), less);
    Both(c, r + |x.front|, s, x.behind + more, t, Remains(x.behind) + less);
    Both(c, r, x.front, s + (x.behind + more), Remains(x.front), t + (Remains(x.behind) + less));
  }

  lemma YieldsNone(c: string, r: nat, rest: string)
    requires At(c, r, "", rest)
    ensures Yields(c, r, 0, "")
  {
    YieldsNothing(c, r);
  }

  /** The texts of the items, as they are and bare. */
  lemma ItemsSpell(xs: seq<Item>)
    requires xs != []
    ensures SpellItems(xs) == xs[0].front + (Spell(xs[0].value) + (xs[0].behind + if |xs| == 1 then "" else [','] + SpellItems(xs[1..])))
    ensures SpellItems(BareItems(xs)) == Remains(xs[0].front) + (Spell(Bare(xs[0].value)) + (Remains(xs[0].behind) + if |xs| == 1 then "" else [','] + SpellItems(BareItems(xs[1..]))))
  {
    hide Spell, Bare, Remains;
    assert BareItems(xs)[1..] == BareItems(xs[1..]);
  }

  lemma {:induction false} FieldsMinified(fs: seq<Field>, c: string, r: nat, rest: string)
    requires fs != [] && At(c, r, SpellFields(fs), rest) && FieldsSpaced(fs, Loose) && FieldsKept(fs)
    ensures Yields(c, r, |SpellFields(fs)|, SpellFields(BareFields(fs)))
    decreases fs, 1
  {
    hide *;
    var f := fs[0];
    var tail := BehindFirst(fs);
    FieldsSpell(fs);
    FirstKept(fs);
    Parts(c, r, f.front, InQuotes(f.key) + BehindKey(fs), rest);
    GapLeft(c, r, f.front, InQuotes(f.key) + BehindKey(fs) + rest);
    var q := r + |f.front|;
    Parts(c, q, InQuotes(f.key), BehindKey(fs), rest);
    QuotedKept(c, q, f.key, BehindKey(fs) + rest);
    var k := q + |InQuotes(f.key)|;
    ValueMinified(fs, c, k, rest);
    Both(c, q, InQuotes(f.key), BehindKey(fs), InQuotes(f.key), BehindKey(BareFields(fs)));
    Both(c, r, f.front, InQuotes(f.key) + BehindKey(fs), Remains(f.front), InQuotes(f.key) + BehindKey(BareFields(fs)));
  }

  lemma FirstKept(fs: seq<Field>)
    requires fs != [] && FieldsSpaced(fs, Loose) && FieldsKept(fs)
    ensures var f := fs[0];
      && Loose(f.front) && Loose(f.left) && Loose(f.right) && Loose(f.behind) && Closed(f.key) && Spaced(f.value, Loose) && Kept(f.value)
      && FieldsSpaced(fs[1..], Loose) && FieldsKept(fs[1..]) && |InQuotes(f.key)| == |f.key| + 2
  {
    hide Loose, Closed, Spaced, Kept;
  }

  /** What follows the key of the first field. */
  lemma {:induction false} ValueMinified(fs: seq<Field>, c: string, k: nat, rest: string)
    requires fs != [] && At(c, k, BehindKey(fs), rest) && FieldsSpaced(fs, Loose) && FieldsKept(fs)
    ensures Yields(c, k, |BehindKey(fs)|, BehindKey(BareFields(fs)))
    decreases fs, 0
  {
    hide *;
    var f := fs[0];
    var s, t, tail, short := Spell(f.value), Spell(Bare(f.value)), BehindFirst(fs), BehindFirst(BareFields(fs));
    FieldsSpell(fs);
    FirstKept(fs);
    Parts(c, k, f.left, [':'] + (f.right + (s + tail)), rest);
    var colon := k + |f.left|;
    Parts(c, colon, [':'], f.right + (s + tail), rest);
    Parts(c, colon + 1, f.right, s + tail, rest);
    var v := colon + 1 + |f.right|;
    Parts(c, v, s, tail, rest);
    GapLeft(c, k, f.left, [':'] + (f.right + (s + tail)) + rest);
    MarkKept(c, colon, ':', f.right + (s + tail) + rest);
    GapLeft(c, colon + 1, f.right, s + tail + rest);
    DocMinified(f.value, c, v, tail + rest);
    TailMinified(fs, c, v + |s|, rest);
    Both(c, v, s, tail, t, short);
    Both(c, colon + 1, f.right, s + tail, Remains(f.right), t + short);
    Both(c, colon, [':'], f.right + (s + tail), [':'], Remains(f.right) + (t + short));
    Both(c, k, f.left, [':'] + (f.right + (s + tail)), Remains(f.left), [':'] + (Remains(f.right) + (t + short)));
  }

  /** What follows the value of the first field. */
  lemma {:induction false} TailMinified(fs: seq<Field>, c: string, q: nat, rest: string)
    requires fs != [] && At(c, q, BehindFirst(fs), rest) && FieldsSpaced(fs, Loose) && FieldsKept(fs)
    ensures Yields(c, q, |BehindFirst(fs)|, BehindFirst(BareFields(fs)))
    decreases fs[1..], 2
  {
    hide *;
    var f := fs[0];
    var more, less := if |fs| == 1 then "" else [','] + SpellFields(fs[1..]), if |fs| == 1 then "" else [','] + SpellFields(BareFields(fs[1..]));
    FieldsSpell(fs);
    FirstKept(fs);
    Parts(c, q, f.behind, more, rest);
    GapLeft(c, q, f.behind, more + rest);
    var e := q + |f.behind|;
    if |fs| == 1 {
      YieldsNone(c, e, rest);
    } else {
      Parts(c, e, [','], SpellFields(fs[1..]), rest);
      MarkKept(c, e, ',', SpellFields(fs[1..]) + rest);
      FieldsMinified(fs[1..], c, e + 1, rest);
      Both(c, e, [','], SpellFields(fs[1..]), [','], SpellFields(BareFields(fs[1..])));
    }
    Both(c, q, f.behind, more, Remains(f.behind), less);
  }

  /** The texts of the fields, as they are and bare. */
  lemma FieldsSpell(fs: seq<Field>)
    requires fs != []
    ensures var f, bare := fs[0], BareFields(fs);
      && SpellFields(fs) == f.front + (InQuotes(f.key) + BehindKey(fs))
      && BehindKey(fs) == f.left + ([':'] + (f.right + (Spell(f.value) + BehindFirst(fs))))
      && BehindFirst(fs) == f.behind + (if |fs| == 1 then "" else [','] + SpellFields(fs[1..]))
      && bare != [] && SpellFields(bare) == Remains(f.front) + (InQuotes(f.key) + BehindKey(bare))
      && BehindKey(bare) == Remains(f.left) + ([':'] + (Remains(f.right) + (Spell(Bare(f.value)) + BehindFirst(bare))))
      && BehindFirst(bare) == Remains(f.behind) + (if |fs| == 1 then "" else [','] + SpellFields(BareFields(fs[1..])))
  {
    hide Spell, Bare, InQuotes, BareFields, SpellFields, BehindKey, BehindFirst;
    FieldsSpellOne(fs);
    BareFirst(fs);
    FieldsSpellOne(BareFields(fs));
  }

  lemma FieldsSpellOne(fs: seq<Field>)
    requires fs != []
    ensures SpellFields(fs) == fs[0].front + (InQuotes(fs[0].key) + BehindKey(fs))
    ensures BehindKey(fs) == fs[0].left + ([':'] + (fs[0].right + (Spell(fs[0].value) + BehindFirst(fs))))
    ensures BehindFirst(fs) == fs[0].behind + (if |fs| == 1 then "" else [','] + SpellFields(fs[1..]))
  {
    hide Spell;
  }

  lemma BareFirst(fs: seq<Field>)
    requires fs != []
    ensures BareFields(fs)[0] == Field(Remains(fs[0].front), fs[0].key, Remains(fs[0].left), Remains(fs[0].right), Bare(fs[0].value), Remains(fs[0].behind)) && BareFields(fs)[1..] == BareFields(fs[1..])
  {
    hide Bare, Remains;
  }

  // ----- one comment -----

  lemma YieldsNothingInFront(s: string, rest: string)
    requires Yields(s + rest, 0, |s|, "")
    ensures JsonMinify.Minified(s + rest, 0) == JsonMinify.Minified(rest, 0)
  {
    hide JsonMinify.Minified;
    JsonMinify.InFrontIsNothing(s, rest, 0);
    JsonMinify.NothingThen(JsonMinify.Minified(rest, 0));
  }

  /** A line comment is what follows two slashes up to the end of the line, whatever stands in it. */
  lemma NothingOfLine(body: string, rest: string)
    requires forall i :: 0 <= i < |body| ==> body[i] != '\n' && body[i] != NUL
    ensures JsonMinify.Minified("//" + body + "\n" + rest, 0) == JsonMinify.Minified(rest, 0)
  {
    hide JsonMinify.Minified, Yields;
    var s := "//" + body + "\n";
    assert (s + rest)[0..] == s + rest;
    LineCommentGone(s + rest, 0, s, rest);
    YieldsNothingInFront(s, rest);
  }

  /** Without its last newline it is what is left of the text. */
  lemma NothingOfLastLine(body: string, behind: string)
    requires forall i :: 0 <= i < |body| ==> body[i] != '\n' && body[i] != NUL
    ensures JsonMinify.Minified("//" + body + [NUL] + behind, 0) == Some("")
  {
    hide JsonMinify.Minified, JsonMinify.LineEnd;
    var s, m := "//" + body, "//" + body + [NUL] + behind;
    assert m[..|s|] == s && m[|s|] == NUL;
    JsonMinify.MinifiedStep(m, 0);
    LineEndsAt(m, 0, |s|);
    JsonMinify.MinifiedEnd(m, |s|);
  }

  lemma {:induction false} LineEndsAt(m: string, p: nat, e: nat)
    requires p <= e < |m| && m[e] == NUL && forall i :: p <= i < e ==> m[i] != '\n' && m[i] != NUL
    ensures JsonMinify.LineEnd(m, p) == e
    decreases e - p
  {
    if p < e { LineEndsAt(m, p + 1, e); }
  }

  /** A block comment is what stands between its marks, if they are not in it and it does not begin with a slash. */
  lemma NothingOfBlock(body: string, rest: string)
    requires NulFree(body) && (body != "" ==> body[0] != '/')
    requires forall i :: 0 <= i < |body| - 1 ==> !(body[i] == '*' && body[i + 1] == '/')
    ensures JsonMinify.Minified("/*" + body + "*/" + rest, 0) == JsonMinify.Minified(rest, 0)
  {
    hide JsonMinify.Minified, Yields;
    var s := "/*" + body + "*/";
    assert BlockComment(s) by {
      forall i | 0 <= i < |s| - 2 ensures !(s[i] == '*' && s[i + 1] == '/') {
        if i >= 2 { assert s[i] == body[i - 2]; }
        if 2 <= i < |s| - 3 { assert s[i + 1] == body[i - 1]; }
      }
    }
    assert (s + rest)[0..] == s + rest;
    BlockCommentGone(s + rest, 0, s, rest);
    YieldsNothingInFront(s, rest);
  }

  /** A slash right behind the opening ends a block comment, as the asterisk in front of it is looked at, too. */
  lemma SlashEndsBlock(rest: string)
    ensures JsonMinify.Minified("/*/" + rest, 0) == JsonMinify.Minified(rest, 0)
  {
    hide JsonMinify.Minified, Yields;
    assert ("/*/" + rest)[0..] == "/*/" + rest;
    BlockCommentGone("/*/" + rest, 0, "/*/", rest);
    YieldsNothingInFront("/*/", rest);
  }

  // ----- whole texts -----

  /** Of a text with gaps around its tokens, the tokens are left, and what is left of the gaps. */
  lemma TokensAreLeft(front: string, d: Doc, end: string, behind: string)
    requires Loose(front) && Loose(end) && Spaced(d, Loose) && Kept(d)
    ensures JsonMinify.Minified(front + (Spell(d) + (end + ([NUL] + behind))), 0) == Some(Remains(front) + (Spell(Bare(d)) + Remains(end)))
  {
    hide *;
    var text, rest := Spell(d), [NUL] + behind;
    var m := front + (text + (end + rest));
    AtStart(m, front, text + (end + rest));
    GapLeft(m, 0, front, text + (end + rest));
    ThreeParts(m, front, text, end, rest);
    DocMinified(d, m, |front|, end + rest);
    GapLeft(m, |front| + |text|, end, rest);
    Both(m, |front|, text, end, Spell(Bare(d)), Remains(end));
    Both(m, 0, front, text + end, Remains(front), Spell(Bare(d)) + Remains(end));
    EndsThere(m, |front + (text + end)|, Remains(front) + (Spell(Bare(d)) + Remains(end)), behind);
  }

  lemma ThreeParts(m: string, a: string, b: string, c: string, rest: string)
    requires m == a + (b + (c + rest))
    ensures At(m, |a|, b, c + rest) && At(m, |a| + |b|, c, rest) && |a + (b + c)| <= |m| && m[|a + (b + c)|..] == rest
  {
    assert m[|a|..] == b + (c + rest);
    assert m[|a| + |b|..] == m[|a|..][|b|..] == c + rest;
    assert m[|a + (b + c)|..] == m[|a| + |b|..][|c|..] == rest;
  }

  lemma AtStart(m: string, a: string, b: string)
    requires m == a + b
    ensures At(m, 0, a, b)
  {
    assert m[0..] == m;
  }

  lemma EndsThere(m: string, n: nat, s: string, behind: string)
    requires Yields(m, 0, n, s) && n <= |m| && m[n..] == [NUL] + behind
    ensures JsonMinify.Minified(m, 0) == Some(s)
  {
    hide JsonMinify.Minified;
    assert m[n] == m[n..][0];
    JsonMinify.MinifiedEnd(m, n);
    assert s + "" == s;
  }
}

/** The texts that cJSON.c parses, as syntax trees: section 2 of RFC 8259 with what stands between the tokens. */
module JsonGrammar {

  import opened CStrings
  import opened JsonTree
  import opened JsonText
  import opened JsonStrings
  import opened JsonParser
  import opened JsonReading
  import opened Options
  import opened Sequences

  // ----- syntax trees -----

  datatype Doc =
    | Word(word: string)
    | Numeral(digits: string)
    | Quoted(body: string)
    | Items(open: string, xs: seq<Item>)
    | Fields(open: string, fs: seq<Field>)

  /** An item with what stands in front of it and behind it. */
  datatype Item = Item(front: string, value: Doc, behind: string)

  /** A key, a colon and a value, and what stands around them. */
  datatype Field = Field(front: string, key: string, left: string, right: string, value: Doc, behind: string)

  function Spell(d: Doc): string {
    match d
    case Word(w) => w
    case Numeral(s) => s
    case Quoted(body) => InQuotes(body)
    case Items(open, xs) => "[" + ((if xs == [] then open else SpellItems(xs)) + "]")
    case Fields(open, fs) => "{" + ((if fs == [] then open else SpellFields(fs)) + "}")
  }

  function InQuotes(body: string): string {
    "\"" + body + "\""
  }

  function SpellItems(xs: seq<Item>): string {
    if xs == [] then ""
    else xs[0].front + (Spell(xs[0].value) + (xs[0].behind + if |xs| == 1 then "" else "," + SpellItems(xs[1..])))
  }

  function SpellFields(fs: seq<Field>): string {
    if fs == [] then ""
    else
      var f := fs[0];
      f.front + (InQuotes(f.key) + (f.left + (":" + (f.right + (Spell(f.value) + (f.behind
      + if |fs| == 1 then "" else "," + SpellFields(fs[1..])))))))
  }

  /** Whatever stands between the tokens is of one kind. */
  predicate Spaced(d: Doc, gap: string -> bool) {
    match d
    case Items(open, xs) => (xs == [] ==> gap(open)) && ItemsSpaced(xs, gap)
    case Fields(open, fs) => (fs == [] ==> gap(open)) && FieldsSpaced(fs, gap)
    case _ => true
  }

  predicate ItemsSpaced(xs: seq<Item>, gap: string -> bool) {
    xs != [] ==> gap(xs[0].front) && gap(xs[0].behind) && Spaced(xs[0].value, gap) && ItemsSpaced(xs[1..], gap)
  }

  predicate FieldsSpaced(fs: seq<Field>, gap: string -> bool) {
    fs != [] ==>
      && gap(fs[0].front) && gap(fs[0].left) && gap(fs[0].right) && gap(fs[0].behind)
      && Spaced(fs[0].value, gap) && FieldsSpaced(fs[1..], gap)
  }

  // ----- which of them are taken, and for what -----

  /** What a string body stands for, if it is one: between quotation marks it is read to its end. */
  function Stands(body: string): Option<string> {
    var (s, end) := StringAt(InQuotes(body), 0);
    if end == |body| + 2 then s else None
  }

  /** A run of at most 63 characters that the scanner takes whole. */
  predicate IsNumeral(s: string, scan: Scanner) {
    && s != "" && |s| <= 63 && (s[0] == '-' || '0' <= s[0] <= '9')
    && (forall i :: 0 <= i < |s| ==> s[i] in "+-.0123456789Ee")
    && scan(s).Some? && scan(s).value.1 == |s|
  }

  predicate Proper(d: Doc, levels: nat, scan: Scanner) {
    match d
    case Word(w) => w == "null" || w == "true" || w == "false"
    case Numeral(s) => IsNumeral(s, scan)
    case Quoted(body) => Stands(body).Some?
    case Items(_, xs) => levels > 0 && ItemsProper(xs, levels - 1, scan)
    case Fields(_, fs) => levels > 0 && FieldsProper(fs, levels - 1, scan)
  }

  predicate ItemsProper(xs: seq<Item>, levels: nat, scan: Scanner) {
    xs != [] ==> Proper(xs[0].value, levels, scan) && ItemsProper(xs[1..], levels, scan)
  }

  predicate FieldsProper(fs: seq<Field>, levels: nat, scan: Scanner) {
    fs != [] ==> Stands(fs[0].key).Some? && Proper(fs[0].value, levels, scan) && FieldsProper(fs[1..], levels, scan)
  }

  /** What a proper tree stands for. */
  function Mean(d: Doc, scan: Scanner): Json {
    match d
    case Word(w) => if w == "null" then Null else if w == "true" then True else False
    case Numeral(s) => Number(Saturate(Scanned(s, scan)), Scanned(s, scan))
    case Quoted(body) => String(Stood(body))
    case Items(_, xs) => Array(MeanItems(xs, scan))
    case Fields(_, fs) => Object(MeanFields(fs, scan))
  }

  function Scanned(s: string, scan: Scanner): real {
    if scan(s).Some? then scan(s).value.0 else 0.0
  }

  function Stood(body: string): string {
    if Stands(body).Some? then Stands(body).value else ""
  }

  function MeanItems(xs: seq<Item>, scan: Scanner): seq<Json> {
    if xs == [] then [] else [Mean(xs[0].value, scan)] + MeanItems(xs[1..], scan)
  }

  function MeanFields(fs: seq<Field>, scan: Scanner): seq<Member> {
    if fs == [] then [] else [Member(Stood(fs[0].key), Mean(fs[0].value, scan))] + MeanFields(fs[1..], scan)
  }

  // ----- a string body stands for the same wherever it stands -----

  /** The contents read the same from `o` to `e` and from `p` to `f`. */
  predicate Alike(c: string, o: nat, e: nat, d: string, p: nat, f: nat) {
    o <= e <= |c| && p <= f <= |d| && c[o..e] == d[p..f]
  }

  lemma AlikeBehind(c: string, o: nat, e: nat, d: string, p: nat, f: nat, k: nat)
    requires Alike(c, o, e, d, p, f) && o + k <= e
    ensures e - o == f - p && e <= |c| && f <= |d|
    ensures Alike(c, o + k, e, d, p + k, f) && (o + k < e ==> c[o + k] == d[p + k])
  {
    assert |c[o..e]| == e - o && |d[p..f]| == f - p;
    assert c[o + k..e] == c[o..e][k..] && d[p + k..f] == d[p..f][k..];
    if o + k < e { assert c[o + k] == c[o..e][k] && d[p + k] == d[p..f][k]; }
  }

  lemma AlikeInside(c: string, o: nat, e: nat, d: string, p: nat, f: nat, i: nat, n: nat)
    requires Alike(c, o, e, d, p, f) && o + i + n <= e
    ensures e - o == f - p && e <= |c| && f <= |d| && c[o + i..o + i + n] == d[p + i..p + i + n]
  {
    AlikeBehind(c, o, e, d, p, f, i);
    FrontOf(c, o + i, e, n);
    FrontOf(d, p + i, f, n);
  }

  lemma FrontOf(c: string, a: nat, e: nat, n: nat)
    requires a + n <= e <= |c|
    ensures c[a..e][..n] == c[a..a + n]
  {
  }

  /** The closing quotation mark that the first pass finds, one character or escape further on. */
  lemma ClosingStep(c: string, o: nat)
    requires o <= |c|
    ensures o < |c| && c[o] == '"' ==> Closing(c, o) == Some(Measure(o, 0))
    ensures o + 1 < |c| && c[o] == '\\' ==>
      (Closing(c, o).Some? <==> Closing(c, o + 2).Some?)
      && (Closing(c, o).Some? ==> Closing(c, o).value.end == Closing(c, o + 2).value.end)
    ensures o < |c| && c[o] != '"' && c[o] != '\\' ==> Closing(c, o) == Closing(c, o + 1)
    ensures o == |c| || (o + 1 == |c| && c[o] == '\\') ==> Closing(c, o) == None
  {
  }

  lemma {:induction false} ClosingMoved(c: string, o: nat, e: nat, d: string, p: nat, f: nat)
    requires Alike(c, o, e + 1, d, p, f + 1) && o <= e < |c|
    requires Closing(c, o).Some? && Closing(c, o).value.end == e
    ensures p <= |d| && Closing(d, p).Some? && Closing(d, p).value.end == f
    decreases e - o
  {
    hide Alike, Closing;
    AlikeBehind(c, o, e + 1, d, p, f + 1, 0);
    ClosingStep(c, o);
    ClosingStep(d, p);
    if c[o] == '\\' {
      AlikeBehind(c, o, e + 1, d, p, f + 1, 2);
      ClosingMoved(c, o + 2, e, d, p + 2, f);
    } else if c[o] != '"' {
      AlikeBehind(c, o, e + 1, d, p, f + 1, 1);
      ClosingMoved(c, o + 1, e, d, p + 1, f);
    }
  }

  lemma Utf16Moved(c: string, o: nat, e: nat, d: string, p: nat, f: nat)
    requires Alike(c, o, e + 1, d, p, f + 1) && o <= e < |c|
    ensures p <= f < |d| && Utf16(c, o, e) == Utf16(d, p, f)
  {
    hide Utf16, Alike;
    AlikeBehind(c, o, e + 1, d, p, f + 1, 0);
    if o + 6 <= e { AlikeInside(c, o, e + 1, d, p, f + 1, 2, 4); }
    if o + 12 <= e {
      AlikeBehind(c, o, e + 1, d, p, f + 1, 6);
      AlikeBehind(c, o, e + 1, d, p, f + 1, 7);
      AlikeInside(c, o, e + 1, d, p, f + 1, 8, 4);
    }
    Utf16Same(c, o, e, d, p, f);
  }

  lemma Utf16Same(c: string, o: nat, e: nat, d: string, p: nat, f: nat)
    requires o <= e < |c| && p <= f < |d| && e - o == f - p
    requires o + 6 <= e ==> c[o + 2..o + 6] == d[p + 2..p + 6]
    requires o + 12 <= e ==> c[o + 6] == d[p + 6] && c[o + 7] == d[p + 7] && c[o + 8..o + 12] == d[p + 8..p + 12]
    ensures Utf16(c, o, e) == Utf16(d, p, f)
  {
    hide Hex4;
  }

  /** The second pass gives the same text, so much further on. */
  predicate Moved(c: string, o: nat, e: nat, d: string, p: nat, f: nat)
    requires e < |c| && o <= e + 1 && f < |d| && p <= f + 1
  {
    var (r, q) := Unescape(c, o, e);
    q >= o && Unescape(d, p, f) == (r, q - o + p)
  }

  lemma MovedStep(c: string, o: nat, e: nat, d: string, p: nat, f: nat, k: nat, s: string)
    requires e < |c| && o + k <= e + 1 && f < |d| && p + k <= f + 1 && Moved(c, o + k, e, d, p + k, f)
    requires Unescape(c, o, e) == Prefixed(s, Unescape(c, o + k, e)) && Unescape(d, p, f) == Prefixed(s, Unescape(d, p + k, f))
    ensures Moved(c, o, e, d, p, f)
  {
    hide Unescape;
  }

  lemma MovedNone(c: string, o: nat, e: nat, d: string, p: nat, f: nat)
    requires e < |c| && o <= e + 1 && f < |d| && p <= f + 1
    requires Unescape(c, o, e).0 == Unescape(d, p, f).0 && Unescape(c, o, e).1 == o && Unescape(d, p, f).1 == p
    ensures Moved(c, o, e, d, p, f)
  {
    hide Unescape;
  }

  lemma {:induction false} UnescapeMoved(c: string, o: nat, e: nat, d: string, p: nat, f: nat)
    requires Alike(c, o, e + 1, d, p, f + 1)
    ensures e < |c| && o <= e + 1 && f < |d| && p <= f + 1 && Moved(c, o, e, d, p, f)
    decreases e + 1 - o, 1
  {
    hide Unescape, Utf16, Utf8, Alike, Moved;
    assert o <= e + 1 <= |c| && p <= f + 1 <= |d| by { AlikeBounds(c, o, e + 1, d, p, f + 1); }
    AlikeBehind(c, o, e + 1, d, p, f + 1, 0);
    if o >= e {
      UnescapeEnd(c, o, e);
      UnescapeEnd(d, p, f);
      MovedNone(c, o, e, d, p, f);
    } else {
      AlikeBehind(c, o, e + 1, d, p, f + 1, 1);
      UnescapeStep(c, o, e);
      UnescapeStep(d, p, f);
      if c[o] != '\\' {
        UnescapeMoved(c, o + 1, e, d, p + 1, f);
        MovedStep(c, o, e, d, p, f, 1, [c[o]]);
      } else if c[o + 1] == 'u' {
        UnitMoved(c, o, e, d, p, f);
      } else if Unletter(c[o + 1]) == NUL {
        MovedNone(c, o, e, d, p, f);
      } else {
        AlikeBehind(c, o, e + 1, d, p, f + 1, 2);
        UnescapeMoved(c, o + 2, e, d, p + 2, f);
        MovedStep(c, o, e, d, p, f, 2, [Unletter(c[o + 1])]);
      }
    }
  }

  lemma {:induction false} UnitMoved(c: string, o: nat, e: nat, d: string, p: nat, f: nat)
    requires Alike(c, o, e + 1, d, p, f + 1) && o < e < |c| && p < f < |d|
    requires c[o] == '\\' && c[o + 1] == 'u' && d[p] == '\\' && d[p + 1] == 'u'
    ensures Moved(c, o, e, d, p, f)
    decreases e + 1 - o, 0
  {
    hide Unescape, Utf16, Utf8, Alike, Moved;
    UnescapeStep(c, o, e);
    UnescapeStep(d, p, f);
    Utf16Moved(c, o, e, d, p, f);
    var l := Utf16(c, o, e);
    if l.None? {
      MovedNone(c, o, e, d, p, f);
    } else {
      AlikeBehind(c, o, e + 1, d, p, f + 1, l.value.length);
      UnescapeMoved(c, o + l.value.length, e, d, p + l.value.length, f);
      MovedStep(c, o, e, d, p, f, l.value.length, Utf8(l.value.codepoint));
    }
  }

  lemma AlikeBounds(c: string, o: nat, e: nat, d: string, p: nat, f: nat)
    requires Alike(c, o, e, d, p, f)
    ensures o <= e <= |c| && p <= f <= |d|
  {
  }

  /** A literal is read in the same way in two contents. */
  lemma StringMoved(c: string, o: nat, e: nat, d: string, p: nat, f: nat)
    requires Alike(c, o, e, d, p, f) && o < e
    requires StringAt(c, o).0.Some? && StringAt(c, o).1 == e
    ensures p < |d| && StringAt(d, p) == (StringAt(c, o).0, f)
  {
    hide Closing, Unescape, CString, Alike;
    AlikeBounds(c, o, e, d, p, f);
    AlikeBehind(c, o, e, d, p, f, 0);
    AlikeBehind(c, o, e, d, p, f, 1);
    ClosingMoved(c, o + 1, e - 1, d, p + 1, f - 1);
    UnescapeMoved(c, o + 1, e - 1, d, p + 1, f - 1);
  }

  lemma BodyParses(c: string, o: nat, body: string, rest: string)
    requires At(c, o, InQuotes(body), rest) && Stands(body).Some?
    ensures o + |body| + 2 <= |c| && c[o] == '"' && StringAt(c, o) == (Some(Stood(body)), o + |body| + 2)
  {
    hide StringAt;
    var q := InQuotes(body);
    Next(c, o, q, rest);
    assert q[0..|q|] == q && c[o..o + |q|] == q;
    assert c[o] == c[o..o + |q|][0];
    StringMoved(q, 0, |q|, c, o, o + |q|);
  }

  lemma BodySpelled(c: string, o: nat)
    requires o < |c| && StringAt(c, o).0.Some?
    ensures var e := StringAt(c, o).1;
      o + 2 <= e <= |c| && c[o..e] == InQuotes(c[o + 1..e - 1]) && Stands(c[o + 1..e - 1]) == StringAt(c, o).0
  {
    hide Closing, Unescape, CString;
    var e := StringAt(c, o).1;
    var q := InQuotes(c[o + 1..e - 1]);
    assert c[o..e] == q && q[0..|q|] == q;
    StringMoved(c, o, e, q, 0, |q|);
  }
}

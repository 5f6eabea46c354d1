/** Parsing what was printed gives the same tree back, in both formats. */
module JsonPrintParse {

  import opened CStrings
  import opened JsonTree
  import opened JsonText
  import opened JsonStrings
  import opened JsonParser
  import opened JsonReading
  import opened JsonGrammar
  import opened JsonGrammarParse
  import opened JsonGrammarSpelt
  import opened Options
  import opened Sequences

  // ----- a print is a text of the grammar -----

  function Line(format: bool): (s: string)
    ensures Blank(s)
  {
    if format then "\n" else ""
  }

  function Indent(depth: nat, format: bool): (s: string)
    ensures Blank(s)
  {
    if format then Tabs(depth) else ""
  }

  /** The syntax tree of the text of a tree. */
  function Printed(t: Json, depth: nat, format: bool, token: real -> string): Doc {
    match t
    case Number(_, d) => Numeral(token(d))
    case String(s) => Quoted(EscapeAll(s))
    case Array(xs) => Items("", PrintedItems(xs, "", depth + 1, format, token))
    case Object(ms) =>
      var close := Line(format) + Indent(depth, format);
      Fields(close, PrintedFields(ms, close, depth + 1, format, token))
    case _ => Word(Text(t, depth, format, token))
  }

  function PrintedItems(xs: seq<Json>, front: string, depth: nat, format: bool, token: real -> string): seq<Item> {
    if xs == [] then []
    else
      [Item(front, Printed(xs[0], depth, format, token), "")] + PrintedItems(xs[1..], if format then " " else "", depth, format, token)
  }

  function PrintedFields(ms: seq<Member>, close: string, depth: nat, format: bool, token: real -> string): seq<Field> {
    if ms == [] then []
    else
      [Field(Line(format) + Indent(depth, format), EscapeAll(ms[0].key), "", if format then "\t" else "",
             Printed(ms[0].value, depth, format, token), if |ms| == 1 then close else "")]
      + PrintedFields(ms[1..], close, depth, format, token)
  }

  lemma {:induction false} SpellPrinted(t: Json, depth: nat, format: bool, token: real -> string)
    ensures Spell(Printed(t, depth, format, token)) == Text(t, depth, format, token)
    decreases t
  {
    hide PrintedItems, PrintedFields, ItemsText, MembersText, SpellItems, SpellFields, EscapeAll, Tabs;
    match t
    case Array(xs) =>
      SpellPrintedItems(xs, "", depth + 1, format, token);
      SpellPrintedArray(xs, depth, format, token);
    case Object(ms) =>
      SpellPrintedFields(ms, Indent(depth, format), depth + 1, format, token);
      SpellPrintedObject(ms, depth, format, token);
    case _ =>
  }

  lemma SpellPrintedArray(xs: seq<Json>, depth: nat, format: bool, token: real -> string)
    requires var items := PrintedItems(xs, "", depth + 1, format, token);
      if xs == [] then items == [] else items != [] && SpellItems(items) == "" + ItemsText(xs, depth + 1, format, token)
    ensures Spell(Items("", PrintedItems(xs, "", depth + 1, format, token))) == "[" + ItemsText(xs, depth + 1, format, token) + "]"
  {
    hide PrintedItems, SpellItems;
    if xs != [] {
      hide ItemsText;
      EmptyFront(ItemsText(xs, depth + 1, format, token));
    }
    Associative("[", ItemsText(xs, depth + 1, format, token), "]");
  }

  lemma SpellPrintedObject(ms: seq<Member>, depth: nat, format: bool, token: real -> string)
    requires var close := Line(format) + Indent(depth, format);
      var fields := PrintedFields(ms, close, depth + 1, format, token);
      if ms == [] then fields == []
      else fields != [] && SpellFields(fields) == Line(format) + (MembersText(ms, depth + 1, format, token) + Indent(depth, format))
    ensures Spell(Printed(Object(ms), depth, format, token)) == Text(Object(ms), depth, format, token)
  {
    hide PrintedFields, SpellFields, Tabs, MembersText;
    var members, line, indent := MembersText(ms, depth + 1, format, token), Line(format), Indent(depth, format);
    if ms == [] { NothingPrinted(depth + 1, format, token); }
    assert Opening(format) == "{" + line;
    FourParts("{", line, members, indent, "}");
    assert line + ("" + indent) == line + indent;
  }

  lemma FourParts(a: string, b: string, c: string, d: string, e: string)
    ensures a + ((b + (c + d)) + e) == a + b + c + d + e
  {
    Associative(b, c, d);
    Associative(a, b + c + d, e);
    Associative(a, b + c, d);
    Associative(a, b, c);
  }

  lemma NothingPrinted(depth: nat, format: bool, token: real -> string)
    ensures ItemsText([], depth, format, token) == "" && MembersText([], depth, format, token) == ""
  {
  }

  lemma {:induction false} SpellPrintedItems(xs: seq<Json>, front: string, depth: nat, format: bool, token: real -> string)
    ensures var items := PrintedItems(xs, front, depth, format, token);
      if xs == [] then items == [] else items != [] && SpellItems(items) == front + ItemsText(xs, depth, format, token)
    decreases xs
  {
    hide Printed, Text, Spell;
    if xs != [] {
      SpellPrinted(xs[0], depth, format, token);
      SpellPrintedItems(xs[1..], if format then " " else "", depth, format, token);
      OneItemPrinted(xs, front, depth, format, token);
    }
  }

  lemma OneItemPrinted(xs: seq<Json>, front: string, depth: nat, format: bool, token: real -> string)
    requires xs != [] && Spell(Printed(xs[0], depth, format, token)) == Text(xs[0], depth, format, token)
    requires var items := PrintedItems(xs[1..], if format then " " else "", depth, format, token);
      if xs[1..] == [] then items == []
      else items != [] && SpellItems(items) == (if format then " " else "") + ItemsText(xs[1..], depth, format, token)
    ensures SpellItems(PrintedItems(xs, front, depth, format, token)) == front + ItemsText(xs, depth, format, token)
  {
    hide Printed, Text, Spell;
    var x := Item(front, Printed(xs[0], depth, format, token), "");
    var more := PrintedItems(xs[1..], if format then " " else "", depth, format, token);
    var text, rest := Text(xs[0], depth, format, token), ItemsText(xs[1..], depth, format, token);
    assert ([x] + more)[1..] == more;
    if |xs| == 1 {
      assert xs[1..] == [] && text + ("" + "") == text && text + "" + "" == text;
    } else {
      var blank := if format then " " else "";
      assert Separator(format) == "," + blank;
      Associative(",", blank, rest);
      assert "" + ("," + (blank + rest)) == "," + (blank + rest);
      Associative(text, Separator(format), rest);
    }
  }

  lemma {:induction false} SpellPrintedFields(ms: seq<Member>, indent: string, depth: nat, format: bool, token: real -> string)
    ensures var fields := PrintedFields(ms, Line(format) + indent, depth, format, token);
      if ms == [] then fields == []
      else fields != [] && SpellFields(fields) == Line(format) + (MembersText(ms, depth, format, token) + indent)
    decreases ms
  {
    hide Printed, Text, Spell, Line, Indent, Head, Foot, EscapeAll;
    if ms != [] {
      SpellPrinted(ms[0].value, depth, format, token);
      SpellPrintedFields(ms[1..], indent, depth, format, token);
      OneFieldPrinted(ms, indent, depth, format, token);
    }
  }

  lemma OneFieldPrinted(ms: seq<Member>, indent: string, depth: nat, format: bool, token: real -> string)
    requires ms != [] && Spell(Printed(ms[0].value, depth, format, token)) == Text(ms[0].value, depth, format, token)
    requires var fields := PrintedFields(ms[1..], Line(format) + indent, depth, format, token);
      if ms[1..] == [] then fields == []
      else fields != [] && SpellFields(fields) == Line(format) + (MembersText(ms[1..], depth, format, token) + indent)
    ensures SpellFields(PrintedFields(ms, Line(format) + indent, depth, format, token))
         == Line(format) + (MembersText(ms, depth, format, token) + indent)
  {
    hide Printed, Text, Spell, EscapeAll, MembersText, PrintedFields, SpellFields, Tabs;
    var line, tabs, tab := Line(format), Indent(depth, format), if format then "\t" else "";
    var quote, text, rest := InQuotes(EscapeAll(ms[0].key)), Text(ms[0].value, depth, format, token), MembersText(ms[1..], depth, format, token);
    MembersTextStep(ms, depth, format, token);
    FirstPrinted(ms, line + indent, depth, format, token);
    if |ms| == 1 {
      FieldParts(line, tabs, quote, tab, text, "", "", indent);
    } else {
      FieldParts(line, tabs, quote, tab, text, ",", rest, indent);
    }
  }

  lemma MembersTextStep(ms: seq<Member>, depth: nat, format: bool, token: real -> string)
    requires ms != []
    ensures var tab := if format then "\t" else "";
      MembersText(ms, depth, format, token)
      == Indent(depth, format) + InQuotes(EscapeAll(ms[0].key)) + (":" + tab) + Text(ms[0].value, depth, format, token)
         + ((if |ms| == 1 then "" else ",") + Line(format)) + if |ms| == 1 then "" else MembersText(ms[1..], depth, format, token)
  {
    hide Text, EscapeAll, Tabs, Head, Foot, MembersText;
    HeadIs(ms[0].key, depth, format);
    MembersTextIs(ms, depth, format, token);
    if |ms| == 1 {
      assert ms[1..] == [];
      NothingPrinted(depth, format, token);
    }
  }

  lemma HeadIs(key: string, depth: nat, format: bool)
    ensures Head(key, depth, format) == Indent(depth, format) + InQuotes(EscapeAll(key)) + (":" + if format then "\t" else "")
    ensures Foot(true, format) == "" + Line(format) && Foot(false, format) == "," + Line(format)
  {
    hide EscapeAll, Tabs;
  }

  lemma MembersTextIs(ms: seq<Member>, depth: nat, format: bool, token: real -> string)
    requires ms != []
    ensures MembersText(ms, depth, format, token)
         == Head(ms[0].key, depth, format) + Text(ms[0].value, depth, format, token) + Foot(|ms| == 1, format)
            + MembersText(ms[1..], depth, format, token)
  {
    hide Text, Head, Foot;
  }

  lemma FirstPrinted(ms: seq<Member>, close: string, depth: nat, format: bool, token: real -> string)
    requires ms != []
    ensures var more := PrintedFields(ms[1..], close, depth, format, token);
      var tab := if format then "\t" else "";
      SpellFields(PrintedFields(ms, close, depth, format, token))
      == (Line(format) + Indent(depth, format)) + (InQuotes(EscapeAll(ms[0].key)) + ("" + (":" + (tab
         + (Spell(Printed(ms[0].value, depth, format, token))
         + (if |ms| == 1 then close + "" else "" + ("," + SpellFields(more))))))))
  {
    hide Printed, Spell, EscapeAll, Tabs, Line, InQuotes;
    var more := PrintedFields(ms[1..], close, depth, format, token);
    var f := Field(Line(format) + Indent(depth, format), EscapeAll(ms[0].key), "", if format then "\t" else "",
                   Printed(ms[0].value, depth, format, token), if |ms| == 1 then close else "");
    assert ([f] + more)[1..] == more;
    PrintedCount(ms[1..], close, depth, format, token);
  }

  lemma {:induction false} PrintedCount(ms: seq<Member>, close: string, depth: nat, format: bool, token: real -> string)
    ensures |PrintedFields(ms, close, depth, format, token)| == |ms|
    decreases |ms|
  {
    hide Printed;
    if ms != [] { PrintedCount(ms[1..], close, depth, format, token); }
  }

  /** The parts of a field, grouped as they are printed. */
  lemma FieldParts(line: string, tabs: string, quote: string, tab: string, text: string, comma: string, rest: string, indent: string)
    ensures (line + tabs) + (quote + ("" + (":" + (tab + (text + ("" + (comma + (line + (rest + indent)))))))))
         == line + (tabs + quote + (":" + tab) + text + (comma + line) + rest + indent)
    ensures line + ("" + indent) == line + indent && (line + indent) + "" == line + indent && "" + ("" + (line + indent)) == line + indent
  {
    var tail := comma + (line + (rest + indent));
    assert "" + tail == tail;
    var body := ":" + (tab + (text + tail));
    assert "" + body == body;
    Associative(line, tabs, quote + body);
    Associative(tabs, quote, body);
    Associative(":", tab, text + tail);
    Associative(tabs + quote, ":" + tab, text + tail);
    Associative(tabs + quote + (":" + tab), text, tail);
    Associative(comma, line, rest + indent);
    Associative(tabs + quote + (":" + tab) + text, comma + line, rest + indent);
    Associative(tabs + quote + (":" + tab) + text + (comma + line), rest, indent);
  }

  // ----- what it means -----

  predicate NumberToken(s: string) {
    && s != "" && |s| <= NUMBER_LENGTH && (s[0] == '-' || '0' <= s[0] <= '9')
    && forall i :: 0 <= i < |s| ==> IsNumberChar(s[i])
  }

  /** What can be read back: no raw item, numbers by an assumed pair of a printer and a scanner, and no
      more than `levels` arrays and objects inside each other. */
  predicate Readable(t: Json, levels: nat, token: real -> string, scan: Scanner) {
    match t
    case Number(v, d) => NumberToken(token(d)) && scan(token(d)) == Some((d, |token(d)|)) && v == Saturate(d)
    case String(s) => NulFree(s)
    case Array(xs) => levels > 0 && ItemsReadable(xs, levels - 1, token, scan)
    case Object(ms) => levels > 0 && MembersReadable(ms, levels - 1, token, scan)
    case Invalid => false
    case Raw(_) => false
    case _ => true
  }

  predicate ItemsReadable(xs: seq<Json>, levels: nat, token: real -> string, scan: Scanner) {
    xs != [] ==> Readable(xs[0], levels, token, scan) && ItemsReadable(xs[1..], levels, token, scan)
  }

  predicate MembersReadable(ms: seq<Member>, levels: nat, token: real -> string, scan: Scanner) {
    ms != [] ==> NulFree(ms[0].key) && Readable(ms[0].value, levels, token, scan) && MembersReadable(ms[1..], levels, token, scan)
  }

  lemma EscapedStands(s: string)
    requires NulFree(s)
    ensures Stands(EscapeAll(s)) == Some(s)
  {
    hide StringAt, EscapeAll;
    var q := Quote(s);
    assert q[0..] == q && q + "" == q;
    QuoteParses(q, 0, s, "");
  }

  lemma TokenIsNumeral(s: string, scan: Scanner)
    requires NumberToken(s) && scan(s).Some? && scan(s).value.1 == |s|
    ensures IsNumeral(s, scan)
  {
    forall i | 0 <= i < |s| ensures s[i] in "+-.0123456789Ee" { assert IsNumberChar(s[i]); }
  }

  /** The print of a readable tree is a proper text, and means the tree. */
  lemma {:induction false} PrintedMeans(t: Json, levels: nat, depth: nat, format: bool, token: real -> string, scan: Scanner)
    requires Readable(t, levels, token, scan)
    ensures var d := Printed(t, depth, format, token); Proper(d, levels, scan) && Spaced(d, Blank) && Mean(d, scan) == t
    decreases t
  {
    hide NumberToken, IsNumeral, PrintedItems, PrintedFields, EscapeAll, Stands, ItemsProper, FieldsProper, ItemsSpaced, FieldsSpaced, MeanItems, MeanFields, Saturate, Tabs;
    match t
    case Number(_, d) => TokenIsNumeral(token(d), scan);
    case String(s) => EscapedStands(s);
    case Array(xs) =>
      PrintedItemsMean(xs, "", levels - 1, depth + 1, format, token, scan);
    case Object(ms) =>
      PrintedFieldsMean(ms, Line(format) + Indent(depth, format), levels - 1, depth + 1, format, token, scan);
    case _ =>
  }

  lemma {:induction false} PrintedItemsMean(xs: seq<Json>, front: string, levels: nat, depth: nat, format: bool, token: real -> string, scan: Scanner)
    requires ItemsReadable(xs, levels, token, scan) && Blank(front)
    ensures var d := PrintedItems(xs, front, depth, format, token);
      ItemsProper(d, levels, scan) && ItemsSpaced(d, Blank) && MeanItems(d, scan) == xs
    decreases xs
  {
    hide Printed, Readable, Proper, Spaced, Mean;
    if xs != [] {
      PrintedMeans(xs[0], levels, depth, format, token, scan);
      PrintedItemsMean(xs[1..], if format then " " else "", levels, depth, format, token, scan);
      assert [xs[0]] + xs[1..] == xs;
    }
  }

  lemma {:induction false} PrintedFieldsMean(ms: seq<Member>, close: string, levels: nat, depth: nat, format: bool, token: real -> string, scan: Scanner)
    requires MembersReadable(ms, levels, token, scan) && Blank(close)
    ensures var d := PrintedFields(ms, close, depth, format, token);
      FieldsProper(d, levels, scan) && FieldsSpaced(d, Blank) && MeanFields(d, scan) == ms
    decreases ms
  {
    hide Printed, Readable, Proper, Spaced, Mean, Stands, EscapeAll, Tabs;
    if ms != [] {
      PrintedMeans(ms[0].value, levels, depth, format, token, scan);
      EscapedStands(ms[0].key);
      PrintedFieldsMean(ms[1..], close, levels, depth, format, token, scan);
      assert [ms[0]] + ms[1..] == ms && Member(ms[0].key, ms[0].value) == ms[0];
    }
  }

  // ----- the whole round trip -----

  lemma {:induction false} ReadableIsPrintable(t: Json, levels: nat, token: real -> string, scan: Scanner)
    requires Readable(t, levels, token, scan)
    ensures Printable(t, token) && Terminated(t, token)
    decreases t
  {
    match t
    case Number(_, d) => assert forall x :: IsNumberChar(x) ==> x != NUL;
    case Array(xs) => ItemsArePrintable(xs, levels - 1, token, scan);
    case Object(ms) => MembersArePrintable(ms, levels - 1, token, scan);
    case _ =>
  }

  lemma {:induction false} ItemsArePrintable(xs: seq<Json>, levels: nat, token: real -> string, scan: Scanner)
    requires ItemsReadable(xs, levels, token, scan)
    ensures ItemsPrintable(xs, token) && ItemsTerminated(xs, token)
    decreases xs
  {
    if xs != [] {
      ReadableIsPrintable(xs[0], levels, token, scan);
      ItemsArePrintable(xs[1..], levels, token, scan);
    }
  }

  lemma {:induction false} MembersArePrintable(ms: seq<Member>, levels: nat, token: real -> string, scan: Scanner)
    requires MembersReadable(ms, levels, token, scan)
    ensures MembersPrintable(ms, token) && MembersTerminated(ms, token)
    decreases ms
  {
    if ms != [] {
      ReadableIsPrintable(ms[0].value, levels, token, scan);
      MembersArePrintable(ms[1..], levels, token, scan);
    }
  }

  /** A tree without raw items, nested no deeper than the limit: whichever way it was printed, parsing
      the text gives the tree back and ends at the terminator. */
  lemma PrintThenParse(t: Json, format: bool, requireNullTerminated: bool, token: real -> string, scan: Scanner)
    requires Readable(t, NESTING_LIMIT, token, scan)
    ensures Printable(t, token) && Terminated(t, token) && NulFree(Text(t, 0, format, token))
    ensures ParseWithOpts(Text(t, 0, format, token), requireNullTerminated, scan) == (Some(t), |Text(t, 0, format, token)|)
  {
    hide *;
    ReadableIsPrintable(t, NESTING_LIMIT, token, scan);
    TextNulFree(t, 0, format, token);
    PrintedMeans(t, NESTING_LIMIT, 0, format, token, scan);
    SpellPrinted(t, 0, format, token);
    AllOfIt(Text(t, 0, format, token), Printed(t, 0, format, token), scan);
    WholeParses(Text(t, 0, format, token), false, "", Printed(t, 0, format, token), "", scan);
  }

  lemma AllOfIt(text: string, d: Doc, scan: Scanner)
    requires text == Spell(d) && Proper(d, NESTING_LIMIT, scan) && Spaced(d, Blank)
    ensures Whole(text, false, "", d, "", scan)
  {
    hide Spell, Proper, Spaced;
    assert "" + ("" + (Spell(d) + "")) == Spell(d);
  }

  // ----- integers are such numbers -----

  /** How `%1.15g` prints an integer of at most fifteen digits. */
  function IntegerToken(d: real): string {
    if d < 0.0 then "-" + Decimal((-d).Floor) else Decimal(d.Floor)
  }

  predicate Digits(s: string) {
    s != "" && forall i :: 0 <= i < |s| ==> '0' <= s[i] <= '9'
  }

  /** `strtod` on a run of digits with or without a sign. */
  function ScanInteger(s: string): Option<(real, nat)> {
    if Digits(s) then Some((DigitsValue(s) as real, |s|))
    else if s != "" && s[0] == '-' && Digits(s[1..]) then Some((-(DigitsValue(s[1..]) as real), |s|))
    else None
  }

  function Pow10(k: nat): nat {
    if k == 0 then 1 else 10 * Pow10(k - 1)
  }

  lemma {:induction false} DecimalLength(n: nat, k: nat)
    requires k >= 1 && n < Pow10(k)
    ensures |Decimal(n)| <= k
  {
    if n >= 10 { DecimalLength(n / 10, k - 1); }
  }

  /** Cut off toward zero, and held within the limits of `int`. */
  lemma SaturateCuts(d: real)
    ensures d >= INT_MAX as real ==> Saturate(d) == INT_MAX
    ensures d <= INT_MIN as real ==> Saturate(d) == INT_MIN
    ensures 0.0 <= d < INT_MAX as real ==> Saturate(d) as real <= d < (Saturate(d) + 1) as real
    ensures INT_MIN as real < d < 0.0 ==> (Saturate(d) - 1) as real < d <= Saturate(d) as real
  {
    assert (-d).Floor as real <= -d < ((-d).Floor + 1) as real;
  }

  lemma SaturateInteger(n: int)
    ensures Saturate(n as real) == if n >= INT_MAX then INT_MAX else if n <= INT_MIN then INT_MIN else n
  {
    assert (n as real).Floor == n && (-(n as real)).Floor == -n;
  }

  lemma NaturalToken(m: nat)
    requires m < Pow10(15)
    ensures NumberToken(Decimal(m)) && NumberToken("-" + Decimal(m))
    ensures ScanInteger(Decimal(m)) == Some((m as real, |Decimal(m)|))
    ensures ScanInteger("-" + Decimal(m)) == Some((-(m as real), |"-" + Decimal(m)|))
  {
    hide Pow10, Decimal, DigitsValue;
    DecimalLength(m, 15);
    DecimalValue(m);
    var s := "-" + Decimal(m);
    assert s[1..] == Decimal(m);
  }

  lemma IntegersAreNumbers(n: int)
    requires n < Pow10(15) && -n < Pow10(15)
    ensures NumberToken(IntegerToken(n as real))
    ensures ScanInteger(IntegerToken(n as real)) == Some((n as real, |IntegerToken(n as real)|))
    ensures Saturate(n as real) == if n >= INT_MAX then INT_MAX else if n <= INT_MIN then INT_MIN else n
  {
    hide Pow10, Decimal, DigitsValue, NumberToken, ScanInteger, Saturate;
    SaturateInteger(n);
    assert (n as real).Floor == n && (-(n as real)).Floor == -n;
    NaturalToken(if n < 0 then -n else n);
  }
}

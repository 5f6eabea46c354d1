/** The text of a JSON tree, formatted or not, as cJSON.c prints it. `token` prints a number. */
module JsonText {

  import opened CStrings
  import opened JsonTree
  import opened Sequences

  const NUL: char := '\0'

  predicate NulFree(s: string) {
    forall i :: 0 <= i < |s| ==> s[i] != NUL
  }

  // ----- strings -----

  function HexDigit(d: nat): char
    requires d < 16
  {
    if d < 10 then ('0' as int + d) as char else ('a' as int + d - 10) as char
  }

  /** The letter of a one-character escape, if there is one. */
  function Letter(c: char): char {
    if c == '"' || c == '\\' then c
    else if c == 8 as char then 'b'
    else if c == 12 as char then 'f'
    else if c == '\n' then 'n'
    else if c == '\r' then 'r'
    else if c == '\t' then 't'
    else NUL
  }

  /** Section 7 of RFC 8259: quotation marks, backslashes and control characters are escaped. */
  function Escape(c: char): (r: string)
    ensures 1 <= |r| <= 6
    ensures c != NUL ==> NulFree(r)
  {
    if Letter(c) != NUL then ['\\', Letter(c)]
    else if c as int < 32 then ['\\', 'u', '0', '0', HexDigit(c as int / 16), HexDigit(c as int % 16)]
    else [c]
  }

  function EscapeAll(s: string): (r: string)
    ensures |r| >= |s|
  {
    if s == [] then [] else Escape(s[0]) + EscapeAll(s[1..])
  }

  function Quote(s: string): string {
    "\"" + EscapeAll(s) + "\""
  }

  // ----- values -----

  function Tabs(n: nat): (r: string)
    ensures |r| == n
  {
    seq(n, _ => '\t')
  }

  function Separator(format: bool): string {
    if format then ", " else ","
  }

  function Text(t: Json, depth: nat, format: bool, token: real -> string): string {
    match t
    case Invalid => ""
    case False => "false"
    case True => "true"
    case Null => "null"
    case Number(_, d) => token(d)
    case String(s) => Quote(s)
    case Raw(s) => s
    case Array(xs) => "[" + ItemsText(xs, depth + 1, format, token) + "]"
    case Object(ms) =>
      Opening(format) + MembersText(ms, depth + 1, format, token) + (if format then Tabs(depth) else "") + "}"
  }

  function Opening(format: bool): string {
    if format then "{\n" else "{"
  }

  function ItemsText(xs: seq<Json>, depth: nat, format: bool, token: real -> string): string {
    if xs == [] then ""
    else Text(xs[0], depth, format, token) + (if |xs| == 1 then "" else Separator(format)) + ItemsText(xs[1..], depth, format, token)
  }

  /** The indentation, the key and the colon of a member. */
  function Head(key: string, depth: nat, format: bool): string {
    (if format then Tabs(depth) else "") + Quote(key) + (if format then ":\t" else ":")
  }

  /** What follows a member. */
  function Foot(last: bool, format: bool): string {
    (if last then "" else ",") + (if format then "\n" else "")
  }

  function MembersText(ms: seq<Member>, depth: nat, format: bool, token: real -> string): string {
    if ms == [] then ""
    else
      Head(ms[0].key, depth, format) + Text(ms[0].value, depth, format, token) + Foot(|ms| == 1, format)
      + MembersText(ms[1..], depth, format, token)
  }

  // ----- what can be printed -----

  /** The buffer that a number is printed to holds 25 characters. */
  const NUMBER_LENGTH := 25

  /** No string holds its own terminator, and no number is printed as nothing at all. */
  predicate Terminated(t: Json, token: real -> string) {
    match t
    case Number(_, d) => NulFree(token(d))
    case String(s) => NulFree(s)
    case Raw(s) => NulFree(s)
    case Array(xs) => ItemsTerminated(xs, token)
    case Object(ms) => MembersTerminated(ms, token)
    case _ => true
  }

  predicate ItemsTerminated(xs: seq<Json>, token: real -> string) {
    xs != [] ==> Terminated(xs[0], token) && ItemsTerminated(xs[1..], token)
  }

  predicate MembersTerminated(ms: seq<Member>, token: real -> string) {
    ms != [] ==> NulFree(ms[0].key) && Terminated(ms[0].value, token) && MembersTerminated(ms[1..], token)
  }

  /** Every item has a type, and every number a short token. */
  predicate Printable(t: Json, token: real -> string) {
    match t
    case Invalid => false
    case Number(_, d) => |token(d)| <= NUMBER_LENGTH
    case Array(xs) => ItemsPrintable(xs, token)
    case Object(ms) => MembersPrintable(ms, token)
    case _ => true
  }

  predicate ItemsPrintable(xs: seq<Json>, token: real -> string) {
    xs != [] ==> Printable(xs[0], token) && ItemsPrintable(xs[1..], token)
  }

  predicate MembersPrintable(ms: seq<Member>, token: real -> string) {
    ms != [] ==> Printable(ms[0].value, token) && MembersPrintable(ms[1..], token)
  }

  // ----- the text is a C string -----

  lemma NulFreeConcat(a: string, b: string)
    requires NulFree(a) && NulFree(b)
    ensures NulFree(a + b)
  {
  }

  lemma {:induction false} EscapeAllNulFree(s: string)
    requires NulFree(s)
    ensures NulFree(EscapeAll(s))
  {
    if s != [] { EscapeAllNulFree(s[1..]); }
  }

  lemma QuoteNulFree(s: string)
    requires NulFree(s)
    ensures NulFree(Quote(s))
  {
    EscapeAllNulFree(s);
  }

  lemma HeadNulFree(key: string, depth: nat, format: bool)
    requires NulFree(key)
    ensures NulFree(Head(key, depth, format))
  {
    hide Quote;
    QuoteNulFree(key);
  }

  lemma FootNulFree(last: bool, format: bool)
    ensures NulFree(Foot(last, format))
  {
  }

  lemma BracketNulFree(open: string, body: string, close: string)
    requires NulFree(open) && NulFree(body) && NulFree(close)
    ensures NulFree(open + body + close)
  {
  }

  lemma {:induction false} TextNulFree(t: Json, depth: nat, format: bool, token: real -> string)
    requires Terminated(t, token)
    ensures NulFree(Text(t, depth, format, token))
    decreases t
  {
    hide EscapeAll, Quote, ItemsText, MembersText;
    match t
    case String(s) => QuoteNulFree(s);
    case Array(xs) =>
      ItemsNulFree(xs, depth + 1, format, token);
      BracketNulFree("[", ItemsText(xs, depth + 1, format, token), "]");
    case Object(ms) =>
      MembersNulFree(ms, depth + 1, format, token);
      var close := if format then Tabs(depth) else "";
      BracketNulFree(Opening(format), MembersText(ms, depth + 1, format, token), close);
      NulFreeConcat(Opening(format) + MembersText(ms, depth + 1, format, token) + close, "}");
    case _ =>
  }

  lemma {:induction false} ItemsNulFree(xs: seq<Json>, depth: nat, format: bool, token: real -> string)
    requires ItemsTerminated(xs, token)
    ensures NulFree(ItemsText(xs, depth, format, token))
    decreases xs
  {
    if xs != [] {
      hide Text;
      TextNulFree(xs[0], depth, format, token);
      ItemsNulFree(xs[1..], depth, format, token);
    }
  }

  lemma {:induction false} MembersNulFree(ms: seq<Member>, depth: nat, format: bool, token: real -> string)
    requires MembersTerminated(ms, token)
    ensures NulFree(MembersText(ms, depth, format, token))
    decreases ms
  {
    if ms != [] {
      hide Text, Head, NulFree;
      var head, text, foot := Head(ms[0].key, depth, format), Text(ms[0].value, depth, format, token), Foot(|ms| == 1, format);
      HeadNulFree(ms[0].key, depth, format);
      TextNulFree(ms[0].value, depth, format, token);
      assert NulFree(foot) by { FootNulFree(|ms| == 1, format); }
      BracketNulFree(head, text, foot);
      MembersNulFree(ms[1..], depth, format, token);
      NulFreeConcat(head + text + foot, MembersText(ms[1..], depth, format, token));
    }
  }
}

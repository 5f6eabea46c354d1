/** The escapes of section 7 of RFC 8259 and the layout of formatted text, letter by letter. */
module JsonFormat {

  import opened JsonLiterals
  import opened JsonParser
  import opened JsonStrings
  import opened JsonText
  import opened JsonTree

  /** Quotation mark, backslash and five control characters have an escape of one letter; the others are written with
      small hexadecimal digits; every other character stands for itself. */
  lemma EscapeTable(c: char)
    ensures c == '"' ==> Escape(c) == "\\\""
    ensures c == '\\' ==> Escape(c) == "\\\\"
    ensures c as int == 0x08 ==> Escape(c) == "\\b"
    ensures c as int == 0x0C ==> Escape(c) == "\\f"
    ensures c as int == 0x0A ==> Escape(c) == "\\n"
    ensures c as int == 0x0D ==> Escape(c) == "\\r"
    ensures c as int == 0x09 ==> Escape(c) == "\\t"
    ensures c as int < 0x20 && c as int !in {0x08, 0x09, 0x0A, 0x0C, 0x0D} ==>
      Escape(c) == "\\u00" + [LOWER_DIGITS[c as int / 16], LOWER_DIGITS[c as int % 16]]
    ensures c as int >= 0x20 && c != '"' && c != '\\' ==> Escape(c) == [c]
  {
    if c as int < 0x20 {
      DigitIs(c as int / 16);
      DigitIs(c as int % 16);
    }
  }

  lemma DigitIs(d: nat)
    requires d < 16
    ensures HexDigit(d) == LOWER_DIGITS[d]
  {
  }

  /** An escape is a literal that stands for its character. */
  lemma EscapeIsLiteral(c: char) returns (p: Piece)
    requires c != NUL
    ensures PieceOk(p) && Spelling(p) == Escape(c) && Meaning(p) == [c]
  {
    hide Escape, Spells;
    EscapeTable(c);
    if c as int >= 0x20 && c != '"' && c != '\\' {
      p := JsonLiterals.Plain(c);
    } else if Letter(c) != NUL {
      p := Short(Letter(c));
    } else {
      p := Unit(['0', '0', LOWER_DIGITS[c as int / 16], LOWER_DIGITS[c as int % 16]], c as int);
      ControlSpelt(p.digits, c);
    }
  }

  lemma ControlSpelt(digits: string, c: char)
    requires c as int < 0x20 && digits == ['0', '0', LOWER_DIGITS[c as int / 16], LOWER_DIGITS[c as int % 16]]
    ensures Spells(digits, c as int) && Utf8(c as int) == [c]
  {
    assert c as int / 16 % 16 == c as int / 16;
  }

  // ----- an example of the layout -----

  /** `{"a":[true,null],"b":{"c":false},"d":{}}`. */
  function Example(): Json {
    Object([Member("a", Array([True, Null])), Member("b", Inner()), Member("d", Object([]))])
  }

  function Inner(): Json {
    Object([Member("c", False)])
  }

  lemma LetterQuoted(x: char)
    requires 'a' <= x <= 'z'
    ensures Quote([x]) == ['"', x, '"']
  {
    assert [x][1..] == [];
    assert EscapeAll([]) == "";
    assert EscapeAll([x]) == Escape(x) + "" == [x];
  }

  lemma HeadOfLetter(x: char, depth: nat, format: bool)
    requires 'a' <= x <= 'z' && 1 <= depth <= 2
    ensures Head([x], depth, format)
         == if !format then ['"', x, '"', ':'] else (if depth == 1 then "\t" else "\t\t") + ['"', x, '"', ':', '\t']
  {
    hide Quote;
    LetterQuoted(x);
    assert Tabs(1) == "\t" && Tabs(2) == "\t\t";
  }

  lemma OneMore(m: Member, more: seq<Member>, depth: nat, format: bool, token: real -> string)
    ensures MembersText([m] + more, depth, format, token)
         == Head(m.key, depth, format) + Text(m.value, depth, format, token) + Foot(more == [], format)
            + if more == [] then "" else MembersText(more, depth, format, token)
  {
    hide Head, Text, Foot;
    assert ([m] + more)[1..] == more;
  }

  lemma WholeObject(ms: seq<Member>, depth: nat, format: bool, token: real -> string)
    requires depth <= 1
    ensures Text(Object(ms), depth, format, token)
         == (if format then "{\n" else "{") + MembersText(ms, depth + 1, format, token) + (if format && depth == 1 then "\t" else "") + "}"
    ensures MembersText([], depth + 1, format, token) == ""
  {
    hide MembersText;
    assert Tabs(0) == "" && Tabs(1) == "\t";
    NoMembers(depth + 1, format, token);
  }

  lemma NoMembers(depth: nat, format: bool, token: real -> string)
    ensures MembersText([], depth, format, token) == ""
  {
  }

  lemma ArrayPrinted(format: bool, token: real -> string)
    ensures Text(Array([True, Null]), 1, format, token) == if format then "[true, null]" else "[true,null]"
  {
    assert [True, Null][1..] == [Null] && [Null][1..] == [];
    assert ItemsText([Null], 2, format, token) == "null" + "" + "" == "null";
    if format {
      assert ItemsText([True, Null], 2, true, token) == "true" + ", " + "null" == "true, null";
    } else {
      assert ItemsText([True, Null], 2, false, token) == "true" + "," + "null" == "true,null";
    }
  }

  lemma WordPrinted(depth: nat, format: bool, token: real -> string)
    ensures Text(False, depth, format, token) == "false"
  {
  }

  function InnerText(format: bool): string {
    if format then "{\n\t\t\"c\":\tfalse\n\t}" else "{\"c\":false}"
  }

  lemma InnerParts()
    ensures InnerText(true) == "{\n" + ("\t\t" + ['"', 'c', '"', ':', '\t'] + "false" + "\n" + "") + "\t" + "}"
    ensures InnerText(false) == "{" + (['"', 'c', '"', ':'] + "false" + "" + "") + "" + "}"
  {
  }

  lemma InnerPrinted(format: bool, token: real -> string)
    ensures Text(Inner(), 1, format, token) == InnerText(format)
  {
    hide Head, MembersText, Text, InnerText;
    InnerParts();
    WholeObject([Member("c", False)], 1, format, token);
    HeadOfLetter('c', 2, format);
    assert [Member("c", False)] + [] == [Member("c", False)];
    OneMore(Member("c", False), [], 2, format, token);
    WordPrinted(2, format, token);
  }

  lemma EmptyPrinted(format: bool, token: real -> string)
    ensures Text(Object([]), 1, format, token) == if format then "{\n\t}" else "{}"
  {
    hide MembersText, Text;
    WholeObject([], 1, format, token);
  }

  lemma ExampleUnformatted(token: real -> string)
    ensures Text(Example(), 0, false, token) == "{" + "\"a\":[true,null]," + "\"b\":{\"c\":false}," + "\"d\":{}" + "}"
  {
    hide Text;
    ExampleIs(token, false);
  }

  /** Line by line. */
  lemma ExampleFormatted(token: real -> string)
    ensures Text(Example(), 0, true, token)
         == "{\n" + "\t\"a\":\t[true, null],\n" + "\t\"b\":\t{\n\t\t\"c\":\tfalse\n\t},\n" + "\t\"d\":\t{\n\t}\n" + "}"
  {
    hide Text;
    ExampleIs(token, true);
  }

  function LineOf(x: char, v: string, last: bool, format: bool): string {
    (if format then ['\t', '"', x, '"', ':', '\t'] else ['"', x, '"', ':']) + v + (if last then "" else ",") + (if format then "\n" else "")
  }

  lemma ExampleIs(token: real -> string, format: bool)
    ensures Text(Example(), 0, format, token)
         == (if format then "{\n" else "{")
            + LineOf('a', if format then "[true, null]" else "[true,null]", false, format)
            + LineOf('b', InnerText(format), false, format)
            + LineOf('d', if format then "{\n\t}" else "{}", true, format) + "}"
  {
    hide Head, Quote, Text, MembersText, LineOf;
    var a, b, d := Member("a", Array([True, Null])), Member("b", Inner()), Member("d", Object([]));
    ArrayPrinted(format, token);
    InnerPrinted(format, token);
    EmptyPrinted(format, token);
    LineIs('a', a.value, [b, d], format, token);
    LineIs('b', b.value, [d], format, token);
    LineIs('d', d.value, [], format, token);
    assert [d] + [] == [d] && [b] + [d] == [b, d] && [a] + [b, d] == [a, b, d];
    WholeObject([a, b, d], 0, format, token);
  }

  lemma LineIs(x: char, v: Json, more: seq<Member>, format: bool, token: real -> string)
    requires 'a' <= x <= 'z'
    ensures MembersText([Member([x], v)] + more, 1, format, token)
         == LineOf(x, Text(v, 1, format, token), more == [], format) + if more == [] then "" else MembersText(more, 1, format, token)
  {
    hide Head, Text, MembersText;
    HeadOfLetter(x, 1, format);
    OneMore(Member([x], v), more, 1, format, token);
  }
}

/** What the parser makes of a text that stands somewhere in the content. */
module JsonReading {

  import opened CStrings
  import opened JsonTree
  import opened JsonText
  import opened JsonStrings
  import opened JsonParser
  import opened Options
  import opened Sequences

  // ----- where a text stands in the content -----

  /** From `o` on the content is `a` and then `b`. */
  predicate At(c: string, o: nat, a: string, b: string) {
    o <= |c| && c[o..] == a + b
  }

  lemma Next(c: string, o: nat, a: string, b: string)
    requires At(c, o, a, b)
    ensures o + |a| <= |c| && c[o + |a|..] == b && Reads(c, o, a)
    ensures At(c, o + |a|, b, "") && At(c, o + |a|, "", b)
  {
    assert c[o + |a|..] == c[o..][|a|..];
    assert c[o..o + |a|] == c[o..][..|a|];
    assert b + "" == b && "" + b == b;
  }

  lemma Regroup(c: string, o: nat, a: string, b: string, d: string)
    requires At(c, o, a + b, d)
    ensures At(c, o, a, b + d)
  {
    Associative(a, b, d);
  }

  /** Control characters and blanks. */
  predicate Blank(s: string) {
    forall i :: 0 <= i < |s| ==> s[i] as int <= 0x20
  }

  lemma {:induction false} SkipTo(c: string, o: nat, blank: string, rest: string)
    requires At(c, o, blank, rest) && Blank(blank) && rest != "" && !IsBlank(rest[0])
    ensures o + |blank| < |c| && SkipBlanks(c, o) == o + |blank| && c[o + |blank|..] == rest && c[o + |blank|] == rest[0]
    decreases |blank|
  {
    Next(c, o, blank, rest);
    assert c[o + |blank|] == c[o + |blank|..][0];
    if blank != "" {
      assert c[o] == c[o..][0] == blank[0];
      assert c[o + 1..] == c[o..][1..] == blank[1..] + rest;
      SkipTo(c, o + 1, blank[1..], rest);
    }
  }

  // ----- strings -----

  lemma {:induction false} CStringIs(s: string)
    requires NulFree(s)
    ensures CString(s) == s
  {
    if s != "" { CStringIs(s[1..]); }
  }

  lemma EscapeAllStep(s: string)
    ensures s == "" ==> EscapeAll(s) == ""
    ensures s != "" ==> EscapeAll(s) == Escape(s[0]) + EscapeAll(s[1..])
  {
  }

  lemma EscapeFirst(c: string, o: nat, s: string, rest: string)
    requires At(c, o, EscapeAll(s), "\"" + rest) && s != ""
    ensures Reads(c, o, Escape(s[0])) && o + |Escape(s[0])| < |c|
    ensures At(c, o + |Escape(s[0])|, EscapeAll(s[1..]), "\"" + rest)
    ensures |EscapeAll(s)| == |Escape(s[0])| + |EscapeAll(s[1..])|
  {
    hide Escape, EscapeAll;
    EscapeAllStep(s);
    var e := Escape(s[0]);
    Regroup(c, o, e, EscapeAll(s[1..]), "\"" + rest);
    Next(c, o, e, EscapeAll(s[1..]) + ("\"" + rest));
    assert |c[o + |e|..]| > 0;
  }

  /** The first pass finds the quotation mark behind the escaped string. */
  lemma {:induction false} ClosingFound(c: string, o: nat, s: string, rest: string)
    requires At(c, o, EscapeAll(s), "\"" + rest) && NulFree(s)
    ensures Closing(c, o).Some? && Closing(c, o).value.end == o + |EscapeAll(s)|
    decreases |s|
  {
    hide Escape, EscapeAll, Closing;
    if s == "" {
      EscapeAllStep(s);
      assert c[o] == c[o..][0] == '"';
      ClosingHere(c, o);
    } else {
      EscapeFirst(c, o, s, rest);
      ClosingFound(c, o + |Escape(s[0])|, s[1..], rest);
      ClosingEscape(c, o, s[0]);
    }
  }

  lemma ClosingHere(c: string, o: nat)
    requires o < |c| && c[o] == '"'
    ensures Closing(c, o) == Some(Measure(o, 0))
  {
  }

  lemma ClosingPlain(c: string, o: nat)
    requires o < |c| && c[o] != '"' && c[o] != '\\'
    ensures Closing(c, o) == Closing(c, o + 1)
  {
  }

  lemma ClosingPair(c: string, o: nat)
    requires o + 1 < |c| && c[o] == '\\'
    ensures Closing(c, o + 2).Some? ==> Closing(c, o).Some? && Closing(c, o).value.end == Closing(c, o + 2).value.end
  {
  }

  function ReadAt(c: string, o: nat, i: nat): char
    requires o + i < |c|
  {
    c[o + i]
  }

  lemma ClosingEscape(c: string, o: nat, x: char)
    requires x != NUL && Reads(c, o, Escape(x)) && o + |Escape(x)| < |c|
    ensures var n := o + |Escape(x)|;
      && (Closing(c, n).Some? ==> Closing(c, o).Some? && Closing(c, o).value.end == Closing(c, n).value.end)
  {
    hide Closing;
    var e := Escape(x);
    forall i: nat | i < |e| ensures ReadAt(c, o, i) == e[i] { assert c[o + i] == c[o..o + |e|][i]; }
    assert c[o] == ReadAt(c, o, 0);
    if Letter(x) != NUL {
      ClosingPair(c, o);
    } else if x as int < 32 {
      ClosingPair(c, o);
      assert c[o + 2] == ReadAt(c, o, 2) && c[o + 3] == ReadAt(c, o, 3) && c[o + 4] == ReadAt(c, o, 4) && c[o + 5] == ReadAt(c, o, 5);
      ClosingPlain(c, o + 2);
      ClosingPlain(c, o + 3);
      ClosingPlain(c, o + 4);
      ClosingPlain(c, o + 5);
    } else {
      ClosingPlain(c, o);
    }
  }

  /** The second pass undoes one escape. */
  lemma UnescapeOne(c: string, o: nat, x: char, end: nat)
    requires x != NUL && Reads(c, o, Escape(x)) && o + |Escape(x)| <= end < |c|
    ensures Unescape(c, o, end) == Prefixed([x], Unescape(c, o + |Escape(x)|, end))
  {
    hide Unescape;
    var e := Escape(x);
    UnescapeStep(c, o, end);
    assert c[o] == c[o..o + |e|][0];
    if Letter(x) != NUL {
      assert c[o + 1] == c[o..o + |e|][1] == Letter(x);
      assert Unletter(Letter(x)) == x;
    } else if x as int < 32 {
      assert c[o + 1] == c[o..o + |e|][1] == 'u';
      var digits := c[o + 2..o + 6];
      assert digits == c[o..o + |e|][2..];
      HexOfControl(x as int, digits);
      assert Utf16(c, o, end) == Some(Literal(x as int, 6));
      assert Utf8(x as int) == [x];
    }
  }

  lemma HexOfControl(v: nat, digits: string)
    requires v < 32 && digits == ['0', '0', HexDigit(v / 16), HexDigit(v % 16)]
    ensures Hex4(digits) == v
  {
    assert HexValue(HexDigit(v / 16)) == v / 16 && HexValue(HexDigit(v % 16)) == v % 16 && HexValue('0') == 0;
  }

  lemma {:induction false} Unescaped(c: string, o: nat, s: string, rest: string)
    requires At(c, o, EscapeAll(s), "\"" + rest) && NulFree(s)
    ensures o + |EscapeAll(s)| < |c|
    ensures Unescape(c, o, o + |EscapeAll(s)|) == (Some(s), o + |EscapeAll(s)|)
    decreases |s|
  {
    hide Unescape, Escape, EscapeAll;
    var end := o + |EscapeAll(s)|;
    Next(c, o, EscapeAll(s), "\"" + rest);
    assert |c[end..]| > 0;
    if s == "" {
      EscapeAllStep(s);
      UnescapeEnd(c, o, end);
    } else {
      EscapeFirst(c, o, s, rest);
      Unescaped(c, o + |Escape(s[0])|, s[1..], rest);
      UnescapeOne(c, o, s[0], end);
      assert [s[0]] + s[1..] == s;
    }
  }

  lemma QuoteParses(c: string, o: nat, s: string, rest: string)
    requires At(c, o, Quote(s), rest) && NulFree(s)
    ensures o < |c| && c[o] == '"'
    ensures StringAt(c, o) == (Some(s), o + |Quote(s)|)
  {
    hide Unescape, Closing, EscapeAll, CString;
    assert c[o] == c[o..][0] == '"';
    assert c[o + 1..] == c[o..][1..];
    assert (Quote(s) + rest)[1..] == EscapeAll(s) + ("\"" + rest);
    ClosingFound(c, o + 1, s, rest);
    Unescaped(c, o + 1, s, rest);
    CStringIs(s);
  }

  // ----- numbers -----

  predicate Ends(rest: string) {
    rest != "" && !IsNumberChar(rest[0])
  }

  lemma {:induction false} RunIs(c: string, o: nat, s: string, rest: string, n: nat)
    requires At(c, o, s, rest) && |s| <= n && Ends(rest) && forall i :: 0 <= i < |s| ==> IsNumberChar(s[i])
    ensures NumberRun(c, o, n) == s
    decreases n
  {
    assert c[o] == c[o..][0];
    if s != "" {
      assert c[o + 1..] == c[o..][1..] == s[1..] + rest;
      RunIs(c, o + 1, s[1..], rest, n - 1);
      assert [s[0]] + s[1..] == s;
    }
  }

  // ----- values -----

  lemma WordParses(c: string, o: nat, depth: nat, scan: Scanner)
    requires Content(c) && o < |c|
    ensures Reads(c, o, "null") ==> ValueAt(c, o, depth, scan) == (Some(Null), o + 4)
    ensures Reads(c, o, "false") ==> ValueAt(c, o, depth, scan) == (Some(False), o + 5)
    ensures Reads(c, o, "true") ==> ValueAt(c, o, depth, scan) == (Some(True), o + 4)
  {
    if Reads(c, o, "false") { WordFirst(c, o, "false"); }
    if Reads(c, o, "true") { WordFirst(c, o, "true"); }
    if Reads(c, o, "null") { WordFirst(c, o, "null"); }
  }

  lemma WordFirst(c: string, o: nat, word: string)
    requires word != "" && Reads(c, o, word)
    ensures c[o] == word[0]
  {
    assert c[o] == c[o..o + |word|][0];
  }

  /** The first character decides what is read. */
  lemma ValueAtFirst(c: string, o: nat, depth: nat, scan: Scanner)
    requires Content(c) && o < |c|
    ensures c[o] == '"' ==>
      var (s, p) := StringAt(c, o);
      ValueAt(c, o, depth, scan) == (if s == None then None else Some(String(s.value)), p)
    ensures c[o] == '-' || '0' <= c[o] <= '9' ==> ValueAt(c, o, depth, scan) == NumberAt(c, o, scan)
    ensures c[o] == '[' ==> ValueAt(c, o, depth, scan) == ArrayAt(c, o, depth, scan)
    ensures c[o] == '{' ==> ValueAt(c, o, depth, scan) == ObjectAt(c, o, depth, scan)
  {
    hide StringAt, NumberAt, ArrayAt, ObjectAt, Content;
    if Reads(c, o, "null") { WordFirst(c, o, "null"); }
    if Reads(c, o, "false") { WordFirst(c, o, "false"); }
    if Reads(c, o, "true") { WordFirst(c, o, "true"); }
  }

  lemma NotBlank(c: string, o: nat)
    requires o < |c| && !IsBlank(c[o])
    ensures SkipBlanks(c, o) == o
  {
  }

  lemma EndOfContent(c: string)
    requires Content(c)
    ensures SkipBlanks(c, |c| - 1) == |c| - 1
  {
    assert SkipBlanks(c, |c|) == |c| - 1;
  }
}

/** String literals by section 7 of RFC 8259: what every escape stands for, and which bodies are refused. */
module JsonLiterals {

  import opened CStrings
  import opened JsonParser
  import opened JsonReading
  import opened JsonStrings
  import opened JsonText
  import opened JsonTree
  import opened Options
  import opened Sequences

  // ----- hexadecimal digits -----

  const LOWER_DIGITS: string := "0123456789abcdef"
  const UPPER_DIGITS: string := "0123456789ABCDEF"

  /** In either letter case. */
  predicate IsDigit(x: char, d: nat) {
    d < 16 && (x == LOWER_DIGITS[d] || x == UPPER_DIGITS[d])
  }

  /** Four digits that spell a number. */
  predicate Spells(h: string, n: nat) {
    && |h| == 4 && n < 65536
    && IsDigit(h[0], n / 4096) && IsDigit(h[1], n / 256 % 16) && IsDigit(h[2], n / 16 % 16) && IsDigit(h[3], n % 16)
  }

  lemma DigitValue(x: char, d: nat)
    requires IsDigit(x, d)
    ensures HexValue(x) == d
  {
  }

  lemma SpelledValue(h: string, n: nat)
    requires Spells(h, n)
    ensures Hex4(h) == n
  {
    hide IsDigit, Hex4;
    DigitValue(h[0], n / 4096);
    DigitValue(h[1], n / 256 % 16);
    DigitValue(h[2], n / 16 % 16);
    DigitValue(h[3], n % 16);
    Hex4Is(h, n / 4096, n / 256 % 16, n / 16 % 16, n % 16);
    Composed(n);
  }

  lemma Hex4Is(h: string, a: nat, b: nat, c: nat, d: nat)
    requires |h| == 4 && HexValue(h[0]) == a && HexValue(h[1]) == b && HexValue(h[2]) == c && HexValue(h[3]) == d
    ensures Hex4(h) == ((a * 16 + b) * 16 + c) * 16 + d
  {
    hide HexValue;
    assert AllHex(h) by {
      forall i | 0 <= i < |h| ensures HexValue(h[i]) >= 0 { assert i == 0 || i == 1 || i == 2 || i == 3; }
    }
  }

  lemma Composed(n: nat)
    requires n < 65536
    ensures n == ((n / 4096 * 16 + n / 256 % 16) * 16 + n / 16 % 16) * 16 + n % 16
  {
  }

  /** Four characters are the number that they spell; zero if one of them is no digit. */
  lemma SpelledOrZero(h: string)
    requires |h| == 4
    ensures Spells(h, Hex4(h)) || (Hex4(h) == 0 && exists i: nat :: i < 4 && NoDigit(h[i]))
  {
    hide HexValue, NoDigit, IsDigit, Spells, Hex4;
    ValueOfDigit(h[0]);
    ValueOfDigit(h[1]);
    ValueOfDigit(h[2]);
    ValueOfDigit(h[3]);
    if AllHex(h) {
      FourDigits(h, HexValue(h[0]), HexValue(h[1]), HexValue(h[2]), HexValue(h[3]));
      Hex4Is(h, HexValue(h[0]), HexValue(h[1]), HexValue(h[2]), HexValue(h[3]));
    } else {
      NotHex(h);
      var i: nat :| i < 4 && HexValue(h[i]) < 0;
      assert NoDigit(h[i]);
    }
  }

  lemma NotHex(h: string)
    requires |h| == 4 && !AllHex(h)
    ensures Hex4(h) == 0
  {
  }

  ghost predicate NoDigit(x: char) {
    forall d: nat :: !IsDigit(x, d)
  }

  lemma ValueOfDigit(x: char)
    ensures if HexValue(x) < 0 then NoDigit(x) else IsDigit(x, HexValue(x))
  {
  }

  lemma FourDigits(h: string, a: nat, b: nat, c: nat, d: nat)
    requires |h| == 4 && IsDigit(h[0], a) && IsDigit(h[1], b) && IsDigit(h[2], c) && IsDigit(h[3], d)
    ensures Spells(h, ((a * 16 + b) * 16 + c) * 16 + d)
  {
    hide *;
    DigitBelow(h[0], a);
    DigitBelow(h[1], b);
    DigitBelow(h[2], c);
    DigitBelow(h[3], d);
    Digits16(a, b, c, d);
    SpellsIs(h, ((a * 16 + b) * 16 + c) * 16 + d);
  }

  lemma DigitBelow(x: char, d: nat)
    requires IsDigit(x, d)
    ensures d < 16
  {
  }

  lemma Digits16(a: nat, b: nat, c: nat, d: nat)
    requires a < 16 && b < 16 && c < 16 && d < 16
    ensures var n := ((a * 16 + b) * 16 + c) * 16 + d;
      n < 65536 && n / 4096 == a && n / 256 % 16 == b && n / 16 % 16 == c && n % 16 == d
  {
  }

  lemma SpellsIs(h: string, n: nat)
    requires |h| == 4 && n < 65536 && IsDigit(h[0], n / 4096) && IsDigit(h[1], n / 256 % 16) && IsDigit(h[2], n / 16 % 16) && IsDigit(h[3], n % 16)
    ensures Spells(h, n)
  {
  }

  lemma DigitUnescaped(x: char, d: nat)
    requires IsDigit(x, d)
    ensures x != '"' && x != '\\' && x != NUL
  {
  }

  // ----- the pieces of a literal -----

  /** A character as it is, an escape of one letter, a code point below 0x10000 in four digits, or one above in the two
      halves of its surrogate pair. */
  datatype Piece = Plain(x: char) | Short(letter: char) | Unit(digits: string, n: nat) | Pair(high: string, low: string, cp: nat)

  predicate PieceOk(p: Piece) {
    match p
    case Plain(x) => x != '"' && x != '\\' && x != NUL
    case Short(letter) => letter == '"' || letter == '\\' || letter == '/' || letter == 'b' || letter == 'f' || letter == 'n' || letter == 'r' || letter == 't'
    case Unit(digits, n) => Spells(digits, n) && !(0xD800 <= n <= 0xDFFF)
    case Pair(high, low, cp) =>
      && 0x10000 <= cp <= 0x10FFFF
      && Spells(high, 0xD800 + (cp - 0x10000) / 1024) && Spells(low, 0xDC00 + (cp - 0x10000) % 1024)
  }

  function Spelling(p: Piece): string {
    match p
    case Plain(x) => [x]
    case Short(letter) => ['\\', letter]
    case Unit(digits, _) => "\\u" + digits
    case Pair(high, low, _) => "\\u" + high + "\\u" + low
  }

  /** The character numbers of section 7 of RFC 8259. */
  function ShortMeaning(letter: char): char {
    if letter == 'b' then 0x08 as char
    else if letter == 't' then 0x09 as char
    else if letter == 'n' then 0x0A as char
    else if letter == 'f' then 0x0C as char
    else if letter == 'r' then 0x0D as char
    else if letter == '"' then 0x22 as char
    else if letter == '/' then 0x2F as char
    else 0x5C as char
  }

  /** What a piece stands for; a code point in UTF-8. */
  function Meaning(p: Piece): string
    requires PieceOk(p)
  {
    match p
    case Plain(x) => [x]
    case Short(letter) => [ShortMeaning(letter)]
    case Unit(_, n) => Utf8(n)
    case Pair(_, _, cp) => Utf8(cp)
  }

  predicate AllOk(ps: seq<Piece>) {
    forall i :: 0 <= i < |ps| ==> PieceOk(ps[i])
  }

  function SpellAll(ps: seq<Piece>): string {
    if ps == [] then "" else Spelling(ps[0]) + SpellAll(ps[1..])
  }

  function MeanAll(ps: seq<Piece>): string
    requires AllOk(ps)
  {
    if ps == [] then "" else Meaning(ps[0]) + MeanAll(ps[1..])
  }

  // ----- one piece -----

  lemma UnitDecoded(c: string, o: nat, end: nat, digits: string, n: nat)
    requires PieceOk(Unit(digits, n)) && Reads(c, o, Spelling(Unit(digits, n))) && o + 6 <= end < |c|
    ensures c[o] == '\\' && c[o + 1] == 'u' && Utf16(c, o, end) == Some(Literal(n, 6))
  {
    hide Spells, Hex4;
    var s := Spelling(Unit(digits, n));
    assert |digits| == 4 by { SpellsLength(digits, n); }
    assert c[o] == c[o..o + 6][0] && c[o + 1] == c[o..o + 6][1];
    assert c[o + 2..o + 6] == c[o..o + 6][2..] == digits;
    SpelledValue(digits, n);
  }

  lemma SpellsLength(h: string, n: nat)
    requires Spells(h, n)
    ensures |h| == 4 && n < 65536
  {
  }

  lemma PairDecoded(c: string, o: nat, end: nat, high: string, low: string, cp: nat)
    requires PieceOk(Pair(high, low, cp)) && Reads(c, o, Spelling(Pair(high, low, cp))) && o + 12 <= end < |c|
    ensures c[o] == '\\' && c[o + 1] == 'u' && Utf16(c, o, end) == Some(Literal(cp, 12))
  {
    hide Spells, Hex4, Reads;
    var v := cp - 0x10000;
    SpellsLength(high, 0xD800 + v / 1024);
    SpellsLength(low, 0xDC00 + v % 1024);
    PairSlices(c, o, high, low);
    SpelledValue(high, 0xD800 + v / 1024);
    SpelledValue(low, 0xDC00 + v % 1024);
    Halves1024(v);
  }

  lemma PairSlices(c: string, o: nat, high: string, low: string)
    requires |high| == 4 && |low| == 4 && Reads(c, o, "\\u" + high + "\\u" + low)
    ensures o + 12 <= |c| && c[o] == '\\' && c[o + 1] == 'u' && c[o + 6] == '\\' && c[o + 7] == 'u'
    ensures c[o + 2..o + 6] == high && c[o + 8..o + 12] == low
  {
    var s := "\\u" + high + "\\u" + low;
    assert |s| == 12 && c[o..o + 12] == s;
    forall i | 0 <= i < 12 ensures c[o + i] == s[i] { assert c[o + i] == c[o..o + 12][i]; }
    assert s[..6] == "\\u" + high && s[6..] == "\\u" + low;
    assert s[2..6] == high && s[8..12] == low;
  }

  /** The halves of a surrogate pair hold ten bits each. */
  lemma Halves1024(v: nat)
    requires v < 0x100000
    ensures (0xD800 + v / 1024) % 1024 == v / 1024 && (0xDC00 + v % 1024) % 1024 == v % 1024 && v / 1024 * 1024 + v % 1024 == v
  {
  }

  lemma PieceLength(p: Piece)
    requires PieceOk(p)
    ensures |Spelling(p)| == match p case Plain(_) => 1 case Short(_) => 2 case Unit(_, _) => 6 case Pair(_, _, _) => 12
  {
    hide IsDigit;
  }

  /** The second pass makes of a piece what it stands for. */
  lemma PieceUnescaped(c: string, o: nat, p: Piece, end: nat)
    requires PieceOk(p) && Reads(c, o, Spelling(p)) && o + |Spelling(p)| <= end < |c|
    ensures Unescape(c, o, end) == Prefixed(Meaning(p), Unescape(c, o + |Spelling(p)|, end))
  {
    hide Unescape, Utf16, Utf8, Spells;
    PieceLength(p);
    UnescapeStep(c, o, end);
    match p
    case Plain(x) => assert c[o] == c[o..o + 1][0] == x;
    case Short(letter) => assert c[o] == c[o..o + 2][0] == '\\' && c[o + 1] == c[o..o + 2][1] == letter;
    case Unit(digits, n) => UnitDecoded(c, o, end, digits, n);
    case Pair(high, low, cp) => PairDecoded(c, o, end, high, low, cp);
  }

  lemma {:induction false} ClosingBehind(c: string, o: nat, n: nat)
    requires o + n < |c| && forall i :: o <= i < o + n ==> c[i] != '"' && c[i] != '\\'
    ensures Closing(c, o) == Closing(c, o + n)
    decreases n
  {
    if n > 0 {
      ClosingPlain(c, o);
      ClosingBehind(c, o + 1, n - 1);
    }
  }

  lemma DigitsPlain(c: string, o: nat, h: string, n: nat)
    requires Spells(h, n) && Reads(c, o, h)
    ensures forall i :: o <= i < o + 4 ==> c[i] != '"' && c[i] != '\\'
  {
    hide IsDigit;
    DigitUnescaped(h[0], n / 4096);
    DigitUnescaped(h[1], n / 256 % 16);
    DigitUnescaped(h[2], n / 16 % 16);
    DigitUnescaped(h[3], n % 16);
    forall i | o <= i < o + 4 ensures c[i] == h[i - o] { assert c[i] == c[o..o + 4][i - o]; }
  }

  predicate SameEnd(c: string, o: nat, q: nat)
    requires o <= |c| && q <= |c|
  {
    Closing(c, q).Some? ==> Closing(c, o).Some? && Closing(c, o).value.end == Closing(c, q).value.end
  }

  lemma EscapePassed(c: string, o: nat)
    requires o + 2 <= |c| && c[o] == '\\'
    ensures SameEnd(c, o, o + 2)
  {
    ClosingPair(c, o);
  }

  lemma UnitPassed(c: string, o: nat, h: string, n: nat)
    requires Spells(h, n) && Reads(c, o, "\\u" + h) && o + 6 < |c|
    ensures SameEnd(c, o, o + 6)
  {
    hide Spells, Closing;
    SpellsLength(h, n);
    var s := "\\u" + h;
    assert c[o] == c[o..o + 6][0];
    assert c[o + 2..o + 6] == c[o..o + 6][2..] == h;
    DigitsPlain(c, o + 2, h, n);
    ClosingBehind(c, o + 2, 4);
    EscapePassed(c, o);
  }

  /** The first pass finds no closing quotation mark in a piece. */
  lemma PiecePassed(c: string, o: nat, p: Piece)
    requires PieceOk(p) && Reads(c, o, Spelling(p)) && o + |Spelling(p)| < |c|
    ensures SameEnd(c, o, o + |Spelling(p)|)
  {
    hide Closing, Spells;
    PieceLength(p);
    match p
    case Plain(x) =>
      assert c[o] == c[o..o + 1][0] == x;
      ClosingPlain(c, o);
    case Short(letter) =>
      assert c[o] == c[o..o + 2][0];
      EscapePassed(c, o);
    case Unit(digits, n) => UnitPassed(c, o, digits, n);
    case Pair(high, low, cp) =>
      var s, v := Spelling(p), cp - 0x10000;
      SpellsLength(high, 0xD800 + v / 1024);
      SpellsLength(low, 0xDC00 + v % 1024);
      assert c[o..o + 6] == c[o..o + 12][..6] == "\\u" + high;
      assert c[o + 6..o + 12] == c[o..o + 12][6..] == "\\u" + low;
      UnitPassed(c, o, high, 0xD800 + v / 1024);
      UnitPassed(c, o + 6, low, 0xDC00 + v % 1024);
  }

  // ----- the whole literal -----

  lemma FirstPiece(c: string, o: nat, ps: seq<Piece>, rest: string)
    requires At(c, o, SpellAll(ps), "\"" + rest) && ps != []
    ensures Reads(c, o, Spelling(ps[0])) && o + |Spelling(ps[0])| < |c|
    ensures At(c, o + |Spelling(ps[0])|, SpellAll(ps[1..]), "\"" + rest)
    ensures |SpellAll(ps)| == |Spelling(ps[0])| + |SpellAll(ps[1..])|
  {
    hide Spelling;
    var e := Spelling(ps[0]);
    Regroup(c, o, e, SpellAll(ps[1..]), "\"" + rest);
    Next(c, o, e, SpellAll(ps[1..]) + ("\"" + rest));
    assert |c[o + |e|..]| > 0;
  }

  lemma {:induction false} PiecesClosed(c: string, o: nat, ps: seq<Piece>, rest: string)
    requires At(c, o, SpellAll(ps), "\"" + rest) && AllOk(ps)
    ensures Closing(c, o).Some? && Closing(c, o).value.end == o + |SpellAll(ps)|
    decreases |ps|
  {
    hide Spelling, PieceOk, Closing;
    if ps == [] {
      assert c[o] == c[o..][0] == '"';
      ClosingHere(c, o);
    } else {
      FirstPiece(c, o, ps, rest);
      PiecesClosed(c, o + |Spelling(ps[0])|, ps[1..], rest);
      PiecePassed(c, o, ps[0]);
    }
  }

  lemma {:induction false} PiecesUnescaped(c: string, o: nat, ps: seq<Piece>, rest: string)
    requires At(c, o, SpellAll(ps), "\"" + rest) && AllOk(ps)
    ensures o + |SpellAll(ps)| < |c|
    ensures Unescape(c, o, o + |SpellAll(ps)|) == (Some(MeanAll(ps)), o + |SpellAll(ps)|)
    decreases |ps|
  {
    hide Unescape, Spelling, Meaning, PieceOk;
    var end := o + |SpellAll(ps)|;
    Next(c, o, SpellAll(ps), "\"" + rest);
    assert |c[end..]| > 0;
    if ps == [] {
      UnescapeEnd(c, o, end);
    } else {
      FirstPiece(c, o, ps, rest);
      PiecesUnescaped(c, o + |Spelling(ps[0])|, ps[1..], rest);
      PieceUnescaped(c, o, ps[0], end);
    }
  }

  /** A literal with its quotation marks. */
  function Literally(ps: seq<Piece>): string {
    "\"" + SpellAll(ps) + "\""
  }

  /** Wherever a literal stands it is read as what its pieces stand for; a zero character ends the C string. */
  lemma LiteralParses(c: string, o: nat, ps: seq<Piece>, rest: string)
    requires At(c, o, Literally(ps), rest) && AllOk(ps)
    ensures o < |c| && c[o] == '"'
    ensures StringAt(c, o) == (Some(CString(MeanAll(ps))), o + |Literally(ps)|)
  {
    hide Unescape, Closing, SpellAll, MeanAll, CString;
    assert c[o] == c[o..][0] == '"';
    assert c[o + 1..] == c[o..][1..];
    assert (Literally(ps) + rest)[1..] == SpellAll(ps) + ("\"" + rest);
    PiecesClosed(c, o + 1, ps, rest);
    PiecesUnescaped(c, o + 1, ps, rest);
  }

  lemma {:induction false} LiteralNulFree(ps: seq<Piece>)
    requires AllOk(ps)
    ensures NulFree(SpellAll(ps))
  {
    hide PieceOk, Spelling;
    if ps != [] {
      PieceNulFree(ps[0]);
      LiteralNulFree(ps[1..]);
      NulFreeConcat(Spelling(ps[0]), SpellAll(ps[1..]));
    }
  }

  lemma SpelledNulFree(h: string, n: nat)
    requires Spells(h, n)
    ensures NulFree(h)
  {
    hide IsDigit;
    DigitUnescaped(h[0], n / 4096);
    DigitUnescaped(h[1], n / 256 % 16);
    DigitUnescaped(h[2], n / 16 % 16);
    DigitUnescaped(h[3], n % 16);
  }

  lemma PieceNulFree(p: Piece)
    requires PieceOk(p)
    ensures NulFree(Spelling(p))
  {
    hide Spells;
    match p
    case Unit(digits, n) => SpelledNulFree(digits, n);
    case Pair(high, low, cp) =>
      SpelledNulFree(high, 0xD800 + (cp - 0x10000) / 1024);
      SpelledNulFree(low, 0xDC00 + (cp - 0x10000) % 1024);
    case _ =>
  }

  /** A text that is a literal is parsed to the string that its pieces stand for. */
  lemma LiteralIsParsed(ps: seq<Piece>, requireNullTerminated: bool, scan: Scanner)
    requires AllOk(ps)
    ensures NulFree(Literally(ps))
    ensures ParseWithOpts(Literally(ps), requireNullTerminated, scan) == (Some(String(CString(MeanAll(ps)))), |Literally(ps)|)
  {
    hide StringAt, SpellAll, MeanAll, CString, SkipBlanks, ValueAt;
    LiteralNulFree(ps);
    var value := Literally(ps);
    NulFreeConcat("\"", SpellAll(ps));
    NulFreeConcat("\"" + SpellAll(ps), "\"");
    var c := value + [NUL];
    assert c[..|c| - 1] == value && c[0..] == c && c[0] == '"';
    if |c| > 4 { assert c[0..3][0] == '"'; }
    NotBlank(c, 0);
    LiteralParses(c, 0, ps, [NUL]);
    ValueAtFirst(c, 0, 0, scan);
    EndOfContent(c);
  }

  /** A surrogate pair is one code point in UTF-8, in digits of either letter case. */
  lemma PairIsCodePoint(high: string, low: string, cp: nat, scan: Scanner)
    requires 0x10000 <= cp <= 0x10FFFF
    requires Spells(high, 0xD800 + (cp - 0x10000) / 1024) && Spells(low, 0xDC00 + (cp - 0x10000) % 1024)
    ensures NulFree("\"\\u" + high + "\\u" + low + "\"")
    ensures var (t, end) := ParseWithOpts("\"\\u" + high + "\\u" + low + "\"", true, scan);
      t.Some? && t.value.String? && |t.value.text| == 4 && Utf8Value(t.value.text) == cp
  {
    hide Spells, ParseWithOpts;
    var ps := [Pair(high, low, cp)];
    LiteralIsParsed(ps, true, scan);
    assert ps[1..] == [];
    assert SpellAll(ps) == "\\u" + high + "\\u" + low + "";
    assert Literally(ps) == "\"\\u" + high + "\\u" + low + "\"";
    Utf8RoundTrip(cp);
    Utf8Shape(cp);
    assert MeanAll(ps) == Utf8(cp) + "" == Utf8(cp);
    Utf8NulFree(cp);
    CStringIs(Utf8(cp));
  }

  /** Four digits are one code point; only zero is lost, as it ends the string. */
  lemma UnitIsCodePoint(digits: string, n: nat, scan: Scanner)
    requires Spells(digits, n) && !(0xD800 <= n <= 0xDFFF)
    ensures NulFree("\"\\u" + digits + "\"")
    ensures var (t, end) := ParseWithOpts("\"\\u" + digits + "\"", true, scan);
      t.Some? && t.value.String? && if n == 0 then t.value.text == "" else Utf8Value(t.value.text) == n
  {
    hide Spells, ParseWithOpts;
    SpellsLength(digits, n);
    var ps := [Unit(digits, n)];
    LiteralIsParsed(ps, true, scan);
    assert ps[1..] == [];
    assert SpellAll(ps) == "\\u" + digits + "";
    assert Literally(ps) == "\"\\u" + digits + "\"";
    Utf8RoundTrip(n);
    assert MeanAll(ps) == Utf8(n) + "" == Utf8(n);
    if n != 0 {
      Utf8NulFree(n);
      CStringIs(Utf8(n));
    }
  }

  lemma Utf8NulFree(cp: nat)
    requires 0 < cp <= 0x10FFFF
    ensures NulFree(Utf8(cp))
  {
  }

  // ----- what is refused -----

  /** The digits of a unit at `p`. */
  function UnitAt(c: string, p: nat): nat
    requires p + 6 <= |c|
  {
    Hex4(c[p + 2..p + 6])
  }

  /** A backslash that begins no escape: another letter behind it, too little in front of the end, a low surrogate
      alone, or a high one without its low one. */
  predicate NoEscape(c: string, p: nat, end: nat)
    requires p < end < |c| && c[p] == '\\'
  {
    var x := c[p + 1];
    if x == 'u' then
      || p + 6 > end || 0xDC00 <= UnitAt(c, p) <= 0xDFFF
      || (0xD800 <= UnitAt(c, p) <= 0xDBFF
          && (p + 12 > end || c[p + 6] != '\\' || c[p + 7] != 'u' || !(0xDC00 <= UnitAt(c, p + 6) <= 0xDFFF)))
    else !PieceOk(Short(x))
  }

  /** The second pass stops at a backslash exactly when it begins no escape. */
  lemma RefusedIff(c: string, p: nat, end: nat)
    requires p < end < |c| && c[p] == '\\'
    ensures Unescape(c, p, end) == (None, p) <==> NoEscape(c, p, end)
  {
    hide Hex4, Utf8;
    UnescapeStep(c, p, end);
    if !NoEscape(c, p, end) {
      StopsBehind(c, p, end);
    }
  }

  lemma {:induction false} StopsBehind(c: string, p: nat, end: nat)
    requires p < end < |c| && c[p] == '\\' && !NoEscape(c, p, end)
    ensures Unescape(c, p, end) != (None, p)
  {
    hide Hex4, Utf8;
    var len := if c[p + 1] != 'u' then 2 else if 0xD800 <= UnitAt(c, p) <= 0xDBFF then 12 else 6;
    UnescapeLater(c, p + len, end);
  }

  lemma {:induction false} UnescapeLater(c: string, p: nat, end: nat)
    requires end < |c| && p <= end + 1
    ensures Unescape(c, p, end).1 >= p
    decreases end + 1 - p
  {
    hide Utf8, Utf16;
    if p < end {
      if c[p] != '\\' {
        UnescapeLater(c, p + 1, end);
      } else if c[p + 1] == 'u' {
        var l := Utf16(c, p, end);
        if l.Some? { UnescapeLater(c, p + l.value.length, end); }
      } else if Unletter(c[p + 1]) != NUL {
        UnescapeLater(c, p + 2, end);
      }
    }
  }
}

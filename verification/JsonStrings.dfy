/** String literals as cJSON.c reads them: a first pass that finds the closing quotation mark and the
    size of the result, and a second one that writes the result. */
module JsonStrings {

  import opened CStrings
  import opened JsonText
  import opened Options
  import opened Sequences

  // ----- four hexadecimal digits -----

  function HexValue(c: char): (v: int)
    ensures -1 <= v < 16
  {
    if '0' <= c <= '9' then c as int - '0' as int
    else if 'A' <= c <= 'F' then 10 + c as int - 'A' as int
    else if 'a' <= c <= 'f' then 10 + c as int - 'a' as int
    else -1
  }

  predicate AllHex(s: string) {
    forall i :: 0 <= i < |s| ==> HexValue(s[i]) >= 0
  }

  /** The number, or zero if one of the characters is no digit. */
  function Hex4(s: string): (h: nat)
    requires |s| == 4
    ensures h < 65536
  {
    if AllHex(s) then ((HexValue(s[0]) * 16 + HexValue(s[1])) * 16 + HexValue(s[2])) * 16 + HexValue(s[3]) else 0
  }

  method ParseHex4(s: string) returns (h: nat)
    requires |s| == 4
    ensures h == Hex4(s)
  {
    var v: nat := 0;
    var i := 0;
    while i < 4
      invariant 0 <= i <= 4 && AllHex(s[..i])
      invariant i == 0 ==> v == 0
      invariant i == 1 ==> v == HexValue(s[0]) * 16
      invariant i == 2 ==> v == (HexValue(s[0]) * 16 + HexValue(s[1])) * 16
      invariant i == 3 ==> v == ((HexValue(s[0]) * 16 + HexValue(s[1])) * 16 + HexValue(s[2])) * 16
      invariant i == 4 ==> v == Hex4(s)
    {
      var d := HexValue(s[i]);
      if d < 0 {
        return 0;
      }
      v := v + d;
      if i < 3 {
        v := v * 16;
      }
      assert s[..i + 1] == s[..i] + [s[i]];
      i := i + 1;
      assert i == 4 ==> s[..4] == s;
    }
    h := v;
  }

  // ----- UTF-8 -----

  /** Section 3 of RFC 3629. */
  function Utf8(cp: nat): (s: string)
    requires cp <= 0x10FFFF
    ensures 1 <= |s| <= 4
  {
    if cp < 0x80 then [cp as char]
    else if cp < 0x800 then [(0xC0 + cp / 64) as char, Tail(cp)]
    else if cp < 0x10000 then [(0xE0 + cp / 64 / 64) as char, Tail(cp / 64), Tail(cp)]
    else [(0xF0 + cp / 64 / 64 / 64) as char, Tail(cp / 64 / 64), Tail(cp / 64), Tail(cp)]
  }

  function Tail(cp: nat): char {
    (0x80 + cp % 64) as char
  }

  /** What a UTF-8 decoder makes of a sequence: the bits of the first byte and of its followers. */
  function Utf8Value(s: string): int {
    if |s| == 1 then s[0] as int
    else if |s| == 2 then (s[0] as int - 0xC0) * 64 + Low(s[1])
    else if |s| == 3 then ((s[0] as int - 0xE0) * 64 + Low(s[1])) * 64 + Low(s[2])
    else if |s| == 4 then (((s[0] as int - 0xF0) * 64 + Low(s[1])) * 64 + Low(s[2])) * 64 + Low(s[3])
    else -1
  }

  function Low(c: char): int {
    c as int - 0x80
  }

  /** Decoding gives the code point back; every byte is a byte, and the first one tells the length. */
  lemma Utf8RoundTrip(cp: nat)
    requires cp <= 0x10FFFF
    ensures Utf8Value(Utf8(cp)) == cp
  {
    var a := cp / 64;
    var b := a / 64;
    var d := b / 64;
    assert cp == a * 64 + cp % 64 && a == b * 64 + a % 64 && b == d * 64 + b % 64;
  }

  lemma Utf8Shape(cp: nat)
    requires cp <= 0x10FFFF
    ensures forall i :: 0 <= i < |Utf8(cp)| ==> Utf8(cp)[i] as int < 256
    ensures forall i :: 1 <= i < |Utf8(cp)| ==> 0x80 <= Utf8(cp)[i] as int < 0xC0
    ensures var b := Utf8(cp)[0] as int;
      |Utf8(cp)| == if b < 0x80 then 1 else if b < 0xE0 then 2 else if b < 0xF0 then 3 else 4
    ensures |Utf8(cp)| == if cp <= 0x7F then 1 else if cp <= 0x7FF then 2 else if cp <= 0xFFFF then 3 else 4
  {
  }

  datatype Literal = Literal(codepoint: nat, length: nat)

  /** The code point of the literal at `p`, one or two sequences of six characters. */
  function Utf16(c: string, p: nat, end: nat): (r: Option<Literal>)
    requires p <= end <= |c|
    ensures r.Some? ==> r.value.codepoint <= 0x10FFFF && (r.value.length == 6 || r.value.length == 12) && p + r.value.length <= end
    ensures r.Some? && r.value.length == 6 ==> r.value.codepoint < 0x10000
  {
    if end - p < 6 then None
    else
      var first := Hex4(c[p + 2..p + 6]);
      if 0xDC00 <= first <= 0xDFFF then None
      else if 0xD800 <= first <= 0xDBFF then
        if end - (p + 6) < 6 then None
        else if c[p + 6] != '\\' || c[p + 7] != 'u' then None
        else
          var second := Hex4(c[p + 8..p + 12]);
          if second < 0xDC00 || second > 0xDFFF then None
          else Some(Literal(0x10000 + first % 1024 * 1024 + second % 1024, 12))
      else Some(Literal(first, 6))
  }

  /** `utf16_literal_to_utf8`: the bytes are written from the last one to the first. */
  method Utf16ToUtf8(c: string, p: nat, end: nat, output: array<char>, op: nat) returns (sequence: nat, op': nat)
    requires p <= end <= |c|
    requires Utf16(c, p, end).Some? ==> op + |Utf8(Utf16(c, p, end).value.codepoint)| <= output.Length
    modifies output
    ensures Utf16(c, p, end) == None ==> sequence == 0 && op' == op && output[..] == old(output[..])
    ensures Utf16(c, p, end).Some? ==>
      var bytes := Utf8(Utf16(c, p, end).value.codepoint);
      && sequence == Utf16(c, p, end).value.length && op' == op + |bytes|
      && output[..op'] == old(output[..op]) + bytes
  {
    if end - p < 6 {
      return 0, op;
    }
    var codepoint: nat;
    var first := ParseHex4(c[p + 2..p + 6]);
    if 0xDC00 <= first <= 0xDFFF {
      return 0, op;
    }
    if 0xD800 <= first <= 0xDBFF {
      sequence := 12;
      if end - (p + 6) < 6 {
        return 0, op;
      }
      if c[p + 6] != '\\' || c[p + 7] != 'u' {
        return 0, op;
      }
      var second := ParseHex4(c[p + 8..p + 12]);
      if second < 0xDC00 || second > 0xDFFF {
        return 0, op;
      }
      codepoint := 0x10000 + first % 1024 * 1024 + second % 1024;
    } else {
      sequence := 6;
      codepoint := first;
    }
    op' := WriteUtf8(codepoint, output, op);
  }

  method WriteUtf8(codepoint: nat, output: array<char>, op: nat) returns (op': nat)
    requires codepoint <= 0x10FFFF && op + |Utf8(codepoint)| <= output.Length
    modifies output
    ensures op' == op + |Utf8(codepoint)| && output[..op'] == old(output[..op]) + Utf8(codepoint)
  {
    var length, mark := 1, 0;
    if codepoint < 0x80 {
    } else if codepoint < 0x800 {
      length, mark := 2, 0xC0;
    } else if codepoint < 0x10000 {
      length, mark := 3, 0xE0;
    } else {
      length, mark := 4, 0xF0;
    }
    Utf8Bytes(codepoint, length, mark);
    op' := WriteBytes(codepoint, length, mark, output, op);
  }

  method WriteBytes(codepoint: nat, length: nat, mark: nat, output: array<char>, op: nat) returns (op': nat)
    requires codepoint <= 0x10FFFF && |Utf8(codepoint)| == length && op + length <= output.Length
    requires mark + Shifted(codepoint, length - 1) < 256 && Utf8(codepoint)[0] == (mark + Shifted(codepoint, length - 1)) as char
    modifies output
    ensures op' == op + length && output[..op'] == old(output[..op]) + Utf8(codepoint)
  {
    ghost var bytes := Utf8(codepoint);
    hide Utf8, Shifted, Tail;
    ShiftedZero(codepoint);
    var rest: nat, position: nat := codepoint, length - 1;
    while position > 0
      invariant 0 <= position < length == |bytes|
      invariant forall j :: 0 <= j < op ==> output[j] == old(output[j])
      invariant forall j :: position < j < length ==> output[op + j] == bytes[j]
      invariant rest == Shifted(codepoint, length - 1 - position)
    {
      Utf8Byte(codepoint, position);
      ShiftedStep(codepoint, length - 1 - position);
      output[op + position] := Tail(rest);
      rest := rest / 64;
      position := position - 1;
    }
    output[op] := (mark + rest) as char;
    op' := op + length;
    assert forall j :: op <= j < op' ==> output[j] == bytes[j - op];
  }

  /** The code point without its last `n` groups of six bits. */
  function Shifted(cp: nat, n: nat): nat {
    if n == 0 then cp else Shifted(cp, n - 1) / 64
  }

  lemma ShiftedZero(cp: nat)
    ensures Shifted(cp, 0) == cp
  {
  }

  lemma ShiftedStep(cp: nat, n: nat)
    ensures Shifted(cp, n + 1) == Shifted(cp, n) / 64
  {
  }

  lemma Utf8Bytes(cp: nat, length: nat, mark: nat)
    requires cp <= 0x10FFFF
    requires length == if cp < 0x80 then 1 else if cp < 0x800 then 2 else if cp < 0x10000 then 3 else 4
    requires mark == if cp < 0x80 then 0 else if cp < 0x800 then 0xC0 else if cp < 0x10000 then 0xE0 else 0xF0
    ensures |Utf8(cp)| == length && mark + Shifted(cp, length - 1) < 256 && Utf8(cp)[0] == (mark + Shifted(cp, length - 1)) as char
  {
    ShiftedThrice(cp);
  }

  lemma Utf8Byte(cp: nat, i: nat)
    requires cp <= 0x10FFFF && 1 <= i < |Utf8(cp)|
    ensures Utf8(cp)[i] == Tail(Shifted(cp, |Utf8(cp)| - 1 - i))
  {
    ShiftedThrice(cp);
  }

  lemma ShiftedThrice(cp: nat)
    ensures Shifted(cp, 0) == cp && Shifted(cp, 1) == cp / 64 && Shifted(cp, 2) == cp / 64 / 64 && Shifted(cp, 3) == cp / 64 / 64 / 64
  {
    assert Shifted(cp, 1) == cp / 64 && Shifted(cp, 2) == cp / 64 / 64 && Shifted(cp, 3) == cp / 64 / 64 / 64 by {
      ShiftedStep(cp, 0);
      ShiftedStep(cp, 1);
      ShiftedStep(cp, 2);
    }
  }

  // ----- the first pass -----

  datatype Measure = Measure(end: nat, skipped: nat)

  /** The closing quotation mark from `i` on, and how many escapes start in front of it. */
  function Closing(c: string, i: nat): (r: Option<Measure>)
    requires i <= |c|
    ensures r.Some? ==> i <= r.value.end < |c| && c[r.value.end] == '"'
    decreases |c| - i
  {
    if i == |c| then None
    else if c[i] == '"' then Some(Measure(i, 0))
    else if c[i] == '\\' then
      if i + 1 >= |c| then None
      else
        var rest := Closing(c, i + 2);
        if rest == None then None else Some(Measure(rest.value.end, rest.value.skipped + 1))
    else Closing(c, i + 1)
  }

  method MeasureString(c: string, start: nat) returns (r: Option<Measure>)
    requires start <= |c|
    ensures r == Closing(c, start)
  {
    var end, skipped := start, 0;
    while end < |c| && c[end] != '"'
      invariant start <= end <= |c|
      invariant Closing(c, start) == Later(Closing(c, end), skipped)
    {
      if c[end] == '\\' {
        if end + 1 >= |c| {
          return None;
        }
        skipped := skipped + 1;
        end := end + 1;
      }
      end := end + 1;
    }
    if end >= |c| || c[end] != '"' {
      return None;
    }
    return Some(Measure(end, skipped));
  }

  function Later(r: Option<Measure>, skipped: nat): Option<Measure> {
    if r == None then None else Some(Measure(r.value.end, r.value.skipped + skipped))
  }

  // ----- the second pass -----

  /** What `\` and `x` stand for, if they are a one-character escape. */
  function Unletter(x: char): char {
    if x == 'b' then 8 as char
    else if x == 'f' then 12 as char
    else if x == 'n' then '\n'
    else if x == 'r' then '\r'
    else if x == 't' then '\t'
    else if x == '"' || x == '\\' || x == '/' then x
    else NUL
  }

  /** What the body from `p` to `end` stands for, or where it goes wrong. A backslash directly in front
      of `end` takes the quotation mark there with it. */
  function Unescape(c: string, p: nat, end: nat): (r: (Option<string>, nat))
    requires end < |c| && p <= end + 1
    ensures r.0 == None ==> r.1 <= end
    decreases end + 1 - p
  {
    if p >= end then (Some(""), p)
    else if c[p] != '\\' then Prefixed([c[p]], Unescape(c, p + 1, end))
    else if c[p + 1] == 'u' then
      var l := Utf16(c, p, end);
      if l == None then (None, p) else Prefixed(Utf8(l.value.codepoint), Unescape(c, p + l.value.length, end))
    else if Unletter(c[p + 1]) == NUL then (None, p)
    else Prefixed([Unletter(c[p + 1])], Unescape(c, p + 2, end))
  }

  function Prefixed(s: string, r: (Option<string>, nat)): (Option<string>, nat) {
    (if r.0 == None then None else Some(s + r.0.value), r.1)
  }

  /** How many escapes the first pass, started at `i`, has seen in front of `p`. */
  function Starts(c: string, i: nat, p: nat): nat
    requires p <= |c|
    decreases |c| + 2 - i
  {
    if i >= p then 0
    else if c[i] == '\\' then 1 + Starts(c, i + 2, p)
    else Starts(c, i + 1, p)
  }

  /** Two escapes of the first pass do not overlap. */
  lemma {:induction false} StartsGrow(c: string, i: nat, p: nat, q: nat)
    requires i <= p <= q <= |c|
    ensures Starts(c, i, p) <= Starts(c, i, q) <= Starts(c, i, p) + (q - p + 1) / 2
    decreases q - i
  {
    if i < p {
      if c[i] == '\\' {
        if i + 2 <= p {
          StartsGrow(c, i + 2, p, q);
        } else {
          StartsFew(c, i + 2, q);
        }
      } else {
        StartsGrow(c, i + 1, p, q);
      }
    } else {
      StartsFew(c, i, q);
    }
  }

  lemma {:induction false} StartsFew(c: string, i: nat, q: nat)
    requires q <= |c|
    ensures Starts(c, i, q) <= if i <= q then (q - i + 1) / 2 else 0
    decreases |c| + 2 - i
  {
    if i < q {
      StartsFew(c, if c[i] == '\\' then i + 2 else i + 1, q);
    }
  }

  lemma {:induction false} StartsPlain(c: string, i: nat, p: nat)
    requires i <= p < |c| && c[p] != '\\'
    ensures Starts(c, i, p + 1) == Starts(c, i, p)
    decreases p - i
  {
    if i < p {
      if c[i] == '\\' {
        if i + 2 <= p { StartsPlain(c, i + 2, p); }
      } else {
        StartsPlain(c, i + 1, p);
      }
    }
  }

  /** The count of the first pass, and that no escape of it ends on the closing quotation mark. */
  lemma {:induction false} ClosingStarts(c: string, i: nat)
    requires i <= |c| && Closing(c, i).Some?
    ensures Closing(c, i).value.skipped == Starts(c, i, Closing(c, i).value.end)
    ensures var end := Closing(c, i).value.end; i < end ==> Starts(c, i, end - 1) == Starts(c, i, end) || c[end - 1] != '\\'
    decreases |c| - i
  {
    if c[i] == '"' {
    } else if c[i] == '\\' {
      ClosingStarts(c, i + 2);
    } else {
      ClosingStarts(c, i + 1);
    }
  }

  /** How much of the result can be written when the second pass is at `p`. */
  predicate Within(c: string, start: nat, end: nat, p: nat, op: nat)
    requires start <= end < |c|
  {
    && start <= p <= end + 1 && op + Starts(c, start, end) <= end - start
    && (p <= end ==> op + Starts(c, start, p) <= p - start)
  }

  /** A step over `len` characters of the body that writes `k`. */
  lemma StepWithin(c: string, start: nat, end: nat, p: nat, op: nat, len: nat, k: nat)
    requires start <= end < |c| && Within(c, start, end, p, op) && p + len <= end
    requires (len == 1 && k == 1 && c[p] != '\\') || (len == 2 && k == 1) || (len == 6 && k <= 3) || (len == 12 && k <= 4)
    ensures Within(c, start, end, p + len, op + k)
  {
    hide Starts;
    StartsGrow(c, start, p, p + len);
    StartsGrow(c, start, p + len, end);
    if len == 1 { StartsPlain(c, start, p); }
    Monotone(c, start, p + len, end);
  }

  lemma {:induction false} Monotone(c: string, i: nat, p: nat, q: nat)
    requires i <= p <= q <= |c|
    ensures Starts(c, i, q) <= Starts(c, i, p) + q - p
    decreases q - p
  {
    hide Starts;
    if p < q {
      StartsGrow(c, i, p, p + 1);
      Monotone(c, i, p + 1, q);
    }
  }

  /** A backslash in front of the closing quotation mark, where the passes are out of step. */
  lemma LastStepWithin(c: string, start: nat, end: nat, p: nat, op: nat)
    requires start <= end < |c| && Closing(c, start).Some? && Closing(c, start).value.end == end
    requires Within(c, start, end, p, op) && p + 1 == end && c[p] == '\\'
    ensures Within(c, start, end, p + 2, op + 1)
  {
    ClosingStarts(c, start);
  }

  lemma {:induction false} UnescapeWithin(c: string, start: nat, end: nat, p: nat, op: nat)
    requires start <= end < |c| && Closing(c, start).Some? && Closing(c, start).value.end == end && Within(c, start, end, p, op)
    ensures Unescape(c, p, end).0.Some? ==> op + |Unescape(c, p, end).0.value| + Starts(c, start, end) <= end - start
    decreases end + 1 - p
  {
    hide Closing, Starts, Unescape, Utf8, Utf16;
    if p >= end {
      UnescapeEnd(c, p, end);
    } else {
      UnescapeStep(c, p, end);
      if c[p] != '\\' {
        StepWithin(c, start, end, p, op, 1, 1);
        UnescapeWithin(c, start, end, p + 1, op + 1);
      } else if c[p + 1] == 'u' {
        var l := Utf16(c, p, end);
        if l.Some? {
          LiteralShort(c, p, end);
          var k := |Utf8(l.value.codepoint)|;
          StepWithin(c, start, end, p, op, l.value.length, k);
          UnescapeWithin(c, start, end, p + l.value.length, op + k);
        }
      } else if Unletter(c[p + 1]) != NUL {
        if p + 2 <= end {
          StepWithin(c, start, end, p, op, 2, 1);
        } else {
          LastStepWithin(c, start, end, p, op);
        }
        UnescapeWithin(c, start, end, p + 2, op + 1);
      }
    }
  }

  /** The result of the second pass is no longer than the body less one character for each escape that
      the first pass counted, however far the two passes are out of step. */
  lemma UnescapeFits(c: string, start: nat)
    requires start <= |c| && Closing(c, start).Some?
    ensures var m := Closing(c, start).value;
      var r := Unescape(c, start, m.end);
      r.0.Some? ==> |r.0.value| + m.skipped <= m.end - start
  {
    hide Closing, Starts, Unescape;
    ClosingStarts(c, start);
    StartsNothing(c, start);
    StartsFew(c, start, Closing(c, start).value.end);
    UnescapeWithin(c, start, Closing(c, start).value.end, start, 0);
  }

  /** They can be out of step: a literal with a backslash for its last digit is read as code point
      zero, and the second pass then takes the closing quotation mark for an escaped one. */
  lemma PassesOutOfStep()
    ensures var c := "\\u000\\\\\"";
      Closing(c, 0) == Some(Measure(7, 2)) && Unescape(c, 0, 7) == (Some([NUL, '"']), 8)
  {
    var c := "\\u000\\\\\"";
    assert Closing(c, 7) == Some(Measure(7, 0));
    assert Closing(c, 5) == Some(Measure(7, 1));
    assert Closing(c, 4) == Some(Measure(7, 1));
    assert Closing(c, 2) == Some(Measure(7, 1));
    assert c[2..6][3] == '\\' && HexValue('\\') == -1;
    assert Utf16(c, 0, 7) == Some(Literal(0, 6));
    UnescapeEnd(c, 8, 7);
    UnescapeStep(c, 6, 7);
    assert ['"'] + "" == ['"'] && Unletter('"') == '"';
    assert Unescape(c, 6, 7) == (Some(['"']), 8);
    UnescapeStep(c, 0, 7);
    assert Utf8(0) == [NUL] && [NUL] + ['"'] == [NUL, '"'];
  }

  /** The second pass. The buffer has room for the body less one character for each escape that the
      first pass counted, the terminator, and one more. */
  method UnescapeInto(c: string, start: nat, end: nat, skipped: nat, output: array<char>) returns (ok: bool, op: nat, p: nat)
    requires start <= |c| && Closing(c, start) == Some(Measure(end, skipped))
    requires output.Length == end + 1 - start - skipped + 1
    modifies output
    ensures ok <==> Unescape(c, start, end).0.Some?
    ensures ok ==> op <= end - start - skipped && output[..op] == Unescape(c, start, end).0.value && output[op] == NUL
    ensures !ok ==> p == Unescape(c, start, end).1
  {
    hide Closing, Starts, Unescape, Utf8, Utf16;
    ClosingStarts(c, start);
    p, op := start, 0;
    StartsNothing(c, start);
    StartsFew(c, start, end);
    NothingPrefixed(Unescape(c, start, end));
    while p < end
      invariant Within(c, start, end, p, op)
      invariant Unescape(c, start, end) == Prefixed(output[..op], Unescape(c, p, end))
    {
      UnescapeStep(c, p, end);
      if c[p] != '\\' {
        StepWithin(c, start, end, p, op, 1, 1);
        op := PutChar(c, start, end, p, 1, output, op, c[p]);
        p := p + 1;
      } else if c[p + 1] == 'u' {
        ghost var l := Utf16(c, p, end);
        if l.Some? {
          LiteralShort(c, p, end);
          StepWithin(c, start, end, p, op, l.value.length, |Utf8(l.value.codepoint)|);
          PrefixedTwice(output[..op], Utf8(l.value.codepoint), Unescape(c, p + l.value.length, end));
        }
        var sequence: nat;
        sequence, op := Utf16ToUtf8(c, p, end, output, op);
        if sequence == 0 {
          return false, op, p;
        }
        p := p + sequence;
      } else {
        var x := Unletter(c[p + 1]);
        if x == NUL {
          return false, op, p;
        }
        if p + 2 <= end {
          StepWithin(c, start, end, p, op, 2, 1);
        } else {
          LastStepWithin(c, start, end, p, op);
        }
        op := PutChar(c, start, end, p, 2, output, op, x);
        p := p + 2;
      }
    }
    UnescapeEnd(c, p, end);
    output[op] := NUL;
    ok := true;
  }

  method PutChar(ghost c: string, ghost start: nat, ghost end: nat, ghost p: nat, ghost len: nat, output: array<char>, op: nat, x: char) returns (op': nat)
    requires op < output.Length && end < |c| && p + len <= end + 1
    modifies output
    ensures op' == op + 1 && output[..op'] == old(output[..op]) + [x]
    ensures Prefixed(output[..op'], Unescape(c, p + len, end)) == Prefixed(old(output[..op]), Prefixed([x], Unescape(c, p + len, end)))
  {
    PrefixedTwice(output[..op], [x], Unescape(c, p + len, end));
    output[op] := x;
    op' := op + 1;
    assert output[..op'] == old(output[..op]) + [x];
  }

  lemma PrefixedTwice(a: string, b: string, r: (Option<string>, nat))
    ensures Prefixed(a, Prefixed(b, r)) == Prefixed(a + b, r)
  {
    if r.0 != None { Associative(a, b, r.0.value); }
  }

  lemma NothingPrefixed(r: (Option<string>, nat))
    ensures Prefixed([], r) == r
  {
    if r.0 != None { assert [] + r.0.value == r.0.value; }
  }

  lemma StartsNothing(c: string, i: nat)
    requires i <= |c|
    ensures Starts(c, i, i) == 0
  {
  }

  lemma LiteralShort(c: string, p: nat, end: nat)
    requires p <= end < |c| && Utf16(c, p, end).Some?
    ensures var l := Utf16(c, p, end).value; l.length == 6 || l.length == 12
    ensures var l := Utf16(c, p, end).value; |Utf8(l.codepoint)| <= if l.length == 6 then 3 else 4
  {
  }

  lemma UnescapeEnd(c: string, p: nat, end: nat)
    requires end < |c| && end <= p <= end + 1
    ensures Unescape(c, p, end) == (Some(""), p)
  {
  }

  lemma UnescapeStep(c: string, p: nat, end: nat)
    requires end < |c| && p < end
    ensures c[p] != '\\' ==> Unescape(c, p, end) == Prefixed([c[p]], Unescape(c, p + 1, end))
    ensures c[p] == '\\' && c[p + 1] == 'u' ==>
      var l := Utf16(c, p, end);
      Unescape(c, p, end) == if l == None then (None, p) else Prefixed(Utf8(l.value.codepoint), Unescape(c, p + l.value.length, end))
    ensures c[p] == '\\' && c[p + 1] != 'u' ==>
      var x := Unletter(c[p + 1]);
      Unescape(c, p, end) == if x == NUL then (None, p) else Prefixed([x], Unescape(c, p + 2, end))
  {
  }
}

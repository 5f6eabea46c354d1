/** C string comparison and decimal conversion, as the JSON utilities use them.

    A C string is modelled by the characters in front of its terminator. */
module CStrings {

  /** 2^64: `size_t` and `unsigned long` hold the naturals below it. */
  const SIZE_LIMIT: nat := 0x1_0000_0000_0000_0000

  /** `tolower` in the C locale. */
  function Lower(c: char): char {
    if 'A' <= c <= 'Z' then (c as int + 32) as char else c
  }

  function Fold(s: string): (r: string)
    ensures |r| == |s|
  {
    seq(|s|, i requires 0 <= i < |s| => Lower(s[i]))
  }

  /** The bytes in front of the first terminator. */
  function CString(buf: string): string {
    if buf == [] || buf[0] == '\0' then [] else [buf[0]] + CString(buf[1..])
  }

  /** What a comparison looks at: the string itself, or its lower-case form. */
  function Key(s: string, cs: bool): string {
    if cs then s else Fold(s)
  }

  predicate KeyEq(a: string, b: string, cs: bool) {
    Key(a, cs) == Key(b, cs)
  }

  lemma ExactImpliesFolded(a: string, b: string, cs: bool)
    requires KeyEq(a, b, cs)
    ensures KeyEq(a, b, false)
  {
  }

  lemma KeyEqReflexive(a: string, cs: bool)
    ensures KeyEq(a, a, cs)
  {
  }

  lemma KeyEqSymmetric(a: string, b: string, cs: bool)
    ensures KeyEq(a, b, cs) <==> KeyEq(b, a, cs)
  {
  }

  /** The sign of `strcmp`. */
  function Compare(a: string, b: string): int {
    if a == [] then (if b == [] then 0 else -1)
    else if b == [] then 1
    else if a[0] < b[0] then -1
    else if a[0] > b[0] then 1
    else Compare(a[1..], b[1..])
  }

  lemma {:induction false} CompareEqual(a: string, b: string)
    ensures Compare(a, b) == 0 <==> a == b
  {
    if a != [] && b != [] && a[0] == b[0] {
      CompareEqual(a[1..], b[1..]);
      assert a == [a[0]] + a[1..] && b == [b[0]] + b[1..];
    }
  }

  lemma {:induction false} CompareAntisymmetric(a: string, b: string)
    ensures Compare(a, b) == -Compare(b, a)
  {
    if a != [] && b != [] && a[0] == b[0] {
      CompareAntisymmetric(a[1..], b[1..]);
    }
  }

  lemma {:induction false} CompareTransitive(a: string, b: string, c: string)
    requires Compare(a, b) <= 0 && Compare(b, c) <= 0
    ensures Compare(a, c) <= 0
    ensures Compare(a, b) < 0 || Compare(b, c) < 0 ==> Compare(a, c) < 0
  {
    if a != [] && b != [] && c != [] && a[0] == b[0] == c[0] {
      CompareTransitive(a[1..], b[1..], c[1..]);
    }
  }

  /** Up to `i` the strings agree; there the first one ends, or has the smaller character. */
  predicate LessAt(a: string, b: string, i: nat) {
    i <= |a| && i < |b| && a[..i] == b[..i] && (i == |a| || a[i] < b[i])
  }

  /** Less is: a proper beginning, or the smaller character at the first difference. */
  lemma {:induction false} LessIff(a: string, b: string)
    ensures Compare(a, b) < 0 <==> exists i: nat :: LessAt(a, b, i)
    decreases |a|
  {
    if a == [] || b == [] {
      if b != [] { assert LessAt(a, b, 0); }
    } else if a[0] != b[0] {
      if a[0] < b[0] { assert LessAt(a, b, 0); }
      forall i: nat | 0 < i <= |a| && i <= |b| ensures a[..i] != b[..i] { assert a[..i][0] != b[..i][0]; }
    } else {
      LessIff(a[1..], b[1..]);
      forall i: nat ensures LessAt(a[1..], b[1..], i) <==> LessAt(a, b, i + 1) { LessOneOn(a, b, i); }
      if exists i: nat :: LessAt(a, b, i) {
        var i: nat :| LessAt(a, b, i);
        assert LessAt(a[1..], b[1..], i - 1);
      }
    }
  }

  lemma LessOneOn(a: string, b: string, i: nat)
    requires a != [] && b != [] && a[0] == b[0]
    ensures LessAt(a[1..], b[1..], i) <==> LessAt(a, b, i + 1)
  {
    if i < |a| && i < |b| {
      assert a[..i + 1] == [a[0]] + a[1..][..i] && b[..i + 1] == [b[0]] + b[1..][..i];
      assert a[..i + 1][1..] == a[1..][..i] && b[..i + 1][1..] == b[1..][..i];
    }
  }

  /** Capitals become the small letters in the same place of the alphabet; nothing else changes. */
  lemma LowerAt(c: char)
    ensures Lower(c) == c <==> !('A' <= c <= 'Z')
    ensures 'A' <= c <= 'Z' ==> 'a' <= Lower(c) <= 'z' && Lower(c) as int - 'a' as int == c as int - 'A' as int
  {
  }

  /** `compare_strings` and `case_insensitive_strcmp` on two non-null strings:
      the walk stops at the first difference of the folded characters. */
  method CompareStrings(a: string, b: string, cs: bool) returns (sign: int)
    ensures sign == Compare(Key(a, cs), Key(b, cs))
    ensures sign == 0 <==> KeyEq(a, b, cs)
  {
    var ka, kb := Key(a, cs), Key(b, cs);
    CompareEqual(ka, kb);
    var i := 0;
    while i < |a| && i < |b| && ka[i] == kb[i]
      invariant i <= |a| && i <= |b|
      invariant Compare(ka, kb) == Compare(ka[i..], kb[i..])
    {
      i := i + 1;
    }
    sign := if i == |a| then (if i == |b| then 0 else -1)
            else if i == |b| then 1
            else if ka[i] < kb[i] then -1 else 1;
  }

  // ----- decimal numbers -----

  function Digit(d: nat): char
    requires d < 10
  {
    ('0' as int + d) as char
  }

  /** `%lu`. */
  function Decimal(n: nat): (s: string)
    ensures |s| > 0
    ensures forall i :: 0 <= i < |s| ==> '0' <= s[i] <= '9'
    ensures s[0] == '0' ==> s == "0"
  {
    if n < 10 then [Digit(n)] else Decimal(n / 10) + [Digit(n % 10)]
  }

  /** The value of a run of digits read from the left. */
  function DigitsValue(s: string): (v: nat)
    requires forall i :: 0 <= i < |s| ==> '0' <= s[i] <= '9'
  {
    if s == [] then 0
    else 10 * DigitsValue(s[..|s| - 1]) + (s[|s| - 1] as int - '0' as int)
  }

  lemma {:induction false} DecimalValue(n: nat)
    ensures DigitsValue(Decimal(n)) == n
  {
    if n >= 10 {
      DecimalValue(n / 10);
      var s := Decimal(n);
      assert s[..|s| - 1] == Decimal(n / 10);
    } else {
      assert Decimal(n)[..0] == [];
    }
  }
}

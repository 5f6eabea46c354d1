/** Canonical Huffman tables: `huffCreate` and the walk of `huffDecode` (picojpeg.c), after
    Annex C and section F.2.2.3 of ITU-T T.81. Row `i` holds the codes of length `i + 1`. */
module JpegHuffman {

  import opened Bytes
  import opened JpegBits
  import opened Options

  type word = x: int | 0 <= x < 65536

  // ----- the code that the sixteen counts describe -----

  predicate Counts(bits: seq<byte>) {
    |bits| == 16
  }

  /** The first code of row `i`. */
  function First(bits: seq<byte>, i: nat): nat
    requires Counts(bits) && i <= 16
  {
    if i == 0 then 0 else 2 * (First(bits, i - 1) + bits[i - 1])
  }

  /** How many codes are shorter than those of row `i`. */
  function Ptr(bits: seq<byte>, i: nat): nat
    requires Counts(bits) && i <= 16
  {
    if i == 0 then 0 else Ptr(bits, i - 1) + bits[i - 1]
  }

  /** Every code fits its length, and one byte can name every code. */
  predicate Fits(bits: seq<byte>) {
    && Counts(bits)
    && Ptr(bits, 16) <= 256
    && forall i :: 0 <= i < 16 ==> First(bits, i) + bits[i] <= Pow2(i + 1)
  }

  /** The longest row leaves out the code of sixteen ones. */
  predicate NoOnes(bits: seq<byte>)
    requires Counts(bits)
  {
    bits[15] == 0 || First(bits, 15) + bits[15] < 65536
  }

  /** The row of code `k`. */
  function Row(bits: seq<byte>, k: nat, i: nat := 16): (r: nat)
    requires Counts(bits) && i <= 16 && k < Ptr(bits, i)
    ensures r < i && Ptr(bits, r) <= k < Ptr(bits, r + 1) && bits[r] > 0
  {
    if Ptr(bits, i - 1) <= k then i - 1 else Row(bits, k, i - 1)
  }

  function Code(bits: seq<byte>, k: nat): seq<bool>
    requires Counts(bits) && k < Ptr(bits, 16)
  {
    var i := Row(bits, k);
    BitsOf(First(bits, i) + k - Ptr(bits, i), i + 1)
  }

  // ----- the tables -----

  datatype Table = Table(minCode: seq<word>, maxCode: seq<word>, valPtr: seq<byte>)

  predicate Formed(t: Table) {
    |t.minCode| == 16 && |t.maxCode| == 16 && |t.valPtr| == 16
  }

  /** The table of `bits`, row by row: an unused row is marked by 0xFFFF. */
  predicate IsTable(t: Table, bits: seq<byte>)
    requires Fits(bits)
  {
    Formed(t) && IsRows(t, bits, 16)
  }

  predicate IsRow(t: Table, bits: seq<byte>, i: nat)
    requires Counts(bits) && Formed(t) && i < 16
  {
    if bits[i] == 0 then t.minCode[i] == 0 && t.maxCode[i] == 0xFFFF && t.valPtr[i] == 0
    else
      && t.minCode[i] == First(bits, i)
      && t.maxCode[i] == First(bits, i) + bits[i] - 1
      && t.valPtr[i] == Ptr(bits, i)
  }

  class HuffTable {
    const minCode: array<word>
    const maxCode: array<word>
    const valPtr: array<byte>

    ghost predicate Valid()
    {
      && minCode.Length == 16 && maxCode.Length == 16 && valPtr.Length == 16
      && minCode != maxCode && minCode as object != valPtr && maxCode as object != valPtr
    }

    constructor ()
      ensures Valid() && fresh(minCode) && fresh(maxCode) && fresh(valPtr)
    {
      minCode := new word[16];
      maxCode := new word[16];
      valPtr := new byte[16];
    }

    ghost function View(): (t: Table)
      requires Valid()
      reads minCode, maxCode, valPtr
      ensures Formed(t)
    {
      Table(minCode[..], maxCode[..], valPtr[..])
    }
  }

  lemma {:induction false} PtrMonotone(bits: seq<byte>, i: nat, j: nat)
    requires Counts(bits) && i <= j <= 16
    ensures Ptr(bits, i) <= Ptr(bits, j)
  {
    if i < j { PtrMonotone(bits, i, j - 1); }
  }

  /** What `code` and `j` can be at row `i`, and that the sixteen and eight bits the program gives
      them are enough. */
  lemma RowBounds(bits: seq<byte>, i: nat)
    requires Fits(bits) && i < 16
    ensures First(bits, i) + bits[i] <= 65536
    ensures bits[i] > 0 ==> First(bits, i) <= 65535 && Ptr(bits, i) <= 255
    ensures Ptr(bits, i + 1) <= 256
  {
    Pow2Monotone(i + 1, 16);
    Pow2Values();
    PtrMonotone(bits, i + 1, 16);
  }

  lemma RowIs(t: Table, bits: seq<byte>, i: nat, code: nat, j: nat)
    requires Fits(bits) && Formed(t) && i < 16
    requires code == First(bits, i) % 65536 && j == Ptr(bits, i) % 256
    requires t.minCode[i] == (if bits[i] == 0 then 0 else code)
    requires t.maxCode[i] == (if bits[i] == 0 then 0xFFFF else (code + bits[i] - 1) % 65536)
    requires t.valPtr[i] == (if bits[i] == 0 then 0 else j)
    ensures IsRow(t, bits, i)
  {
    hide Fits, First, Ptr, Pow2;
    FirstStep(bits);
    RowBounds(bits, i);
  }

  lemma NextRow(bits: seq<byte>, i: nat, code: nat, j: nat)
    requires Fits(bits) && i < 16
    requires code == First(bits, i) % 65536 && j == Ptr(bits, i) % 256
    ensures (code + bits[i]) % 65536 * 2 % 65536 == First(bits, i + 1) % 65536
    ensures (j + bits[i]) % 256 == Ptr(bits, i + 1) % 256
    ensures bits[i] == 0 ==> code * 2 % 65536 == First(bits, i + 1) % 65536
  {
    hide Fits, First, Ptr, Pow2;
    FirstStep(bits);
    RowBounds(bits, i);
    Step(bits, i);
  }

  method HuffCreate(bits: seq<byte>, t: HuffTable)
    requires Fits(bits) && t.Valid()
    modifies t.minCode, t.maxCode, t.valPtr
    ensures IsTable(t.View(), bits)
  {
    hide Fits, First, Ptr, Pow2, IsRows, IsRow;
    var i: nat, j: nat, code: nat := 0, 0, 0;
    FirstStep(bits);
    assert IsRows(t.View(), bits, 0) by { NoRows(t.View(), bits); }
    while true
      invariant i < 16 && Counts(bits)
      invariant code == First(bits, i) % 65536
      invariant j == Ptr(bits, i) % 256
      invariant IsRows(t.View(), bits, i)
      decreases 16 - i
    {
      ghost var (c, p) := (code, j);
      ghost var before := t.View();
      var num := bits[i];
      NextRow(bits, i, code, j);
      if num == 0 {
        t.minCode[i] := 0x0000;
        t.maxCode[i] := 0xFFFF;
        t.valPtr[i] := 0;
      } else {
        t.minCode[i] := code;
        t.maxCode[i] := (code + num - 1) % 65536;
        t.valPtr[i] := j;
        j := (j + num) % 256;
        code := (code + num) % 65536;
      }
      code := code * 2 % 65536;
      assert t.View().minCode[..i] == before.minCode[..i];
      assert t.View().maxCode[..i] == before.maxCode[..i];
      assert t.View().valPtr[..i] == before.valPtr[..i];
      assert IsRow(t.View(), bits, i) by { RowIs(t.View(), bits, i, c, p); }
      OneMoreRow(before, t.View(), bits, i);
      i := i + 1;
      if i > 15 {
        break;
      }
    }
  }

  predicate IsRows(t: Table, bits: seq<byte>, n: nat)
    requires Counts(bits) && Formed(t) && n <= 16
  {
    forall i :: 0 <= i < n ==> IsRow(t, bits, i)
  }

  lemma OneMoreRow(s: Table, t: Table, bits: seq<byte>, i: nat)
    requires Counts(bits) && Formed(s) && Formed(t) && i < 16 && IsRows(s, bits, i) && IsRow(t, bits, i)
    requires s.minCode[..i] == t.minCode[..i] && s.maxCode[..i] == t.maxCode[..i] && s.valPtr[..i] == t.valPtr[..i]
    ensures IsRows(t, bits, i + 1)
  {
    hide First, Ptr;
    forall k | 0 <= k < i ensures IsRow(t, bits, k) {
      assert IsRow(s, bits, k);
      assert s.minCode[k] == s.minCode[..i][k] == t.minCode[k] && s.maxCode[k] == s.maxCode[..i][k] == t.maxCode[k];
      assert s.valPtr[k] == s.valPtr[..i][k] == t.valPtr[k];
    }
  }

  lemma NoRows(t: Table, bits: seq<byte>)
    requires Counts(bits) && Formed(t)
    ensures IsRows(t, bits, 0)
  {
  }

  lemma FirstStep(bits: seq<byte>)
    requires Fits(bits)
    ensures Counts(bits) && First(bits, 0) == 0 && Ptr(bits, 0) == 0
  {
  }

  lemma Step(bits: seq<byte>, i: nat)
    requires Counts(bits) && i < 16
    ensures First(bits, i + 1) == 2 * (First(bits, i) + bits[i])
    ensures Ptr(bits, i + 1) == Ptr(bits, i) + bits[i]
  {
  }

  // ----- the walk -----

  /** `huffDecode` after it has read the first bit: the index of the value it finds, if any, and the
      bits that it leaves. */
  function Walk(t: Table, s: seq<bool>, i: nat, code: word): (r: (Option<byte>, seq<bool>))
    requires Formed(t) && i <= 16
    decreases 16 - i
  {
    if i == 16 then (None, s)
    else if code <= t.maxCode[i] && t.maxCode[i] != 0xFFFF then (Some((t.valPtr[i] + code - t.minCode[i]) % 256), s)
    else Walk(t, Drop(s, 1), i + 1, code * 2 % 65536 + Bit(s))
  }

  function Bit(s: seq<bool>): (r: nat)
    ensures r < 2
  {
    if BitAt(s, 0) then 1 else 0
  }

  function Decode(t: Table, s: seq<bool>): (Option<byte>, seq<bool>)
    requires Formed(t)
  {
    Walk(t, Drop(s, 1), 0, Bit(s))
  }

  lemma DoubleBelow(code: nat, bit: nat, i: nat)
    requires i < 16 && code < Pow2(i + 1) && bit < 2
    ensures i < 15 ==> 2 * code + bit < Pow2(i + 2) <= 65536
  {
    if i < 15 {
      Pow2Monotone(i + 2, 16);
      Pow2Values();
    }
  }

  /** Where the walk stops it has found a value of the table. */
  lemma {:induction false} WalkInRange(t: Table, bits: seq<byte>, s: seq<bool>, i: nat, code: word)
    requires Fits(bits) && IsTable(t, bits) && i <= 16
    requires i < 16 ==> First(bits, i) <= code < Pow2(i + 1)
    ensures Walk(t, s, i, code).0.Some? ==> Walk(t, s, i, code).0.value < Ptr(bits, 16)
    decreases 16 - i
  {
    hide Fits, First, Ptr, Pow2;
    if i < 16 {
      FirstStep(bits);
      RowBounds(bits, i);
      Step(bits, i);
      assert IsRow(t, bits, i);
      if code <= t.maxCode[i] && t.maxCode[i] != 0xFFFF {
        PtrMonotone(bits, i + 1, 16);
      } else {
        DoubleBelow(code, Bit(s), i);
        WalkInRange(t, bits, Drop(s, 1), i + 1, code * 2 % 65536 + Bit(s));
      }
    }
  }

  // ----- codes are prefix-free, and the walk finds them -----

  lemma RowFits(bits: seq<byte>, i: nat)
    requires Fits(bits) && i < 16
    ensures First(bits, i) + bits[i] <= Pow2(i + 1)
  {
  }

  lemma CodeOf(bits: seq<byte>, k: nat)
    requires Fits(bits) && k < Ptr(bits, 16)
    ensures Row(bits, k) < 16 && |Code(bits, k)| == Row(bits, k) + 1
    ensures ValueOf(Code(bits, k)) == First(bits, Row(bits, k)) + k - Ptr(bits, Row(bits, k))
    ensures Ptr(bits, Row(bits, k)) <= k < Ptr(bits, Row(bits, k)) + bits[Row(bits, k)]
  {
    hide First, Ptr, Pow2, ValueOf, BitsOf;
    var i := Row(bits, k);
    FirstStep(bits);
    Step(bits, i);
    RowFits(bits, i);
    ValueOfBits(First(bits, i) + k - Ptr(bits, i), i + 1);
  }

  /** The first bits of a longer code are a number above every shorter code. */
  lemma {:induction false} PrefixAbove(bits: seq<byte>, c: seq<bool>, i: nat)
    requires Counts(bits) && i + 1 < |c| <= 16 && ValueOf(c) >= First(bits, |c| - 1)
    ensures ValueOf(c[..i + 1]) >= First(bits, i) + bits[i]
  {
    hide Ptr, Pow2;
    var d := c[..|c| - 1];
    assert ValueOf(c) <= 2 * ValueOf(d) + 1;
    Step(bits, |c| - 2);
    if i + 2 == |c| {
      assert c[..i + 1] == d;
    } else {
      assert d[..i + 1] == c[..i + 1];
      PrefixAbove(bits, d, i);
    }
  }

  /** No code is the beginning of another one. */
  lemma PrefixFree(bits: seq<byte>, k: nat, l: nat)
    requires Fits(bits) && k < Ptr(bits, 16) && l < Ptr(bits, 16) && k != l
    ensures !(Code(bits, k) <= Code(bits, l))
  {
    hide First, Ptr, Pow2, ValueOf, Row, Code, BitsOf, Fits;
    FirstStep(bits);
    var c, d := Code(bits, k), Code(bits, l);
    CodeOf(bits, k);
    CodeOf(bits, l);
    if |c| < |d| {
      var beginning := d[..|c|];
      assert c <= d ==> c == beginning;
      PrefixAbove(bits, d, |c| - 1);
    } else {
      assert c <= d ==> c == d;
    }
  }

  /** The walk, `i + 1` bits into code `k`. A code of sixteen bits is lost when the code of sixteen
      ones is in use, because the row is then marked like an unused one. */
  lemma {:induction false} WalkFinds(t: Table, bits: seq<byte>, k: nat, rest: seq<bool>, i: nat)
    requires Fits(bits) && IsTable(t, bits) && k < Ptr(bits, 16) && i <= Row(bits, k) < 16 && |Code(bits, k)| == Row(bits, k) + 1
    requires ValueOf(Code(bits, k)[..i + 1]) < 65536
    ensures Walk(t, Canon(Code(bits, k)[i + 1..] + rest), i, ValueOf(Code(bits, k)[..i + 1]))
         == if Row(bits, k) < 15 || NoOnes(bits) then (Some(k), Canon(rest)) else (None, Drop(Canon(rest), 1))
    decreases Row(bits, k) - i
  {
    hide First, Ptr, Pow2, ValueOf, Row, Code, BitsOf, Fits, Canon, Drop, BitAt, NoOnes, Walk;
    FirstStep(bits);
    CodeOf(bits, k);
    var c := Code(bits, k);
    if i == Row(bits, k) {
      assert c[..i + 1] == c && c[i + 1..] + rest == rest;
      WalkStops(t, bits, k, Canon(rest), ValueOf(c));
    } else {
      PrefixAbove(bits, c, i);
      PopOne(c[i + 1..], rest);
      assert c[i + 1..][1..] == c[i + 2..];
      ValueOfPrefix(c, i + 1);
      PrefixFits(c, i + 2);
      WalkGoesOn(t, bits, Canon(c[i + 1..] + rest), i, ValueOf(c[..i + 1]), ValueOf(c[..i + 2]));
      WalkFinds(t, bits, k, rest, i + 1);
    }
  }

  lemma WalkStops(t: Table, bits: seq<byte>, k: nat, s: seq<bool>, code: word)
    requires Fits(bits) && IsTable(t, bits) && k < Ptr(bits, 16)
    requires code == First(bits, Row(bits, k)) + k - Ptr(bits, Row(bits, k))
    ensures Walk(t, s, Row(bits, k), code)
         == if Row(bits, k) < 15 || NoOnes(bits) then (Some(k), s) else (None, Drop(s, 1))
  {
    hide First, Ptr, Pow2, Row, Code, Fits, Canon, Drop, BitAt;
    FirstStep(bits);
    var i := Row(bits, k);
    Step(bits, i);
    RowBounds(bits, i);
    PtrMonotone(bits, i + 1, 16);
    assert IsRow(t, bits, i);
    if i < 15 { ShortRow(bits, i); }
  }

  lemma WalkGoesOn(t: Table, bits: seq<byte>, s: seq<bool>, i: nat, code: word, next: word)
    requires Fits(bits) && IsTable(t, bits) && i < 15
    requires code >= First(bits, i) + bits[i] && next == 2 * code + Bit(s)
    ensures Walk(t, s, i, code) == Walk(t, Drop(s, 1), i + 1, next)
  {
    hide First, Ptr, Pow2, Fits, Drop, BitAt;
    FirstStep(bits);
    assert IsRow(t, bits, i);
    ShortRow(bits, i);
  }

  lemma PrefixFits(c: seq<bool>, n: nat)
    requires n <= |c| <= 16
    ensures ValueOf(c[..n]) < 65536
  {
    Pow2Monotone(n, 16);
    Pow2Values();
  }

  lemma ShortRow(bits: seq<byte>, i: nat)
    requires Fits(bits) && i < 15
    ensures First(bits, i) + bits[i] <= 32768
  {
    Pow2Monotone(i + 1, 15);
    Pow2Values();
  }

  /** Decoding a code followed by anything gives its index and leaves what follows. */
  lemma DecodeCode(t: Table, bits: seq<byte>, k: nat, rest: seq<bool>)
    requires Fits(bits) && IsTable(t, bits) && k < Ptr(bits, 16)
    ensures Row(bits, k) < 16
    ensures Decode(t, Canon(Code(bits, k) + rest))
         == if Row(bits, k) < 15 || NoOnes(bits) then (Some(k), Canon(rest)) else (None, Drop(Canon(rest), 1))
  {
    hide First, Ptr, Pow2, Row, Code, BitsOf, Fits, Canon, Drop, BitAt;
    FirstStep(bits);
    var c := Code(bits, k);
    CodeOf(bits, k);
    PopOne(c, rest);
    PrefixFits(c, 1);
    assert ValueOf(c[..1]) == if c[0] then 1 else 0 by {
      assert c[..1][..0] == [];
    }
    WalkFinds(t, bits, k, rest, 0);
  }

  ghost predicate DecodesEveryCode(t: Table, bits: seq<byte>)
    requires Fits(bits) && Formed(t)
  {
    forall k: nat, rest :: k < Ptr(bits, 16) ==> Decode(t, Canon(Code(bits, k) + rest)) == (Some(k), Canon(rest))
  }

  /** The decoder is right about every code of a table exactly when sixteen ones is not a code. */
  lemma DecodesIff(t: Table, bits: seq<byte>)
    requires Fits(bits) && IsTable(t, bits)
    ensures DecodesEveryCode(t, bits) <==> NoOnes(bits)
  {
    hide First, Pow2, Row, Code, BitsOf, Canon, Drop, BitAt, Decode;
    forall k: nat, rest | k < Ptr(bits, 16) && NoOnes(bits) ensures Decode(t, Canon(Code(bits, k) + rest)) == (Some(k), Canon(rest)) {
      DecodeCode(t, bits, k, rest);
    }
    if !NoOnes(bits) {
      var k := Ptr(bits, 15);
      Step(bits, 15);
      DecodeCode(t, bits, k, []);
      CodeOf(bits, k);
      if Row(bits, k) < 15 {
        PtrMonotone(bits, Row(bits, k) + 1, 15);
      }
    }
  }
}

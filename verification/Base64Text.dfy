/** Base64 (section 4 of RFC 4648) as functions on octets: what base64.c computes. */
module Base64Text {

  import opened Options

  type Octet = bv8

  const PAD: Octet := 61
  const UNKNOWN: Octet := 0x80

  /** `base64_table`. */
  function Letter(v: Octet): Octet
    requires v < 64
  {
    if v < 26 then v + 65 else if v < 52 then v + 71 else if v < 62 then v - 4 else if v == 62 then 43 else 47
  }

  /** The place of a letter in the table. */
  function Place(c: Octet): (v: Octet)
    ensures v < 64 || v == UNKNOWN
  {
    if 65 <= c <= 90 then c - 65
    else if 97 <= c <= 122 then c - 71
    else if 48 <= c <= 57 then c + 4
    else if c == 43 then 62
    else if c == 47 then 63
    else UNKNOWN
  }

  /** `dtable` when it is complete. */
  function Value(c: Octet): (v: Octet)
    ensures v < 64 || v == UNKNOWN
  {
    if c == PAD then 0 else Place(c)
  }

  lemma PlaceOfLetter(v: Octet)
    requires v < 64
    ensures Place(Letter(v)) == v && Letter(v) != PAD
  {
  }

  lemma LetterOfPlace(c: Octet)
    requires Place(c) != UNKNOWN
    ensures Letter(Place(c)) == c && c != PAD
  {
  }

  // ----- blocks of three octets and of four letters -----

  function A(x: Octet): (v: Octet)
    ensures v < 64
  {
    x >> 2
  }

  function B(x: Octet, y: Octet): (v: Octet)
    ensures v < 64
  {
    ((x & 0x03) << 4) | (y >> 4)
  }

  function C(y: Octet, z: Octet): (v: Octet)
    ensures v < 64
  {
    ((y & 0x0F) << 2) | (z >> 6)
  }

  function D(z: Octet): (v: Octet)
    ensures v < 64
  {
    z & 0x3F
  }

  function X(a: Octet, b: Octet): Octet {
    (a << 2) | (b >> 4)
  }

  function Y(b: Octet, c: Octet): Octet {
    (b << 4) | (c >> 2)
  }

  function Z(c: Octet, d: Octet): Octet {
    (c << 6) | d
  }

  lemma ThreeBack(x: Octet, y: Octet, z: Octet)
    ensures X(A(x), B(x, y)) == x && Y(B(x, y), C(y, z)) == y && Z(C(y, z), D(z)) == z
  {
  }

  lemma FourBack(a: Octet, b: Octet, c: Octet, d: Octet)
    requires a < 64 && b < 64 && c < 64 && d < 64
    ensures A(X(a, b)) == a && B(X(a, b), Y(b, c)) == b && C(Y(b, c), Z(c, d)) == c && D(Z(c, d)) == d
  {
  }

  lemma TwoBack(a: Octet, b: Octet, c: Octet)
    requires a < 64 && b < 64 && c < 64
    ensures A(X(a, b)) == a && B(X(a, b), Y(b, c)) == b && (C(Y(b, c), 0) == c <==> c & 0x03 == 0)
    ensures B(X(a, b), 0) == b <==> b & 0x0F == 0
  {
  }

  // ----- whole texts -----

  function EncodedLength(n: nat): nat {
    (n + 2) / 3 * 4
  }

  /** `base64_encode`. */
  function Encoded(s: seq<Octet>): (r: seq<Octet>)
    ensures |r| == EncodedLength(|s|)
  {
    if |s| >= 3 then [Letter(A(s[0])), Letter(B(s[0], s[1])), Letter(C(s[1], s[2])), Letter(D(s[2]))] + Encoded(s[3..])
    else if |s| == 2 then [Letter(A(s[0])), Letter(B(s[0], s[1])), Letter(C(s[1], 0)), PAD]
    else if |s| == 1 then [Letter(A(s[0])), Letter(B(s[0], 0)), PAD, PAD]
    else []
  }

  /** What is neither a letter nor padding is passed over. */
  function Symbols(t: seq<Octet>): (r: seq<Octet>)
    ensures |r| <= |t|
  {
    if t == [] then [] else (if Value(t[0]) != UNKNOWN then [t[0]] else []) + Symbols(t[1..])
  }

  function Pads(s: seq<Octet>): (n: nat)
    ensures n <= |s|
  {
    if s == [] then 0 else Pads(s[..|s| - 1]) + if s[|s| - 1] == PAD then 1 else 0
  }

  function Before(s: seq<Octet>, r: Option<seq<Octet>>): Option<seq<Octet>> {
    if r == None then None else Some(s + r.value)
  }

  function Three(q: seq<Octet>): (r: seq<Octet>)
    requires |q| == 4
    ensures |r| == 3
  {
    [X(Value(q[0]), Value(q[1])), Y(Value(q[1]), Value(q[2])), Z(Value(q[2]), Value(q[3]))]
  }

  /** The blocks of `base64_decode`: the first one with padding is the last one that is read. */
  function Decoded(s: seq<Octet>): Option<seq<Octet>> {
    if |s| < 4 then Some([])
    else
      var q := s[..4];
      if Pads(q) == 0 then Before(Three(q), Decoded(s[4..]))
      else if Pads(q) == 1 then Some(Three(q)[..2])
      else if Pads(q) == 2 then Some(Three(q)[..1])
      else None
  }

  /** `base64_decode`. */
  function Meaning(t: seq<Octet>): Option<seq<Octet>> {
    var s := Symbols(t);
    if s == [] || |s| % 4 != 0 then None else Decoded(s)
  }

  // ----- decoding undoes encoding -----

  lemma PadsOfFour(q: seq<Octet>)
    requires |q| == 4
    ensures Pads(q) == (if q[0] == PAD then 1 else 0) + (if q[1] == PAD then 1 else 0) + (if q[2] == PAD then 1 else 0) + (if q[3] == PAD then 1 else 0)
  {
    assert q[..3][..2] == q[..2] && q[..2][..1] == q[..1] && q[..1][..0] == q[..0];
    assert Pads(q[..1]) == if q[0] == PAD then 1 else 0;
    assert Pads(q[..2]) == Pads(q[..1]) + if q[1] == PAD then 1 else 0;
    assert Pads(q[..3]) == Pads(q[..2]) + if q[2] == PAD then 1 else 0;
  }

  lemma BlockBack(x: Octet, y: Octet, z: Octet, q: seq<Octet>)
    requires q == [Letter(A(x)), Letter(B(x, y)), Letter(C(y, z)), Letter(D(z))]
    ensures Pads(q) == 0 && Three(q) == [x, y, z]
  {
    hide Letter, Place, A, B, C, D, X, Y, Z;
    PadsOfFour(q);
    PlaceOfLetter(A(x));
    PlaceOfLetter(B(x, y));
    PlaceOfLetter(C(y, z));
    PlaceOfLetter(D(z));
    ThreeBack(x, y, z);
  }

  lemma TwoOctetsBack(x: Octet, y: Octet, q: seq<Octet>)
    requires q == [Letter(A(x)), Letter(B(x, y)), Letter(C(y, 0)), PAD]
    ensures Pads(q) == 1 && Three(q)[..2] == [x, y]
  {
    hide Letter, Place, A, B, C, D, X, Y, Z;
    PadsOfFour(q);
    PlaceOfLetter(A(x));
    PlaceOfLetter(B(x, y));
    PlaceOfLetter(C(y, 0));
    ThreeBack(x, y, 0);
  }

  lemma OneOctetBack(x: Octet, q: seq<Octet>)
    requires q == [Letter(A(x)), Letter(B(x, 0)), PAD, PAD]
    ensures Pads(q) == 2 && Three(q)[..1] == [x]
  {
    hide Letter, Place, A, B, C, D, X, Y, Z;
    PadsOfFour(q);
    PlaceOfLetter(A(x));
    PlaceOfLetter(B(x, 0));
    ThreeBack(x, 0, 0);
  }

  lemma {:induction false} DecodedEncoded(s: seq<Octet>)
    ensures Decoded(Encoded(s)) == Some(s)
  {
    hide Letter, Three, Pads, A, B, C, D;
    var e := Encoded(s);
    if |s| >= 3 {
      DecodedEncoded(s[3..]);
      BlockBack(s[0], s[1], s[2], e[..4]);
      assert e[4..] == Encoded(s[3..]) && s == [s[0], s[1], s[2]] + s[3..];
    } else if |s| == 2 {
      TwoOctetsBack(s[0], s[1], e[..4]);
      assert s == [s[0], s[1]];
    } else if |s| == 1 {
      OneOctetBack(s[0], e[..4]);
      assert s == [s[0]];
    }
  }

  /** Any text whose symbols are the encoding of `s` decodes to `s`, whatever stands between them. */
  lemma EncodeThenDecode(s: seq<Octet>, t: seq<Octet>)
    requires s != [] && Symbols(t) == Encoded(s)
    ensures Meaning(t) == Some(s)
  {
    hide Decoded;
    DecodedEncoded(s);
  }

  lemma {:induction false} SymbolsStay(s: seq<Octet>)
    requires forall c :: c in s ==> Value(c) != UNKNOWN
    ensures Symbols(s) == s
  {
    if s != [] { SymbolsStay(s[1..]); }
  }

  lemma {:induction false} EncodedAreSymbols(s: seq<Octet>)
    ensures forall c :: c in Encoded(s) ==> Value(c) != UNKNOWN
    ensures Symbols(Encoded(s)) == Encoded(s)
  {
    hide Letter, Place, A, B, C, D, Symbols;
    if |s| >= 3 {
      EncodedAreSymbols(s[3..]);
      PlaceOfLetter(A(s[0]));
      PlaceOfLetter(B(s[0], s[1]));
      PlaceOfLetter(C(s[1], s[2]));
      PlaceOfLetter(D(s[2]));
    } else if |s| == 2 {
      PlaceOfLetter(A(s[0]));
      PlaceOfLetter(B(s[0], s[1]));
      PlaceOfLetter(C(s[1], 0));
    } else if |s| == 1 {
      PlaceOfLetter(A(s[0]));
      PlaceOfLetter(B(s[0], 0));
    }
    SymbolsStay(Encoded(s));
  }

  // ----- which texts are encodings -----

  /** The last block: padding at its end alone, and no bits that decoding drops. */
  predicate Ending(q: seq<Octet>)
    requires |q| == 4
  {
    && Place(q[0]) != UNKNOWN && Place(q[1]) != UNKNOWN
    && ( || (Place(q[2]) != UNKNOWN && Place(q[3]) != UNKNOWN)
         || (Place(q[2]) != UNKNOWN && Place(q[2]) & 0x03 == 0 && q[3] == PAD)
         || (Place(q[1]) & 0x0F == 0 && q[2] == PAD && q[3] == PAD))
  }

  predicate Inner(q: seq<Octet>)
    requires |q| == 4
  {
    forall k :: 0 <= k < 4 ==> Place(q[k]) != UNKNOWN
  }

  predicate Canonical(s: seq<Octet>) {
    |s| >= 4 && if |s| == 4 then Ending(s) else Inner(s[..4]) && Canonical(s[4..])
  }

  lemma InnerBack(q: seq<Octet>)
    requires |q| == 4 && Inner(q)
    ensures Pads(q) == 0
    ensures var t := Three(q); q == [Letter(A(t[0])), Letter(B(t[0], t[1])), Letter(C(t[1], t[2])), Letter(D(t[2]))]
  {
    hide Letter, Place, A, B, C, D, X, Y, Z;
    forall k | 0 <= k < 4 ensures Letter(Place(q[k])) == q[k] && q[k] != PAD { LetterOfPlace(q[k]); }
    PadsOfFour(q);
    FourBack(Place(q[0]), Place(q[1]), Place(q[2]), Place(q[3]));
  }

  lemma OnePadBack(q: seq<Octet>)
    requires |q| == 4 && Ending(q) && Place(q[2]) != UNKNOWN && q[3] == PAD
    ensures Pads(q) == 1
    ensures var t := Three(q); q == [Letter(A(t[0])), Letter(B(t[0], t[1])), Letter(C(t[1], 0)), PAD]
  {
    hide Letter, Place, A, B, C, D, X, Y, Z;
    forall k | 0 <= k < 3 ensures Letter(Place(q[k])) == q[k] && q[k] != PAD { LetterOfPlace(q[k]); }
    PadsOfFour(q);
    PadIsNoLetter();
    TwoBack(Place(q[0]), Place(q[1]), Place(q[2]));
  }

  lemma TwoPadsBack(q: seq<Octet>)
    requires |q| == 4 && Ending(q) && q[2] == PAD
    ensures Pads(q) == 2 && q[3] == PAD
    ensures var t := Three(q); q == [Letter(A(t[0])), Letter(B(t[0], 0)), PAD, PAD]
  {
    hide Letter, Place, A, B, C, D, X, Y, Z;
    forall k | 0 <= k < 2 ensures Letter(Place(q[k])) == q[k] && q[k] != PAD { LetterOfPlace(q[k]); }
    PadsOfFour(q);
    PadIsNoLetter();
    TwoBack(Place(q[0]), Place(q[1]), 0);
  }

  lemma PadIsNoLetter()
    ensures Place(PAD) == UNKNOWN
  {
  }

  lemma EndingBack(q: seq<Octet>)
    requires |q| == 4 && Ending(q)
    ensures Decoded(q) != None && Decoded(q).value != [] && Encoded(Decoded(q).value) == q
  {
    hide Letter, A, B, C, D, Pads, Three;
    PadIsNoLetter();
    assert q[..4] == q && q[4..] == [];
    if q[2] == PAD {
      TwoPadsBack(q);
    } else if q[3] == PAD {
      OnePadBack(q);
    } else {
      InnerBack(q);
    }
  }

  lemma {:induction false} CanonicalBack(s: seq<Octet>)
    requires Canonical(s)
    ensures Decoded(s) != None && Decoded(s).value != [] && Encoded(Decoded(s).value) == s
  {
    hide Letter, Three, Inner, Ending, Pads, A, B, C, D;
    if |s| == 4 {
      EndingBack(s);
    } else {
      var rest := s[4..];
      CanonicalBack(rest);
      InnerBack(s[..4]);
      var t := Three(s[..4]);
      assert (t + Decoded(rest).value)[3..] == Decoded(rest).value;
      assert s == s[..4] + rest;
    }
  }

  lemma EncodedEnding(s: seq<Octet>)
    requires 1 <= |s| <= 3
    ensures Ending(Encoded(s))
  {
    hide Letter, Place, A, D;
    assert |s| == 3 ==> Encoded(s[3..]) == [];
    PlaceOfLetter(A(s[0]));
    PlaceOfLetter(B(s[0], if |s| == 1 then 0 else s[1]));
    if |s| >= 2 { PlaceOfLetter(C(s[1], if |s| == 2 then 0 else s[2])); }
    if |s| == 3 { PlaceOfLetter(D(s[2])); }
  }

  lemma {:induction false} EncodedIsCanonical(s: seq<Octet>)
    requires s != []
    ensures Canonical(Encoded(s))
  {
    hide Letter, Place, A, B, C, D, Ending;
    if |s| <= 3 {
      EncodedEnding(s);
    } else {
      var e := Encoded(s);
      EncodedIsCanonical(s[3..]);
      assert e[4..] == Encoded(s[3..]);
      PlaceOfLetter(A(s[0]));
      PlaceOfLetter(B(s[0], s[1]));
      PlaceOfLetter(C(s[1], s[2]));
      PlaceOfLetter(D(s[2]));
    }
  }

  /** Encoding what was decoded gives the symbols of the text again exactly when they are canonical. */
  lemma DecodeThenEncodeIff(t: seq<Octet>)
    ensures Canonical(Symbols(t)) <==> Meaning(t) != None && Meaning(t).value != [] && Encoded(Meaning(t).value) == Symbols(t)
  {
    hide Encoded, Decoded, Canonical, Symbols;
    var s := Symbols(t);
    if Canonical(s) {
      CanonicalBack(s);
    }
    if Meaning(t) != None && Meaning(t).value != [] && Encoded(Meaning(t).value) == s {
      EncodedIsCanonical(Meaning(t).value);
    }
  }

  // ----- the size of the buffer -----

  /** The values of the 64-bit `size_t`. */
  const SIZES: nat := 0x1_0000_0000_0000_0000

  function Wrapped(n: nat): nat {
    n % SIZES
  }

  function Size(len: nat): nat {
    var blocks := Wrapped(Wrapped(len * 4) / 3 + 4);
    var lines := Wrapped(blocks + blocks / 72);
    Wrapped(lines + 1)
  }

  lemma WrappedIs(n: nat, q: nat)
    requires q * SIZES <= n < (q + 1) * SIZES
    ensures Wrapped(n) == n - q * SIZES
  {
    assert n == q * SIZES + (n - q * SIZES);
  }

  lemma SizeWraps(len: nat, q: nat)
    requires 1 <= q <= 3 && q * 0x4000_0000_0000_0000 <= len < (q + 1) * 0x4000_0000_0000_0000
    ensures Size(len) < len
  {
    hide Wrapped;
    WrappedIs(len * 4, q);
    var blocks := (len * 4 - q * SIZES) / 3 + 4;
    WrappedIs(blocks, 0);
    WrappedIs(blocks + blocks / 72, 0);
    WrappedIs(blocks + blocks / 72 + 1, 0);
  }

  lemma SizeFits(len: nat)
    requires len < 0x4000_0000_0000_0000
    ensures Size(len) >= len * 4 / 3 + 5
  {
    hide Wrapped;
    WrappedIs(len * 4, 0);
    var blocks := len * 4 / 3 + 4;
    WrappedIs(blocks, 0);
    WrappedIs(blocks + blocks / 72, 0);
    WrappedIs(blocks + blocks / 72 + 1, 0);
  }

  /** The test for wraparound refuses the length exactly when four times it does not fit; otherwise the
      encoding and the zero behind it fit in the buffer. */
  lemma SizeIsChecked(len: nat)
    requires len < SIZES
    ensures Size(len) < len <==> len >= 0x4000_0000_0000_0000
    ensures len < 0x4000_0000_0000_0000 ==> EncodedLength(len) < Size(len)
  {
    hide Size;
    if len >= 0x4000_0000_0000_0000 { SizeWraps(len, len / 0x4000_0000_0000_0000); } else { SizeFits(len); }
  }
}

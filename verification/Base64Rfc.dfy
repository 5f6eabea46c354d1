/** Section 4 of RFC 4648 on its own: the alphabet of its Table 1, groups of 24 bits, padding, and the test vectors of
    its section 10. */
module Base64Rfc {

  import opened Base64Text
  import opened Options

  /** The letter of a value: capitals, small letters, digits, plus and solidus. */
  function LetterOf(v: nat): char
    requires v < 64
  {
    if v < 26 then ('A' as int + v) as char
    else if v < 52 then ('a' as int + (v - 26)) as char
    else if v < 62 then ('0' as int + (v - 52)) as char
    else if v == 62 then '+' else '/'
  }

  lemma Table1(v: Octet)
    requires v < 64
    ensures Letter(v) as int == LetterOf(v as nat) as int
  {
  }

  // ----- groups -----

  /** The octet at `i`, or zero bits behind the end. */
  function OctetAt(s: seq<Octet>, i: nat): Octet {
    if i < |s| then s[i] else 0
  }

  /** Three octets side by side. */
  function Group(s: seq<Octet>, j: nat): bv24 {
    (OctetAt(s, 3 * j) as bv24 << 16) | (OctetAt(s, 3 * j + 1) as bv24 << 8) | OctetAt(s, 3 * j + 2) as bv24
  }

  /** The four values of six bits in a group, from the left. */
  function Sextet(g: bv24, i: nat): (v: Octet)
    requires i < 4
    ensures v < 64
  {
    ((g >> (18 - 6 * i)) & 0x3F) as Octet
  }

  lemma SextetsAre(x: Octet, y: Octet, z: Octet)
    ensures var g := (x as bv24 << 16) | (y as bv24 << 8) | z as bv24;
      Sextet(g, 0) == A(x) && Sextet(g, 1) == B(x, y) && Sextet(g, 2) == C(y, z) && Sextet(g, 3) == D(z)
  {
  }

  lemma GroupBehind(s: seq<Octet>, j: nat)
    requires |s| >= 3
    ensures Group(s, j + 1) == Group(s[3..], j)
  {
    assert forall i: nat :: OctetAt(s, i + 3) == OctetAt(s[3..], i);
  }

  /** The letter at `k` of the encoding: of the group that it belongs to, the six bits at its place, or a padding
      character where a group lacks the octet that would begin them. */
  function LetterAt(s: seq<Octet>, k: nat): Octet {
    if 3 * (k / 4) + k % 4 > |s| then PAD else Letter(Sextet(Group(s, k / 4), k % 4))
  }

  lemma FirstSextets(s: seq<Octet>)
    ensures Sextet(Group(s, 0), 0) == A(OctetAt(s, 0)) && Sextet(Group(s, 0), 1) == B(OctetAt(s, 0), OctetAt(s, 1))
    ensures Sextet(Group(s, 0), 2) == C(OctetAt(s, 1), OctetAt(s, 2)) && Sextet(Group(s, 0), 3) == D(OctetAt(s, 2))
  {
    hide Sextet, A, B, C, D;
    SextetsAre(OctetAt(s, 0), OctetAt(s, 1), OctetAt(s, 2));
  }

  lemma FirstGroup(s: seq<Octet>, k: nat)
    requires s != [] && k < 4
    ensures k < |Encoded(s)| && Encoded(s)[k] == LetterAt(s, k)
  {
    hide Letter, Sextet, A, B, C, D, Group;
    FirstSextets(s);
    assert k / 4 == 0 && k % 4 == k;
    var g := Group(s, 0);
    assert LetterAt(s, k) == if k > |s| then PAD else Letter(Sextet(g, k));
    if k == 0 {
    } else if k == 1 {
    } else if k == 2 {
    } else {
    }
  }

  /** Every group of three octets becomes four letters, and the last one is padded. */
  lemma {:induction false} EncodedAt(s: seq<Octet>, k: nat)
    requires k < |Encoded(s)|
    ensures Encoded(s)[k] == LetterAt(s, k)
    decreases |s|
  {
    hide Letter, Sextet, Group;
    if k < 4 {
      FirstGroup(s, k);
    } else {
      EncodedAt(s[3..], k - 4);
      GroupBehind(s, k / 4 - 1);
      assert (k - 4) / 4 == k / 4 - 1 && (k - 4) % 4 == k % 4;
    }
  }

  /** The test vectors of section 10, as octets. */
  lemma TestVectors()
    ensures Encoded([102]) == [90, 103, 61, 61]
    ensures Encoded([102, 111]) == [90, 109, 56, 61]
    ensures Encoded([102, 111, 111]) == [90, 109, 57, 118]
    ensures Encoded([102, 111, 111, 98]) == [90, 109, 57, 118, 89, 103, 61, 61]
  {
  }
}

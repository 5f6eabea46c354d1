/** base64.c: encoding and decoding between buffers. */
module Base64 {

  import opened Base64Text
  import opened Options

  /** The buffer of an encoding with a zero behind it. */
  ghost predicate Terminated(out: array<Octet>, s: seq<Octet>)
    reads out
  {
    |s| < out.Length && out[..|s|] == s && out[|s|] == 0
  }

  /** The two low bits of the last octet, and the four. */
  function BAlone(x: Octet): (v: Octet)
    ensures v == B(x, 0)
  {
    (x & 0x03) << 4
  }

  function CAlone(x: Octet): (v: Octet)
    ensures v == C(x, 0)
  {
    (x & 0x0F) << 2
  }

  /** What stands before `pos`. */
  ghost function Written(out: array<Octet>, pos: nat): (s: seq<Octet>)
    requires pos <= out.Length
    reads out
    ensures |s| == pos
  {
    out[..pos]
  }

  /** `*pos++ = c`. */
  method Put(out: array<Octet>, pos: nat, c: Octet) returns (next: nat)
    requires pos < out.Length
    modifies out
    ensures next == pos + 1 && Written(out, next) == old(Written(out, pos)) + [c]
  {
    out[pos] := c;
    next := pos + 1;
  }

  /** `*pos = '\0'`. */
  method Finish(out: array<Octet>, pos: nat)
    requires pos < out.Length
    modifies out
    ensures Terminated(out, old(Written(out, pos)))
  {
    out[pos] := 0;
  }

  /** `base64_encode`: null exactly for a length whose buffer size would wrap around. */
  method Encode(src: array<Octet>) returns (out: array?<Octet>, outLen: nat)
    requires src.Length < SIZES
    ensures out == null <==> src.Length >= 0x4000_0000_0000_0000
    ensures out != null ==> fresh(out) && out.Length == Size(src.Length)
    ensures out != null ==> outLen == |Encoded(src[..])| && Terminated(out, Encoded(src[..]))
  {
    hide Letter, Size, A, B, C, D, BAlone, CAlone, Encoded, Written, Terminated;
    SizeIsChecked(src.Length);
    var olen := Size(src.Length);
    if olen < src.Length {
      return null, 0;
    }
    out := new Octet[olen];
    ghost var input := src[..];
    var i, pos := 0, 0;
    assert input[0..] == input;
    while src.Length - i >= 3
      invariant 0 <= i <= src.Length && pos + EncodedLength(src.Length - i) == |Encoded(input)| < out.Length
      invariant Written(out, pos) + Encoded(input[i..]) == Encoded(input)
    {
      ghost var before := Written(out, pos);
      pos := Put(out, pos, Letter(A(src[i])));
      pos := Put(out, pos, Letter(B(src[i], src[i + 1])));
      pos := Put(out, pos, Letter(C(src[i + 1], src[i + 2])));
      pos := Put(out, pos, Letter(D(src[i + 2])));
      Appended(before, input[i..], Written(out, pos));
      assert input[i..][3..] == input[i + 3..];
      i := i + 3;
    }
    if src.Length - i > 0 {
      ghost var before := Written(out, pos);
      pos := Put(out, pos, Letter(A(src[i])));
      if src.Length - i == 1 {
        pos := Put(out, pos, Letter(BAlone(src[i])));
        pos := Put(out, pos, PAD);
      } else {
        pos := Put(out, pos, Letter(B(src[i], src[i + 1])));
        pos := Put(out, pos, Letter(CAlone(src[i + 1])));
      }
      pos := Put(out, pos, PAD);
      LastAppended(before, input[i..], Written(out, pos));
    } else {
      assert Written(out, pos) + [] == Written(out, pos) && Encoded(input[i..]) == [];
    }
    assert src[..] == input;
    outLen := pos;
    Finish(out, pos);
  }

  lemma {:induction false} Appended(before: seq<Octet>, s: seq<Octet>, now: seq<Octet>)
    requires |s| >= 3
    requires now == before + [Letter(A(s[0]))] + [Letter(B(s[0], s[1]))] + [Letter(C(s[1], s[2]))] + [Letter(D(s[2]))]
    ensures before + Encoded(s) == now + Encoded(s[3..])
  {
    hide Letter, A, B, C, D, Encoded;
    FirstBlock(s);
    FourPuts(before, [Letter(A(s[0])), Letter(B(s[0], s[1])), Letter(C(s[1], s[2])), Letter(D(s[2]))], Encoded(s[3..]));
  }

  lemma {:induction false} LastAppended(before: seq<Octet>, s: seq<Octet>, now: seq<Octet>)
    requires 1 <= |s| <= 2
    requires now == before + [Letter(A(s[0]))] + [Letter(B(s[0], if |s| == 2 then s[1] else 0))] + [if |s| == 2 then Letter(C(s[1], 0)) else PAD] + [PAD]
    ensures now == before + Encoded(s)
  {
    hide Letter, A, B, C, D, Encoded;
    LastBlock(s);
    FourPuts(before, Encoded(s), []);
    assert Encoded(s) + [] == Encoded(s);
  }

  lemma {:induction false} FirstBlock(s: seq<Octet>)
    requires |s| >= 3
    ensures Encoded(s) == [Letter(A(s[0])), Letter(B(s[0], s[1])), Letter(C(s[1], s[2])), Letter(D(s[2]))] + Encoded(s[3..])
  {
    hide Letter, A, B, C, D;
  }

  lemma {:induction false} LastBlock(s: seq<Octet>)
    requires 1 <= |s| <= 2
    ensures Encoded(s) == [Letter(A(s[0])), Letter(B(s[0], if |s| == 2 then s[1] else 0)), if |s| == 2 then Letter(C(s[1], 0)) else PAD, PAD]
  {
    hide Letter, A, B, C, D;
  }

  lemma FourPuts(before: seq<Octet>, q: seq<Octet>, rest: seq<Octet>)
    requires |q| == 4
    ensures before + (q + rest) == before + [q[0]] + [q[1]] + [q[2]] + [q[3]] + rest
  {
    assert q == [q[0]] + [q[1]] + [q[2]] + [q[3]];
  }

  // ----- decoding -----

  /** An octet as an index. */
  function Index(c: Octet): (i: nat)
    ensures i < 256
  {
    c as nat
  }

  lemma SameIndex(c: Octet, d: Octet)
    ensures Index(c) == Index(d) <==> c == d
  {
    assert (c as nat) as Octet == c && (d as nat) as Octet == d;
  }

  ghost predicate Complete(dtable: array<Octet>)
    requires dtable.Length == 256
    reads dtable
  {
    forall c: Octet :: dtable[Index(c)] == Value(c)
  }

  /** The table of `base64_decode`: the place of each letter, zero for padding, the high bit for all others. */
  method Table() returns (dtable: array<Octet>)
    ensures fresh(dtable) && dtable.Length == 256 && Complete(dtable)
  {
    hide Index, Place, Letter;
    dtable := new Octet[256](_ => UNKNOWN);
    var i: Octet := 0;
    while i < 64
      invariant i <= 64 && forall c: Octet :: dtable[Index(c)] == if Place(c) < i then Place(c) else UNKNOWN
      decreases 64 - i
    {
      forall c: Octet ensures Index(c) == Index(Letter(i)) <==> c == Letter(i) { SameIndex(c, Letter(i)); }
      forall c: Octet ensures Place(c) == i <==> c == Letter(i) { LetterIff(c, i); }
      dtable[Index(Letter(i))] := i;
      i := i + 1;
    }
    forall c: Octet ensures Index(c) == Index(PAD) <==> c == PAD { SameIndex(c, PAD); }
    dtable[Index(PAD)] := 0;
  }

  lemma LetterIff(c: Octet, i: Octet)
    requires i < 64
    ensures Place(c) == i <==> c == Letter(i)
  {
    PlaceOfLetter(i);
    if Place(c) == i { LetterOfPlace(c); }
  }

  lemma NextSymbol(t: seq<Octet>, i: nat)
    requires i < |t|
    ensures Symbols(t[i..]) == if Value(t[i]) != UNKNOWN then [t[i]] + Symbols(t[i + 1..]) else Symbols(t[i + 1..])
  {
    assert t[i..][1..] == t[i + 1..];
  }

  lemma NoMore(t: seq<Octet>, held: seq<Octet>)
    requires |held| < 4
    ensures Symbols(t[|t|..]) == [] && Decoded(held + []) == Some([])
  {
  }

  lemma OneMoreHeld(held: seq<Octet>, c: Octet, rest: seq<Octet>)
    ensures held + ([c] + rest) == held + [c] + rest && Pads(held + [c]) == Pads(held) + if c == PAD then 1 else 0
  {
    assert (held + [c])[..|held|] == held;
  }

  /** A full block, with what was written before it. */
  lemma FullBlock(before: seq<Octet>, held: seq<Octet>, rest: seq<Octet>)
    requires |held| == 4
    ensures var d := Before(before, Decoded(held + rest));
      if Pads(held) == 0 then d == Before(before + Three(held), Decoded(rest))
      else if Pads(held) == 1 then d == Some(before + Three(held)[..2])
      else if Pads(held) == 2 then d == Some(before + Three(held)[..1])
      else d == None
  {
    hide Three, Pads;
    assert (held + rest)[..4] == held && (held + rest)[4..] == rest;
    if Pads(held) == 0 && Decoded(rest) != None {
      assert before + (Three(held) + Decoded(rest).value) == before + Three(held) + Decoded(rest).value;
    }
  }

  /** The three octets of a block. */
  method PutBlock(out: array<Octet>, pos: nat, block: seq<Octet>, ghost held: seq<Octet>) returns (next: nat)
    requires |block| == |held| == 4 && (forall j :: 0 <= j < 4 ==> block[j] == Value(held[j])) && pos + 3 <= out.Length
    modifies out
    ensures next == pos + 3 && Written(out, next) == old(Written(out, pos)) + Three(held)
  {
    hide Value, X, Y, Z, Written;
    ghost var before := Written(out, pos);
    next := Put(out, pos, X(block[0], block[1]));
    next := Put(out, next, Y(block[1], block[2]));
    next := Put(out, next, Z(block[2], block[3]));
    assert before + Three(held) == before + [Three(held)[0]] + [Three(held)[1]] + [Three(held)[2]];
  }

  lemma MeaningIs(t: seq<Octet>)
    ensures Meaning(t) == if |Symbols(t)| == 0 || |Symbols(t)| % 4 != 0 then None else Decoded(Symbols(t))
  {
  }

  lemma BeforeNothing(s: seq<Octet>)
    ensures Before(s, Some([])) == Some(s)
  {
    assert s + [] == s;
  }

  /** The last octets are taken back. */
  lemma TakenBack(out: array<Octet>, pos: nat, before: seq<Octet>, three: seq<Octet>)
    requires |three| == 3 && pos <= out.Length && Written(out, pos) == before + three
    ensures pos >= 3 && Written(out, pos - 1) == before + three[..2] && Written(out, pos - 2) == before + three[..1]
  {
    assert Written(out, pos - 1) == Written(out, pos)[..pos - 1] && Written(out, pos - 2) == Written(out, pos)[..pos - 2];
  }

  /** `base64_decode`, without the zero behind the result. */
  method Decode(src: array<Octet>) returns (out: array?<Octet>, outLen: nat)
    ensures out == null <==> Meaning(src[..]) == None
    ensures out != null ==> fresh(out) && outLen <= out.Length && Some(Written(out, outLen)) == Meaning(src[..])
  {
    hide Index, Value, Symbols, Decoded, Pads, X, Y, Z, Written, Before, Three, Meaning;
    var dtable := Table();
    ghost var input := src[..];
    ghost var all := Symbols(input);
    assert input[0..] == input;
    NoMore(input, []);
    MeaningIs(input);
    var count := 0;
    for i := 0 to src.Length
      invariant count + |Symbols(input[i..])| == |all| && Complete(dtable)
    {
      NextSymbol(input, i);
      assert src[i] == input[i];
      if dtable[Index(src[i])] != UNKNOWN {
        count := count + 1;
      }
    }
    if count == 0 || count % 4 != 0 {
      return null, 0;
    }
    out := new Octet[count / 4 * 3];
    ghost var held, blocks := [], 0;
    var block, pad, pos := [0, 0, 0, 0], 0, 0;
    count := 0;
    Nothing(out, all);
    for i := 0 to src.Length
      invariant Complete(dtable) && |held| == count < 4 && |block| == 4 && pad == Pads(held) && forall j :: 0 <= j < count ==> block[j] == Value(held[j])
      invariant pos == 3 * blocks && |all| == 4 * blocks + count + |Symbols(input[i..])|
      invariant Decoded(all) == Before(Written(out, pos), Decoded(held + Symbols(input[i..])))
    {
      NextSymbol(input, i);
      assert src[i] == input[i];
      var tmp := dtable[Index(src[i])];
      if tmp == UNKNOWN {
        continue;
      }
      OneMoreHeld(held, src[i], Symbols(input[i + 1..]));
      if src[i] == PAD {
        pad := pad + 1;
      }
      block := block[count := tmp];
      held := held + [src[i]];
      count := count + 1;
      if count == 4 {
        ghost var before := Written(out, pos);
        pos := PutBlock(out, pos, block, held);
        FullBlock(before, held, Symbols(input[i + 1..]));
        TakenBack(out, pos, before, Three(held));
        count := 0;
        if pad != 0 {
          if pad == 1 {
            pos := pos - 1;
          } else if pad == 2 {
            pos := pos - 2;
          } else {
            return null, 0;
          }
          return out, pos;
        }
        held := [];
        blocks := blocks + 1;
        NothingHeld(Symbols(input[i + 1..]));
      }
    }
    NoMore(input, held);
    BeforeNothing(Written(out, pos));
    return out, pos;
  }

  lemma Nothing(out: array<Octet>, s: seq<Octet>)
    ensures Decoded(s) == Before(Written(out, 0), Decoded([] + s)) && Pads([]) == 0
  {
    assert [] + s == s;
    assert Decoded(s) != None ==> [] + Decoded(s).value == Decoded(s).value;
  }

  lemma NothingHeld(rest: seq<Octet>)
    ensures [] + rest == rest && Pads([]) == 0
  {
  }
}

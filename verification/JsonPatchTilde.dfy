/** Keys with a tilde: escaping and decoding are both wrong about it, and sometimes the two make up for each other. */
module JsonPatchTilde {

  import opened CStrings
  import opened JsonPatch
  import opened JsonPatchBelow
  import opened JsonPatchRoundTrip
  import opened JsonPaths
  import opened JsonPointer
  import opened JsonTree
  import opened Options
  import opened Sequences

  /** A C string without a slash, so that escaping reads no fresh memory. */
  predicate SlashFree(key: string) {
    '/' !in key && '\0' !in key
  }

  function Escaped(key: string): string {
    if key == [] then [] else (if key[0] == '~' then "~1" else [key[0]]) + Escaped(key[1..])
  }

  lemma {:induction false} EncodesTo(key: string, u: char)
    requires SlashFree(key)
    ensures EncodeKey(key, u) == Escaped(key)
  {
    if key != [] {
      var mem := seq(EncodedLength(key), _ => u);
      assert key[0] in key && forall c :: c in key[1..] ==> c in key;
      EncodesTo(key[1..], u);
      assert mem[Width(key[0])..] == seq(EncodedLength(key[1..]), _ => u);
    }
  }

  lemma {:induction false} EscapedIsToken(key: string)
    requires SlashFree(key)
    ensures SlashFree(Escaped(key)) && |Escaped(key)| >= |key|
  {
    if key != [] {
      assert key[0] in key && forall c :: c in key[1..] ==> c in key;
      EscapedIsToken(key[1..]);
    }
  }

  lemma {:induction false} EscapedAt(key: string, p: nat)
    requires p < |key| && key[p] == '~' && '~' !in key[..p]
    ensures Escaped(key) == key[..p] + "~1" + Escaped(key[p + 1..])
  {
    if p == 0 {
      assert key[..0] + "~1" == "~1";
    } else {
      assert key[0] == key[..p][0] && key[1..][..p - 1] == key[..p][1..] && key[1..][p..] == key[p + 1..];
      EscapedAt(key[1..], p - 1);
      assert [key[0]] + key[1..p] == key[..p];
      assert key[1..][..p - 1] == key[1..p];
      assert [key[0]] + (key[1..p] + "~1" + Escaped(key[p + 1..])) == [key[0]] + key[1..p] + "~1" + Escaped(key[p + 1..]);
    }
  }

  lemma {:induction false} EscapedPlain(key: string)
    requires '~' !in key
    ensures Escaped(key) == key
  {
    if key != [] {
      assert key[0] in key && forall c :: c in key[1..] ==> c in key;
      EscapedPlain(key[1..]);
      assert key == [key[0]] + key[1..];
    }
  }

  /** Decoding passes the characters in front of the first tilde. */
  lemma {:induction false} Passed(buf: string, r: nat, p: nat)
    requires r <= p < |buf| && Terminated(buf, p) && forall j :: r <= j < p ==> buf[j] != '\0' && buf[j] != '~'
    ensures Terminated(buf, r) && DecodeFrom(buf, r, r) == DecodeFrom(buf, p, p)
    decreases p - r
  {
    hide DecodeFrom;
    assert Terminated(buf, r) by { var i :| p <= i < |buf| && buf[i] == '\0'; assert r <= i; }
    if r < p {
      DecodeFromStep(buf, r, r);
      Passed(buf, r + 1, p);
    }
  }

  /** After an escape at `p` with something behind it there is a slash behind the tilde. */
  lemma SlashAppears(buf: string, p: nat)
    requires p + 2 < |buf| && buf[p] == '~' && buf[p + 1] == '1' && buf[p + 2] != '\0' && Terminated(buf, p)
    requires buf[p + 2] == '~' ==> p + 3 < |buf| && buf[p + 3] == '1'
    ensures DecodeFrom(buf, p, p)[..p + 2] == buf[..p + 1] + ['/']
  {
    hide DecodeFrom, Terminated;
    var next := buf[p + 1 := '/'];
    DecodeFromStep(buf, p, p);
    DecodeFromStep(next, p + 2, p + 1);
    if buf[p + 2] == '~' {
      WrittenStays(next[p + 2 := '/'], p + 4, p + 2);
    } else {
      WrittenStays(next, p + 3, p + 2);
    }
  }

  /** An escape at the end. */
  lemma TildeAtEnd(buf: string, p: nat)
    requires p + 2 < |buf| && buf[p] == '~' && buf[p + 1] == '1' && buf[p + 2] == '\0' && Terminated(buf, p)
    ensures DecodeFrom(buf, p, p) == buf[p + 1 := '\0']
  {
    hide DecodeFrom, Terminated;
    DecodeFromStep(buf, p, p);
    DecodeFromStep(buf[p + 1 := '/'], p + 2, p + 1);
  }

  lemma {:induction false} FirstTilde(key: string) returns (p: nat)
    requires '~' in key
    ensures p < |key| && key[p] == '~' && '~' !in key[..p]
  {
    if key[0] == '~' {
      p := 0;
    } else {
      assert '~' in key[1..] by { var i :| 0 <= i < |key| && key[i] == '~'; assert key[1..][i - 1] == '~'; }
      var q := FirstTilde(key[1..]);
      p := q + 1;
      assert key[..p] == [key[0]] + key[1..][..q];
    }
  }

  predicate TildeOnlyAtEnd(key: string) {
    forall i :: 0 <= i < |key| - 1 ==> key[i] != '~'
  }

  /** As the last token an escaped key is decoded to the key exactly when it has no tilde but at its end. */
  lemma LastTokenIff(key: string, u: char)
    requires SlashFree(key)
    ensures DecodeToken(EncodeKey(key, u)) == key <==> TildeOnlyAtEnd(key)
    ensures !TildeOnlyAtEnd(key) ==> '/' in DecodeToken(EncodeKey(key, u))
  {
    hide DecodeFrom, CString, Escaped;
    EncodesTo(key, u);
    EscapedIsToken(key);
    var e := Escaped(key);
    if '~' !in key {
      EscapedPlain(key);
      DecodeTokenFree(key);
      assert forall i :: 0 <= i < |key| ==> key[i] in key;
    } else {
      var p := FirstTilde(key);
      EscapedAt(key, p);
      var buf := e + ['\0'];
      var back := key[p + 1..];
      assert buf == key[..p] + "~1" + Escaped(back) + ['\0'];
      TokenBuffer(key, p, buf, Escaped(back));
      Passed(buf, 0, p);
      if back == [] {
        EscapedPlain(back);
        TildeAtEnd(buf, p);
        assert buf[p + 1 := '\0'] == key + ['\0'] + ['\0'];
        CStringOf(key, ['\0']);
        assert forall i :: 0 <= i < |key| - 1 ==> key[i] == key[..p][i];
      } else {
        BackStarts(back);
        SlashAppears(buf, p);
        SlashStays(DecodeFrom(buf, 0, 0), buf, p);
        assert key[p] == '~' && p < |key| - 1;
      }
    }
  }

  lemma TokenBuffer(key: string, p: nat, buf: string, back: string)
    requires SlashFree(key) && p < |key| && '~' !in key[..p] && buf == key[..p] + "~1" + back + ['\0']
    ensures |buf| == p + 3 + |back| && buf[p] == '~' && buf[p + 1] == '1' && buf[|buf| - 1] == '\0'
    ensures forall j :: 0 <= j < p ==> buf[j] != '\0' && buf[j] != '~'
    ensures forall j :: 0 <= j < |back| ==> buf[p + 2 + j] == back[j]
    ensures Terminated(buf, 0) && Terminated(buf, p)
  {
    forall j | 0 <= j < p ensures buf[j] != '\0' && buf[j] != '~' { assert buf[j] == key[..p][j] == key[j] && key[j] in key; }
    assert buf[|buf| - 1] == '\0';
  }

  lemma BackStarts(back: string)
    requires back != [] && (forall c :: c in back ==> c != '\0')
    ensures var e := Escaped(back); e != [] && e[0] != '\0' && (e[0] == '~' ==> |e| >= 2 && e[1] == '1')
  {
    assert back[0] in back;
  }

  lemma SlashStays(f: string, buf: string, p: nat)
    requires p + 2 <= |f| && p + 1 < |buf| && f[..p + 2] == buf[..p + 1] + ['/'] && forall j :: 0 <= j <= p ==> buf[j] != '\0'
    ensures '/' in CString(f)
  {
    var front := f[..p + 2];
    assert f == front + f[p + 2..];
    FrontKept(front, f[p + 2..]);
    assert CString(f)[p + 1] == '/';
  }

  lemma {:induction false} FrontKept(a: string, b: string)
    requires '\0' !in a
    ensures a <= CString(a + b)
  {
    if a != [] {
      assert a[0] in a && (a + b)[1..] == a[1..] + b;
      FrontKept(a[1..], b);
    }
  }

  /** Letter case makes no slash. */
  lemma SlashNotFolded(a: string, b: string)
    requires KeyEq(a, b, false) && '/' in b
    ensures '/' in a
  {
    var i :| 0 <= i < |b| && b[i] == '/';
    assert Fold(a)[i] == Fold(b)[i] == Lower('/');
    assert a[i] in a;
  }

  // ----- where a key in a path leads -----

  /** The key that a patch comes to which has this one as its last token. */
  function LandsOn(key: string): string {
    DecodeToken(Escaped(key))
  }

  lemma LandsOnIff(key: string, u: char)
    requires SlashFree(key)
    ensures EncodeKey(key, u) == Escaped(key) && SlashFree(Escaped(key))
    ensures LandsOn(key) == key <==> TildeOnlyAtEnd(key)
    ensures !TildeOnlyAtEnd(key) ==> '/' in LandsOn(key)
  {
    hide DecodeToken;
    EncodesTo(key, u);
    EscapedIsToken(key);
    LastTokenIff(key, u);
  }

  lemma PlainLandsOn(key: string)
    requires PlainKey(key)
    ensures LandsOn(key) == key && SlashFree(key) && TildeOnlyAtEnd(key)
  {
    hide LandsOn;
    assert forall i :: 0 <= i < |key| ==> key[i] in key;
    LandsOnIff(key, '\0');
  }

  /** The key that a token on the way stands for: every tilde has become a slash. */
  function Meant(key: string): string {
    if key == [] then [] else [if key[0] == '~' then '/' else key[0]] + Meant(key[1..])
  }

  lemma {:induction false} MeantIs(key: string)
    ensures Unescape(Escaped(key)) == Some(Meant(key))
    ensures if '~' in key then '/' in Meant(key) else Meant(key) == key
  {
    if key != [] {
      MeantIs(key[1..]);
      var e := Escaped(key[1..]);
      assert key == [key[0]] + key[1..];
      if key[0] == '~' {
        assert ("~1" + e)[2..] == e;
        assert Meant(key)[0] == '/';
      } else {
        assert ([key[0]] + e)[1..] == e;
        assert '~' in key <==> '~' in key[1..];
        if '~' in key { assert Meant(key)[1..] == Meant(key[1..]); }
      }
    }
  }

  /** A key with a slash is none of the keys without. */
  lemma SlashIsElsewhere(a: string, key: string, cs: bool)
    requires SlashFree(a) && '/' in key
    ensures !KeyEq(a, key, cs) && !KeyEq(key, a, cs)
  {
    if KeyEq(a, key, cs) || KeyEq(key, a, cs) {
      assert KeyEq(a, key, false) by { hide Fold; }
      SlashNotFolded(a, key);
    }
  }

  /** A token on the way selects the first member with the key that it stands for. */
  lemma TokenSelected(ms: seq<Member>, key: string, cs: bool)
    requires SlashFree(key) && Has(ms, Meant(key), cs)
    ensures Selects(Object(ms), Escaped(key), Find(ms, Meant(key), cs), cs)
  {
    hide Find, KeyEq, FindToken, PointerMatches, Unescape, Meant, Escaped;
    MeantIs(key);
    EscapedIsToken(key);
    forall rest | EndsToken(rest) ensures FindToken(ms, Escaped(key) + rest, cs) == Find(ms, Meant(key), cs) {
      forall j | 0 <= j < |ms| ensures PointerMatches(ms[j].key, Escaped(key) + rest, cs) <==> KeyEq(ms[j].key, Meant(key), cs) {
        PointerMatchesMeaning(ms[j].key, Escaped(key), rest, cs);
      }
      FindTokenIs(ms, Escaped(key) + rest, cs, Find(ms, Meant(key), cs));
    }
  }

  lemma TokenMissing(ms: seq<Member>, key: string, rest: string, cs: bool)
    requires SlashFree(key) && !Has(ms, Meant(key), cs) && EndsToken(rest)
    ensures Resolve(Object(ms), "/" + Escaped(key) + rest, cs) == None
  {
    hide Find, KeyEq, FindToken, PointerMatches, SkipToken, Unescape, Meant, Escaped;
    MeantIs(key);
    EscapedIsToken(key);
    var e := Escaped(key);
    forall j | 0 <= j < |ms| ensures !PointerMatches(ms[j].key, e + rest, cs) {
      PointerMatchesMeaning(ms[j].key, e, rest, cs);
      NotFoundAt(ms, Meant(key), cs, j);
    }
    assert ("/" + e + rest)[1..] == e + rest;
  }

  lemma NotFoundAt(ms: seq<Member>, key: string, cs: bool, j: nat)
    requires !Has(ms, key, cs) && j < |ms|
    ensures !KeyEq(ms[j].key, key, cs)
  {
  }
}

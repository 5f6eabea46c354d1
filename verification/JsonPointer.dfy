/** JSON Pointer strings: escaping, matching one reference token, decoding an
    array index, resolving a pointer in a tree and building the pointer of a node.

    A node is named by its path: the child indices that lead to it from the root. */
module JsonPointer {
  import opened CStrings
  import opened JsonTree
  import opened Options
  import opened Sequences

  // ----- one reference token -----

  /** What follows a token: nothing, or the next token. */
  predicate EndsToken(rest: string) {
    rest == [] || rest[0] == '/'
  }

  function CharEq(a: char, b: char, cs: bool): bool {
    if cs then a == b else Lower(a) == Lower(b)
  }

  /** `compare_pointers`: does the pointer's next token name this key? */
  function PointerMatches(name: string, pointer: string, cs: bool): bool
    decreases |name|
  {
    if name != [] && pointer != [] && pointer[0] != '/' then
      if pointer[0] == '~' then
        && |pointer| > 1
        && ((pointer[1] == '0' && name[0] == '~') || (pointer[1] == '1' && name[0] == '/'))
        && PointerMatches(name[1..], pointer[2..], cs)
      else
        CharEq(name[0], pointer[0], cs) && PointerMatches(name[1..], pointer[1..], cs)
    else
      (pointer != [] && pointer[0] != '/') == (name != [])
  }

  method ComparePointers(name: string, pointer: string, cs: bool) returns (same: bool)
    ensures same == PointerMatches(name, pointer, cs)
  {
    var n, p := 0, 0;
    while n < |name| && p < |pointer| && pointer[p] != '/'
      invariant n <= |name| && p <= |pointer|
      invariant PointerMatches(name, pointer, cs) == PointerMatches(name[n..], pointer[p..], cs)
      decreases |name| - n
    {
      if pointer[p] == '~' {
        var escaped := if p + 1 < |pointer| then pointer[p + 1] else '\0';
        if (escaped != '0' || name[n] != '~') && (escaped != '1' || name[n] != '/') {
          return false;
        }
        p := p + 1;
      } else if !CharEq(name[n], pointer[p], cs) {
        return false;
      }
      n, p := n + 1, p + 1;
    }
    if (p < |pointer| && pointer[p] != '/') != (n < |name|) {
      return false;
    }
    return true;
  }

  /** The key a token stands for (sections 3 and 4 of RFC 6901): `~0` is a tilde,
      `~1` a slash, and a tilde before anything else is an error. */
  function Unescape(token: string): Option<string> {
    if token == [] then Some([])
    else if token[0] == '~' then
      if |token| < 2 || (token[1] != '0' && token[1] != '1') then None
      else
        match Unescape(token[2..])
        case None => None
        case Some(s) => Some([if token[1] == '0' then '~' else '/'] + s)
    else
      match Unescape(token[1..])
      case None => None
      case Some(s) => Some([token[0]] + s)
  }

  lemma KeyEqCons(a: string, b: string, cs: bool)
    requires a != [] && b != []
    ensures KeyEq(a, b, cs) <==> CharEq(a[0], b[0], cs) && KeyEq(a[1..], b[1..], cs)
  {
    var ka, kb := Key(a, cs), Key(b, cs);
    assert Key(a[1..], cs) == ka[1..] && Key(b[1..], cs) == kb[1..];
    assert CharEq(a[0], b[0], cs) <==> ka[0] == kb[0];
    assert ka == [ka[0]] + ka[1..] && kb == [kb[0]] + kb[1..];
  }

  lemma KeyEqLength(a: string, b: string, cs: bool)
    requires KeyEq(a, b, cs)
    ensures |a| == |b|
  {
    assert |Key(a, cs)| == |Key(b, cs)|;
  }

  /** A token matches exactly the keys that equal what it stands for. */
  lemma {:induction false} PointerMatchesMeaning(name: string, token: string, rest: string, cs: bool)
    requires '/' !in token && EndsToken(rest)
    ensures PointerMatches(name, token + rest, cs)
            <==> Unescape(token).Some? && KeyEq(name, Unescape(token).value, cs)
    decreases |name|
  {
    var p := token + rest;
    if token == [] {
      if Unescape(token).Some? && KeyEq(name, [], cs) { KeyEqLength(name, [], cs); }
      assert p == rest;
    } else if name == [] {
      if Unescape(token).Some? && KeyEq(name, Unescape(token).value, cs) { KeyEqLength(name, Unescape(token).value, cs); }
    } else if token[0] == '~' {
      if |token| >= 2 {
        assert p[2..] == token[2..] + rest;
        PointerMatchesMeaning(name[1..], token[2..], rest, cs);
        if Unescape(token).Some? {
          KeyEqCons(name, Unescape(token).value, cs);
          assert Unescape(token).value[1..] == Unescape(token[2..]).value;
        }
      } else if rest != [] {
        assert p[1] == '/';
      }
    } else {
      assert p[1..] == token[1..] + rest;
      PointerMatchesMeaning(name[1..], token[1..], rest, cs);
      if Unescape(token).Some? {
        KeyEqCons(name, Unescape(token).value, cs);
        assert Unescape(token).value[1..] == Unescape(token[1..]).value;
      }
    }
  }

  // ----- escaping a key -----

  /** How many bytes a character of the key takes. */
  function Width(c: char): nat {
    if c == '~' || c == '/' then 2 else 1
  }

  /** `pointer_encoded_length`. */
  function EncodedLength(s: string): (n: nat)
    ensures n >= |s|
  {
    if s == [] then 0 else Width(s[0]) + EncodedLength(s[1..])
  }

  /** What the escaping of one character leaves in memory that held `mem`:
      for a slash only the second byte is written, and a tilde becomes `~1`. */
  function EncodedChar(c: char, mem: string): (r: string)
    requires |mem| == Width(c)
    ensures |r| == |mem|
  {
    if c == '/' then [mem[0], '1'] else if c == '~' then ['~', '1'] else [c]
  }

  /** What `encode_string_as_pointer` leaves in memory that held `mem`. */
  function Encode(s: string, mem: string): (r: string)
    requires |mem| == EncodedLength(s)
    ensures |r| == |mem|
  {
    if s == [] then []
    else
      var w := Width(s[0]);
      EncodedChar(s[0], mem[..w]) + Encode(s[1..], mem[w..])
  }

  method PointerEncodedLength(s: string) returns (length: nat)
    ensures length == EncodedLength(s)
  {
    length := 0;
    var i := 0;
    while i < |s|
      invariant i <= |s| && length + EncodedLength(s[i..]) == EncodedLength(s)
    {
      if s[i] == '~' || s[i] == '/' {
        length := length + 1;
      }
      i := i + 1;
      length := length + 1;
    }
  }

  /** The loop of `encode_string_as_pointer`: the memory it leaves when it still has to write
      `source` at position `d` of `mem`, terminator included. */
  function EncodeInto(mem: string, d: nat, source: string): (result: string)
    requires d + EncodedLength(source) < |mem|
    ensures |result| == |mem|
    decreases |source|
  {
    if source == [] then mem[d := '\0']
    else
      EncodeInto(WithChar(mem, d, source[0]), d + Width(source[0]), source[1..])
  }

  function WithChar(mem: string, d: nat, c: char): (result: string)
    requires d + Width(c) <= |mem|
    ensures |result| == |mem|
  {
    if c == '/' then mem[d + 1 := '1'] else if c == '~' then mem[d := '~'][d + 1 := '1'] else mem[d := c]
  }

  /** `encode_string_as_pointer`, writing into memory the caller allocated. */
  method EncodeStringAsPointer(destination: array<char>, start: nat, source: string)
    requires start + EncodedLength(source) < destination.Length
    modifies destination
    ensures destination[..] == EncodeInto(old(destination[..]), start, source)
  {
    var s: nat, d: nat := 0, start;
    while s < |source|
      invariant s <= |source| && d + EncodedLength(source[s..]) < destination.Length
      invariant EncodeInto(destination[..], d, source[s..]) == EncodeInto(old(destination[..]), start, source)
    {
      if source[s] == '/' {
        destination[d + 1] := '1';
        d := d + 1;
      } else if source[s] == '~' {
        destination[d] := '~';
        destination[d + 1] := '1';
        d := d + 1;
      } else {
        destination[d] := source[s];
      }
      assert source[s..][1..] == source[s + 1..];
      s, d := s + 1, d + 1;
    }
    destination[d] := '\0';
  }

  /** It overwrites the `EncodedLength` bytes `m` with `Encode(source, m)`, the next byte with the
      terminator, and nothing else. */
  lemma {:induction false} EncodeIntoIs(head: string, m: string, x: char, tail: string, source: string)
    requires |m| == EncodedLength(source)
    ensures EncodeInto(head + m + [x] + tail, |head|, source) == head + Encode(source, m) + ['\0'] + tail
    decreases |source|
  {
    hide Encode, EncodeInto, EncodedChar, WithChar;
    var mem := head + m + [x] + tail;
    IntoStep(mem, |head|, source);
    EncodeStep(source, m);
    if source == [] {
      assert mem[|head| := '\0'] == head + ['\0'] + tail && head + Encode(source, m) == head;
    } else {
      var w := Width(source[0]);
      var e, m' := EncodedChar(source[0], m[..w]), m[w..];
      var after := m' + [x] + tail;
      EncodeIntoIs(head + e, m', x, tail, source[1..]);
      WriteChar(head, source[0], m[..w], after);
      assert mem == head + m[..w] + after;
      assert head + e + after == head + e + m' + [x] + tail;
      Associative(head, e, Encode(source[1..], m'));
    }
  }

  lemma {:induction false} IntoStep(mem: string, d: nat, source: string)
    requires d + EncodedLength(source) < |mem|
    ensures EncodeInto(mem, d, source)
         == if source == [] then mem[d := '\0'] else EncodeInto(WithChar(mem, d, source[0]), d + Width(source[0]), source[1..])
  {
    hide WithChar;
  }

  lemma {:induction false} EncodeStep(source: string, m: string)
    requires |m| == EncodedLength(source)
    ensures source == [] ==> Encode(source, m) == []
    ensures source != [] ==> var w := Width(source[0]);
      |m| >= w && Encode(source, m) == EncodedChar(source[0], m[..w]) + Encode(source[1..], m[w..])
  {
    hide EncodedChar;
  }

  lemma WriteChar(head: string, c: char, m: string, tail: string)
    requires |m| == Width(c)
    ensures head + EncodedChar(c, m) + tail == WithChar(head + m + tail, |head|, c)
  {
  }

  /** A key that needs no escaping. */
  predicate Free(key: string) {
    '~' !in key && '/' !in key
  }

  /** A tilde never survives; a slash does exactly where the memory already held a tilde. */
  predicate Survives(s: string, mem: string)
    requires |mem| == EncodedLength(s)
  {
    if s == [] then true
    else if s[0] == '/' then mem[0] == '~' && Survives(s[1..], mem[2..])
    else if s[0] == '~' then false
    else Survives(s[1..], mem[1..])
  }

  lemma {:induction false} EncodeFree(s: string, mem: string)
    requires |mem| == EncodedLength(s) && Free(s)
    ensures Encode(s, mem) == s && Survives(s, mem)
  {
    if s != [] {
      assert s[0] in s && forall c :: c in s[1..] ==> c in s;
      EncodeFree(s[1..], mem[1..]);
      assert s == [s[0]] + s[1..];
    }
  }

  /** An escaped key that survives is one token, and stands for the key. */
  lemma {:induction false} SurvivorUnescapes(s: string, mem: string)
    requires |mem| == EncodedLength(s) && Survives(s, mem)
    ensures '/' !in Encode(s, mem)
    ensures Unescape(Encode(s, mem)) == Some(s)
  {
    if s != [] {
      assert s == [s[0]] + s[1..];
      var e := Encode(s, mem);
      if s[0] == '/' {
        SurvivorUnescapes(s[1..], mem[2..]);
        assert e[2..] == Encode(s[1..], mem[2..]);
        assert e == ['~', '1'] + e[2..];
      } else {
        SurvivorUnescapes(s[1..], mem[1..]);
        assert e[1..] == Encode(s[1..], mem[1..]);
        assert e == [s[0]] + e[1..];
      }
    }
  }

  /** The escaped key matches the key it was made from exactly when it survives the escaping. */
  lemma {:induction false} EncodedMatchesIff(s: string, mem: string, rest: string, cs: bool)
    requires |mem| == EncodedLength(s) && EndsToken(rest)
    ensures PointerMatches(s, Encode(s, mem) + rest, cs) <==> Survives(s, mem)
  {
    if s == [] {
      assert Encode(s, mem) + rest == rest;
    } else {
      var w := Width(s[0]);
      var c, p := EncodedChar(s[0], mem[..w]), Encode(s[1..], mem[w..]) + rest;
      EncodedMatchesIff(s[1..], mem[w..], rest, cs);
      assert Encode(s, mem) + rest == c + p && s == [s[0]] + s[1..];
      FirstCharMatches(s[0], mem[..w], s[1..], p, cs);
    }
  }

  lemma FirstCharMatches(c: char, mem: string, name: string, p: string, cs: bool)
    requires |mem| == Width(c)
    ensures PointerMatches([c] + name, EncodedChar(c, mem) + p, cs)
            <==> c != '~' && (c == '/' ==> mem[0] == '~') && PointerMatches(name, p, cs)
  {
    var n, q := [c] + name, EncodedChar(c, mem) + p;
    assert n[1..] == name;
    if c == '/' || c == '~' {
      assert q[2..] == p;
    } else {
      assert q[1..] == p;
    }
  }

  /** Escaping is correct whatever the fresh memory holds exactly for keys without `~` and `/`. */
  lemma {:induction false} EscapingCorrectIff(s: string, cs: bool)
    ensures (forall mem: string :: |mem| == EncodedLength(s) ==> PointerMatches(s, Encode(s, mem), cs)) <==> Free(s)
  {
    forall mem: string | |mem| == EncodedLength(s)
      ensures PointerMatches(s, Encode(s, mem), cs) <==> Survives(s, mem)
    {
      EncodedMatchesIff(s, mem, [], cs);
      assert Encode(s, mem) + [] == Encode(s, mem);
    }
    if Free(s) {
      forall mem: string | |mem| == EncodedLength(s) ensures Survives(s, mem) { EncodeFree(s, mem); }
    } else {
      var mem := seq(EncodedLength(s), _ => '\0');
      ClearMemoryFails(s, mem);
    }
  }

  lemma {:induction false} ClearMemoryFails(s: string, mem: string)
    requires |mem| == EncodedLength(s) && (forall c :: c in mem ==> c != '~') && !Free(s)
    ensures !Survives(s, mem)
  {
    if s[0] != '/' && s[0] != '~' {
      assert s == [s[0]] + s[1..];
      assert forall c :: c in mem[1..] ==> c in mem;
      ClearMemoryFails(s[1..], mem[1..]);
    } else {
      assert mem[0] in mem;
    }
  }

  // ----- unescaping in place -----

  predicate Terminated(buf: string, from: nat) {
    exists i :: from <= i < |buf| && buf[i] == '\0'
  }

  /** `decode_pointer_inplace` from the read position `r` and the write position `w` on: only
      escapes are ever written, the other characters are not moved. */
  function DecodeFrom(buf: string, r: nat, w: nat): (result: string)
    requires w <= r && Terminated(buf, r)
    ensures |result| == |buf|
    decreases |buf| - r
  {
    if buf[r] == '\0' then buf[w := '\0']
    else if buf[r] != '~' then DecodeFrom(buf, r + 1, w + 1)
    else if buf[r + 1] != '0' && buf[r + 1] != '1' then buf
    else
      var buf' := if buf[r + 1] == '0' then buf[w := '~'] else buf[w + 1 := '/'];
      assert Terminated(buf', r + 2) by {
        var i :| r <= i < |buf| && buf[i] == '\0';
        assert buf'[i] == '\0';
      }
      DecodeFrom(buf', r + 2, w + 1)
  }

  method DecodePointerInplace(buf: array<char>)
    requires Terminated(buf[..], 0)
    modifies buf
    ensures buf[..] == DecodeFrom(old(buf[..]), 0, 0)
  {
    var r, w := 0, 0;
    ghost var n :| 0 <= n < buf.Length && buf[..][n] == '\0';
    while buf[r] != '\0'
      invariant 0 <= w <= r <= n < buf.Length && buf[..][n] == '\0'
      invariant DecodeFrom(buf[..], r, w) == DecodeFrom(old(buf[..]), 0, 0)
      decreases n - r
    {
      if buf[r] == '~' {
        if buf[r + 1] == '0' {
          buf[w] := '~';
        } else if buf[r + 1] == '1' {
          buf[w + 1] := '/';
        } else {
          return;
        }
        r := r + 1;
      }
      w, r := w + 1, r + 1;
    }
    buf[w] := '\0';
  }

  /** The key that adding and removing use for the last token of a path. */
  function DecodeToken(token: string): string {
    var buf := token + ['\0'];
    assert buf[|token|] == '\0';
    CString(DecodeFrom(buf, 0, 0))
  }

  lemma {:induction false} DecodeFromFree(buf: string, r: nat)
    requires Terminated(buf, r) && '~' !in buf
    ensures DecodeFrom(buf, r, r) == buf
    decreases |buf| - r
  {
    assert buf[r] in buf;
    if buf[r] != '\0' { DecodeFromFree(buf, r + 1); }
  }

  lemma {:induction false} CStringOf(token: string, rest: string)
    requires '\0' !in token
    ensures CString(token + ['\0'] + rest) == token
  {
    var all := token + ['\0'] + rest;
    if token != [] {
      assert token == [token[0]] + token[1..];
      assert all[1..] == token[1..] + ['\0'] + rest;
      CStringOf(token[1..], rest);
    }
  }

  /** A token without escapes is left alone. */
  lemma DecodeTokenFree(token: string)
    requires '~' !in token && '\0' !in token
    ensures DecodeToken(token) == token
  {
    var buf := token + ['\0'];
    assert buf[|token|] == '\0';
    DecodeFromFree(buf, 0);
    CStringOf(token, []);
    assert buf + [] == buf;
  }

  /** No `~1`, and every character from `r` on that is no escape already stands where it belongs, at `w`. */
  predicate InPlace(t: string, r: nat, w: nat)
    requires w <= r <= |t|
    decreases |t| - r
  {
    if r == |t| then true
    else if t[r] == '~' then r + 1 < |t| && t[r + 1] == '0' && InPlace(t, r + 2, w + 1)
    else t[r] == t[w] && InPlace(t, r + 1, w + 1)
  }

  /** What has been written stays. */
  lemma {:induction false} WrittenStays(buf: string, r: nat, w: nat)
    requires w <= r && Terminated(buf, r)
    ensures DecodeFrom(buf, r, w)[..w] == buf[..w]
    decreases |buf| - r
  {
    if buf[r] == '\0' {
    } else if buf[r] != '~' {
      WrittenStays(buf, r + 1, w + 1);
      assert DecodeFrom(buf, r, w)[..w + 1][..w] == DecodeFrom(buf, r, w)[..w];
    } else if buf[r + 1] == '0' || buf[r + 1] == '1' {
      var next := if buf[r + 1] == '0' then buf[w := '~'] else buf[w + 1 := '/'];
      StillTerminated(buf, r, next);
      WrittenStays(next, r + 2, w + 1);
      assert DecodeFrom(buf, r, w)[..w + 1][..w] == DecodeFrom(buf, r, w)[..w];
    }
  }

  lemma StillTerminated(buf: string, r: nat, next: string)
    requires Terminated(buf, r) && buf[r] == '~' && (buf[r + 1] == '0' || buf[r + 1] == '1')
    requires |next| == |buf| && forall j :: r + 2 <= j < |buf| ==> next[j] == buf[j]
    ensures Terminated(next, r + 2)
  {
    var i :| r <= i < |buf| && buf[i] == '\0';
    assert next[i] == '\0';
  }

  lemma UnescapeStep(t: string, r: nat)
    requires r < |t| && Unescape(t[r..]).Some?
    ensures t[r] == '~' ==> r + 1 < |t| && (t[r + 1] == '0' || t[r + 1] == '1') && Unescape(t[r + 2..]).Some?
    ensures t[r] == '~' ==> Unescape(t[r..]).value == [if t[r + 1] == '0' then '~' else '/'] + Unescape(t[r + 2..]).value
    ensures t[r] != '~' ==> Unescape(t[r + 1..]).Some? && Unescape(t[r..]).value == [t[r]] + Unescape(t[r + 1..]).value
  {
    assert t[r..][1..] == t[r + 1..];
    if t[r] == '~' && |t[r..]| >= 2 { assert t[r..][2..] == t[r + 2..]; }
  }

  predicate Matches(f: string, w: nat, u: string) {
    w + |u| <= |f| && f[w..w + |u|] == u
  }

  /** Decoding from `r` on writes what the rest of the token stands for exactly when it is in place. */
  lemma {:induction false} DecodeFromIff(t: string, buf: string, r: nat, w: nat)
    requires w <= r <= |t| && '\0' !in t && '/' !in t && Unescape(t[r..]).Some?
    requires |buf| == |t| + 1 && buf[w..] == (t + ['\0'])[w..]
    ensures Terminated(buf, r)
    ensures var u := Unescape(t[r..]).value;
      var f := DecodeFrom(buf, r, w);
      && w + |u| <= |t|
      && (Matches(f, w, u) <==> InPlace(t, r, w))
      && (InPlace(t, r, w) ==> f[w + |u|] == '\0')
    decreases |t| - r
  {
    hide InPlace, DecodeFrom, Unescape, Terminated, Matches;
    UnwrittenIs(t, buf, w);
    InPlaceStep(t, r, w);
    DecodeFromStep(buf, r, w);
    if r == |t| {
      NothingToUnescape(t, DecodeFrom(buf, r, w), w);
    } else {
      assert t[r] in t && t[w] in t;
      UnescapeStep(t, r);
      RestLength(t, r);
      var next, r' := buf, r + 1;
      if t[r] == '~' {
        next, r' := (if buf[r + 1] == '0' then buf[w := '~'] else buf[w + 1 := '/']), r + 2;
        StillTerminated(buf, r, next);
      }
      WrittenStays(next, r', w + 1);
      var f, rest := DecodeFrom(buf, r, w), Unescape(t[r'..]).value;
      var x := if t[r] != '~' then t[r] else if t[r + 1] == '0' then '~' else '/';
      assert f[w] == f[..w + 1][w] == next[w];
      RestLength(t, r');
      OneMatched(f, w, x, rest);
      if x != '/' {
        NextUnwritten(t, buf, next, w);
        DecodeFromIff(t, next, r', w + 1);
      }
    }
  }

  lemma UnwrittenIs(t: string, buf: string, w: nat)
    requires |buf| == |t| + 1 && w <= |t| && buf[w..] == (t + ['\0'])[w..]
    ensures (forall j :: w <= j < |t| ==> buf[j] == t[j]) && buf[|t|] == '\0' && forall r :: 0 <= r <= |t| ==> Terminated(buf, r)
  {
    var all := t + ['\0'];
    assert forall j :: w <= j < |buf| ==> buf[j] == buf[w..][j - w] == all[w..][j - w] == all[j];
  }

  lemma NextUnwritten(t: string, buf: string, next: string, w: nat)
    requires |buf| == |next| == |t| + 1 && w < |t| && buf[w..] == (t + ['\0'])[w..]
    requires forall j :: w < j < |buf| ==> next[j] == buf[j]
    ensures next[w + 1..] == (t + ['\0'])[w + 1..]
  {
    assert next[w + 1..] == buf[w..][1..] && (t + ['\0'])[w + 1..] == (t + ['\0'])[w..][1..];
  }

  lemma NothingToUnescape(t: string, f: string, w: nat)
    requires w <= |f|
    ensures Unescape(t[|t|..]) == Some([]) && Matches(f, w, [])
  {
  }

  lemma OneMatched(f: string, w: nat, x: char, rest: string)
    requires w + 1 + |rest| <= |f|
    ensures Matches(f, w, [x] + rest) <==> f[w] == x && Matches(f, w + 1, rest)
  {
    assert f[w..w + 1 + |rest|] == [f[w]] + f[w + 1..w + 1 + |rest|];
    if f[w..w + 1 + |rest|] == [x] + rest {
      assert f[w] == f[w..w + 1 + |rest|][0];
      assert f[w + 1..w + 1 + |rest|] == f[w..w + 1 + |rest|][1..] == rest;
    }
  }

  lemma {:induction false} RestLength(t: string, r: nat)
    requires r <= |t| && Unescape(t[r..]).Some?
    ensures |Unescape(t[r..]).value| <= |t| - r
    decreases |t| - r
  {
    if r < |t| {
      UnescapeStep(t, r);
      RestLength(t, if t[r] == '~' then r + 2 else r + 1);
    }
  }

  lemma InPlaceStep(t: string, r: nat, w: nat)
    requires w <= r <= |t|
    ensures InPlace(t, r, w) <==>
      if r == |t| then true
      else if t[r] == '~' then r + 1 < |t| && t[r + 1] == '0' && InPlace(t, r + 2, w + 1)
      else t[r] == t[w] && InPlace(t, r + 1, w + 1)
  {
  }

  lemma DecodeFromStep(buf: string, r: nat, w: nat)
    requires w <= r && Terminated(buf, r)
    ensures buf[r] == '\0' ==> DecodeFrom(buf, r, w) == buf[w := '\0']
    ensures buf[r] != '\0' && buf[r] != '~' ==> Terminated(buf, r + 1) && DecodeFrom(buf, r, w) == DecodeFrom(buf, r + 1, w + 1)
    ensures buf[r] == '~' && (buf[r + 1] == '0' || buf[r + 1] == '1') ==>
      var next := if buf[r + 1] == '0' then buf[w := '~'] else buf[w + 1 := '/'];
      Terminated(next, r + 2) && DecodeFrom(buf, r, w) == DecodeFrom(next, r + 2, w + 1)
  {
    if buf[r] == '~' && (buf[r + 1] == '0' || buf[r + 1] == '1') {
      StillTerminated(buf, r, if buf[r + 1] == '0' then buf[w := '~'] else buf[w + 1 := '/']);
    }
  }

  lemma {:induction false} CStringIsPrefix(buf: string)
    ensures CString(buf) <= buf && (|CString(buf)| < |buf| ==> buf[|CString(buf)|] == '\0') && '\0' !in CString(buf)
  {
    if buf != [] && buf[0] != '\0' { CStringIsPrefix(buf[1..]); }
  }

  lemma {:induction false} UnescapeNulFree(t: string, r: nat)
    requires r <= |t| && '\0' !in t && Unescape(t[r..]).Some?
    ensures '\0' !in Unescape(t[r..]).value
    decreases |t| - r
  {
    if r < |t| {
      assert t[r] in t;
      UnescapeStep(t, r);
      UnescapeNulFree(t, if t[r] == '~' then r + 2 else r + 1);
    }
  }

  /** A token is decoded to what it stands for exactly when it has no `~1`, and every other character already
      stands where it belongs: `~0` is decoded, `~0a` is not. */
  lemma DecodeTokenCorrectIff(token: string)
    requires '\0' !in token && '/' !in token && Unescape(token).Some?
    ensures DecodeToken(token) == Unescape(token).value <==> InPlace(token, 0, 0)
  {
    hide InPlace, DecodeFrom, Unescape;
    var buf := token + ['\0'];
    assert token[0..] == token && buf[0..] == buf;
    DecodeFromIff(token, buf, 0, 0);
    UnescapeNulFree(token, 0);
    var f, u := DecodeFrom(buf, 0, 0), Unescape(token).value;
    CStringIsPrefix(f);
    assert f[0..|u|] == f[..|u|];
  }

  /** With escapes it need not be what the token stands for: `~1` stands for a slash and becomes
      a tilde, and what follows an escape is lost. */
  lemma DecodeTokenWrong()
    ensures Unescape("~1") == Some("/") && DecodeToken("~1") == "~"
    ensures Unescape("~0a") == Some("~a") && DecodeToken("~0a") == "~0"
  {
    UnescapeExamples();
    var b: string := ['~', '1', '\0'];
    assert "~1" + ['\0'] == b && b[2] == '\0' && b[1 := '/'][2] == '\0';
    assert DecodeFrom(b, 0, 0) == DecodeFrom(b[1 := '/'], 2, 1) == ['~', '\0', '\0'];
    assert CString(['~', '\0', '\0']) == "~" by { assert ['~', '\0', '\0'] == "~" + ['\0'] + ['\0']; CStringOf("~", ['\0']); }
    var c: string := ['~', '0', 'a', '\0'];
    assert "~0a" + ['\0'] == c && c[3] == '\0' && c[0 := '~'] == c;
    assert DecodeFrom(c, 0, 0) == DecodeFrom(c, 2, 1) == DecodeFrom(c, 3, 2) == c[2 := '\0'];
    assert CString(c[2 := '\0']) == "~0" by { assert c[2 := '\0'] == "~0" + ['\0'] + ['\0']; CStringOf("~0", ['\0']); }
  }

  /** Decoding from `r` on stops at the first tilde that begins no escape: what is behind it stays as it is, and
      no terminator is written in front of the old one. */
  lemma {:induction false} DecodeFromInvalid(t: string, buf: string, r: nat, w: nat) returns (k: nat)
    requires w <= r <= |t| && Unescape(t[r..]).None?
    requires |buf| == |t| + 1 && '\0' !in buf[..|t|] && buf[|t|] == '\0' && buf[r..|t|] == t[r..]
    ensures Terminated(buf, r)
    ensures r <= k < |t| && t[k] == '~' && (k + 1 == |t| || (t[k + 1] != '0' && t[k + 1] != '1'))
    ensures Unescape(t[r..k]).Some?
    ensures '\0' !in DecodeFrom(buf, r, w)[..|t|] && DecodeFrom(buf, r, w)[|t|] == '\0'
    ensures DecodeFrom(buf, r, w)[k..|t|] == t[k..]
    ensures '~' !in t[r..k] ==> DecodeFrom(buf, r, w) == buf
    decreases |t| - r
  {
    hide DecodeFrom, Terminated, Unescape;
    InvalidStep(t, r);
    ReadIsToken(t, buf, r);
    DecodeFromStep(buf, r, w);
    if t[r] == '~' && (r + 1 == |t| || (t[r + 1] != '0' && t[r + 1] != '1')) {
      k := r;
      StopsAtInvalid(buf, r, w);
      NothingStands(t, r);
    } else {
      var next, r' := buf, r + 1;
      if t[r] == '~' {
        next, r' := (if t[r + 1] == '0' then buf[w := '~'] else buf[w + 1 := '/']), r + 2;
      }
      StillToken(t, buf, next, r, r', w);
      k := DecodeFromInvalid(t, next, r', w + 1);
      FrontStands(t, r, r', k);
    }
  }

  lemma ReadIsToken(t: string, buf: string, r: nat)
    requires r < |t| && |buf| == |t| + 1 && buf[|t|] == '\0' && '\0' !in buf[..|t|] && buf[r..|t|] == t[r..]
    ensures Terminated(buf, r) && buf[r] == t[r] != '\0' && (r + 1 < |t| ==> buf[r + 1] == t[r + 1])
    ensures r + 1 == |t| ==> buf[r + 1] == '\0'
  {
    assert buf[r] == buf[r..|t|][0] && t[r] == t[r..][0];
    assert buf[r] == buf[..|t|][r];
    if r + 1 < |t| { assert buf[r + 1] == buf[r..|t|][1] && t[r + 1] == t[r..][1]; }
  }

  lemma StopsAtInvalid(buf: string, r: nat, w: nat)
    requires w <= r && Terminated(buf, r) && buf[r] == '~' && buf[r + 1] != '0' && buf[r + 1] != '1'
    ensures DecodeFrom(buf, r, w) == buf
  {
  }

  lemma InvalidStep(t: string, r: nat)
    requires r <= |t| && Unescape(t[r..]).None?
    ensures r < |t|
    ensures t[r] != '~' ==> Unescape(t[r + 1..]).None?
    ensures t[r] == '~' && r + 1 < |t| && (t[r + 1] == '0' || t[r + 1] == '1') ==> Unescape(t[r + 2..]).None?
  {
    if r < |t| {
      assert t[r..][1..] == t[r + 1..];
      if r + 1 < |t| { assert t[r..][2..] == t[r + 2..]; }
    }
  }

  lemma NothingStands(t: string, r: nat)
    requires r <= |t|
    ensures Unescape(t[r..r]).Some?
  {
  }

  lemma FrontStands(t: string, r: nat, r': nat, k: nat)
    requires r < r' <= k <= |t| && Unescape(t[r'..k]).Some?
    requires r' == if t[r] == '~' then r + 2 else r + 1
    requires t[r] == '~' ==> t[r + 1] == '0' || t[r + 1] == '1'
    ensures Unescape(t[r..k]).Some?
    ensures '~' !in t[r..k] ==> t[r] != '~' && '~' !in t[r'..k]
  {
    assert t[r..k][r' - r..] == t[r'..k];
    assert t[r..k][0] == t[r] && (r + 1 < k ==> t[r..k][1] == t[r + 1]);
  }

  lemma StillToken(t: string, buf: string, next: string, r: nat, r': nat, w: nat)
    requires w <= r < r' <= |t| && |next| == |buf| == |t| + 1 && '\0' !in buf[..|t|] && buf[|t|] == '\0' && buf[r..|t|] == t[r..]
    requires next == buf || (r' == r + 2 && (next == buf[w := '~'] || next == buf[w + 1 := '/']))
    ensures '\0' !in next[..|t|] && next[|t|] == '\0' && next[r'..|t|] == t[r'..]
  {
    forall j | 0 <= j < |t| ensures next[j] != '\0' { assert buf[j] == buf[..|t|][j]; }
    forall j | r' <= j < |t| ensures next[j] == t[j] { assert buf[j] == buf[r..|t|][j - r] == t[r..][j - r]; }
    assert next[r'..|t|] == t[r'..];
  }

  /** A token with a tilde that begins no escape stands for no key, and still decodes to one: everything from that
      tilde on stays, and as no terminator is written the key is as long as the token. */
  lemma DecodeTokenInvalid(token: string) returns (k: nat)
    requires '\0' !in token && Unescape(token).None?
    ensures k < |token| && token[k] == '~' && (k + 1 == |token| || (token[k + 1] != '0' && token[k + 1] != '1'))
    ensures Unescape(token[..k]).Some?
    ensures |DecodeToken(token)| == |token| && DecodeToken(token)[k..] == token[k..]
    ensures '~' !in token[..k] ==> DecodeToken(token) == token
  {
    hide DecodeFrom, Unescape, CString;
    var buf := token + ['\0'];
    assert token[0..] == token && buf[..|token|] == token && buf[0..|token|] == token;
    k := DecodeFromInvalid(token, buf, 0, 0);
    assert token[0..k] == token[..k];
    var f := DecodeFrom(buf, 0, 0);
    assert f == f[..|token|] + ['\0'] + [];
    CStringOf(f[..|token|], []);
    assert f[..|token|][k..] == f[k..|token|];
  }

  lemma UnescapeExamples()
    ensures Unescape("~1") == Some("/") && Unescape("~0a") == Some("~a")
  {
    assert "~1"[2..] == "" && "~0a"[2..] == "a" && "a"[1..] == "";
    assert ['/'] + "" == "/" && ['a'] + "" == "a" && ['~'] + "a" == "~a";
    assert Unescape("") == Some("");
    assert Unescape("a") == Some("a");
  }

  // ----- array indices -----

  /** The digit loop of `decode_array_index_from_pointer`.  Its upper bound is tested on the first
      character of the token, so that any later character from `0` upwards counts as a digit. */
  function ScanIndex(pointer: string, position: nat, parsed: nat): (nat, nat)
    requires position <= |pointer|
    decreases |pointer| - position
  {
    if position < |pointer| && pointer[position] >= '0' && pointer[0] <= '9' then
      ScanIndex(pointer, position + 1, (10 * parsed + (pointer[position] as int - '0' as int)) % SIZE_LIMIT)
    else
      (position, parsed)
  }

  /** `decode_array_index_from_pointer`, with its `size_t` arithmetic. */
  function DecodeIndex(pointer: string): Option<nat> {
    if |pointer| >= 2 && pointer[0] == '0' && pointer[1] != '/' then None
    else
      var (position, parsed) := ScanIndex(pointer, 0, 0);
      if position < |pointer| && pointer[position] != '/' then None else Some(parsed)
  }

  method DecodeArrayIndex(pointer: string) returns (index: Option<nat>)
    ensures index == DecodeIndex(pointer)
  {
    if |pointer| >= 2 && pointer[0] == '0' && pointer[1] != '/' {
      return None;
    }
    var position: nat, parsed: nat := 0, 0;
    while position < |pointer| && pointer[position] >= '0' && pointer[0] <= '9'
      invariant position <= |pointer|
      invariant ScanIndex(pointer, 0, 0) == ScanIndex(pointer, position, parsed)
    {
      parsed := (10 * parsed + (pointer[position] as int - '0' as int)) % SIZE_LIMIT;
      position := position + 1;
    }
    if position < |pointer| && pointer[position] != '/' {
      return None;
    }
    return Some(parsed);
  }

  /** Only the token counts, not what follows it. */
  lemma {:induction false} ScanOfToken(token: string, rest: string, position: nat, parsed: nat)
    requires position <= |token| && '/' !in token && EndsToken(rest)
    ensures ScanIndex(token + rest, position, parsed) == ScanIndex(token, position, parsed)
    decreases |token| - position
  {
    var p := token + rest;
    if position < |token| {
      assert p[position] == token[position] && p[0] == token[0];
      ScanOfToken(token, rest, position + 1, (10 * parsed + (p[position] as int - '0' as int)) % SIZE_LIMIT);
    }
  }

  lemma DecodeIndexOfToken(token: string, rest: string)
    requires '/' !in token && EndsToken(rest)
    ensures DecodeIndex(token + rest) == DecodeIndex(token)
  {
    hide ScanIndex;
    var p := token + rest;
    ScanOfToken(token, rest, 0, 0);
    ScanKeepsPosition(token, 0, 0);
    var position := ScanIndex(token, 0, 0).0;
    if position < |token| {
      assert p[position] == token[position] && token[position] in token;
    } else if rest != [] {
      assert p[position] == rest[0];
    }
    if |token| >= 2 { assert p[1] == token[1] && p[0] == token[0] && token[1] in token; }
  }

  lemma {:induction false} ScanStops(token: string, rest: string, position: nat, parsed: nat)
    requires position <= |token| && EndsToken(rest) && token != [] && token[0] <= '9'
    requires forall i :: position <= i < |token| ==> token[i] >= '0'
    ensures ScanIndex(token + rest, position, parsed).0 == |token|
    decreases |token| - position
  {
    var p := token + rest;
    if position < |token| {
      ScanStops(token, rest, position + 1, (10 * parsed + (p[position] as int - '0' as int)) % SIZE_LIMIT);
    }
  }

  lemma {:induction false} ScanWithin(token: string, rest: string, position: nat, parsed: nat, bad: nat)
    requires position <= bad < |token| && token[bad] < '0'
    ensures ScanIndex(token + rest, position, parsed).0 <= bad
    decreases |token| - position
  {
    var p := token + rest;
    if p[position] >= '0' && p[0] <= '9' {
      ScanWithin(token, rest, position + 1, (10 * parsed + (p[position] as int - '0' as int)) % SIZE_LIMIT, bad);
    }
  }

  /** The tokens that are accepted as an index: the empty one, and those without a leading zero that start
      with a digit and hold no character below `0`.  Section 4 of RFC 6901 asks for digits throughout. */
  lemma {:induction false} DecodeIndexAccepts(token: string, rest: string)
    requires '/' !in token && EndsToken(rest)
    ensures DecodeIndex(token + rest).Some?
            <==> token == "" || token == "0"
                 || ('1' <= token[0] <= '9' && forall i :: 0 <= i < |token| ==> token[i] >= '0')
  {
    var p := token + rest;
    if token != [] {
      assert forall i :: 0 <= i < |token| ==> p[i] == token[i] && token[i] != '/';
      if token[0] <= '9' && forall i :: 0 <= i < |token| ==> token[i] >= '0' {
        ScanStops(token, rest, 0, 0);
      } else if token[0] <= '9' {
        var bad :| 0 <= bad < |token| && token[bad] < '0';
        ScanWithin(token, rest, 0, 0, bad);
        ScanKeepsPosition(p, 0, 0);
      }
    }
  }

  lemma {:induction false} ScanKeepsPosition(p: string, position: nat, parsed: nat)
    requires position <= |p|
    ensures position <= ScanIndex(p, position, parsed).0 <= |p|
    ensures var q := ScanIndex(p, position, parsed).0; q < |p| ==> p[q] < '0' || p[0] > '9'
    decreases |p| - position
  {
    if position < |p| && p[position] >= '0' && p[0] <= '9' {
      ScanKeepsPosition(p, position + 1, (10 * parsed + (p[position] as int - '0' as int)) % SIZE_LIMIT);
    }
  }

  /** The index a token is in section 4 of RFC 6901: digits without a leading zero. */
  function ArrayIndex(token: string): Option<nat> {
    if token != "" && (forall i :: 0 <= i < |token| ==> '0' <= token[i] <= '9') && (token[0] == '0' ==> |token| == 1)
    then Some(DigitsValue(token)) else None
  }

  /** Tokens that hold a digit first and then a character above the digits, and none below them. */
  predicate DigitsAndMore(token: string) {
    && token != "" && '1' <= token[0] <= '9'
    && (forall i :: 0 <= i < |token| ==> token[i] >= '0')
    && exists i :: 0 <= i < |token| && token[i] > '9'
  }

  lemma {:induction false} ScanIsValue(token: string, rest: string, k: nat)
    requires k <= |token| && token != "" && EndsToken(rest) && forall i :: 0 <= i < |token| ==> '0' <= token[i] <= '9'
    ensures ScanIndex(token + rest, k, DigitsValue(token[..k]) % SIZE_LIMIT) == (|token|, DigitsValue(token) % SIZE_LIMIT)
    decreases |token| - k
  {
    var p := token + rest;
    if k == |token| {
      assert token[..k] == token;
    } else {
      assert token[..k + 1][..k] == token[..k];
      assert p[k] == token[k] && p[0] == token[0];
      TimesTen(DigitsValue(token[..k]), token[k] as int - '0' as int);
      ScanIsValue(token, rest, k + 1);
    }
  }

  lemma TimesTen(v: nat, d: nat)
    ensures (10 * (v % SIZE_LIMIT) + d) % SIZE_LIMIT == (10 * v + d) % SIZE_LIMIT
  {
    var q := v / SIZE_LIMIT;
    assert 10 * v + d == 10 * (v % SIZE_LIMIT) + d + 10 * q * SIZE_LIMIT;
  }

  /** The value of a run of digits is kept modulo the range of `size_t`. */
  lemma DecodeIndexWraps(token: string, rest: string)
    requires '/' !in token && EndsToken(rest) && ArrayIndex(token).Some?
    ensures DecodeIndex(token + rest) == Some(ArrayIndex(token).value % SIZE_LIMIT)
  {
    assert token[..0] == "" && DigitsValue("") == 0;
    hide ScanIndex, DigitsValue;
    ScanIsValue(token, rest, 0);
  }

  /** Decoding an index agrees with section 4 of RFC 6901, in what it accepts and in the value, exactly for the tokens
      that are not empty, hold no character above the digits behind a leading digit, and whose value fits `size_t`. */
  lemma DecodeIndexCorrectIff(token: string, rest: string)
    requires '/' !in token && EndsToken(rest)
    ensures DecodeIndex(token + rest) == ArrayIndex(token)
            <==> token != "" && !DigitsAndMore(token) && (ArrayIndex(token).Some? ==> ArrayIndex(token).value < SIZE_LIMIT)
  {
    hide DecodeIndex, DigitsValue;
    DecodeIndexAccepts(token, rest);
    if ArrayIndex(token).Some? { DecodeIndexWraps(token, rest); }
  }

  /** A letter behind a digit is taken for a digit. */
  lemma DecodeIndexAcceptsLetter()
    ensures DecodeIndex("1a") == Some(59)
  {
    assert ScanIndex("1a", 0, 0) == ScanIndex("1a", 1, 1) == ScanIndex("1a", 2, 59) == (2, 59);
  }
}

/** `cJSON_Minify`: blanks and comments are removed from a text in place. */
module JsonMinify {

  import opened CStrings
  import opened JsonTree
  import opened JsonText
  import opened Options
  import opened Sequences

  predicate IsSpace(x: char) {
    x == ' ' || x == '\t' || x == '\r' || x == '\n'
  }

  // ----- what is left of the memory that holds a text -----

  /** The end of the line that `p` is in, or of the text. */
  function LineEnd(m: string, p: nat): (e: nat)
    requires p <= |m|
    ensures p <= e <= |m|
    decreases |m| - p
  {
    if p < |m| && m[p] != NUL && m[p] != '\n' then LineEnd(m, p + 1) else p
  }

  /** The asterisk that ends a comment, from `p` on, or the end of the text. */
  function CommentEnd(m: string, p: nat): (e: nat)
    requires p <= |m|
    ensures p <= e <= |m|
    decreases |m| - p
  {
    if p < |m| && m[p] != NUL && !(m[p] == '*' && p + 1 < |m| && m[p + 1] == '/') then CommentEnd(m, p + 1) else p
  }

  /** The quotation mark that ends a string, from `p` on, or a terminator that no backslash hides. */
  function StringEnd(m: string, p: nat): (e: nat)
    requires p <= |m| + 1
    ensures p <= e <= |m| + 1
    decreases |m| + 1 - p
  {
    if p < |m| && m[p] != NUL && m[p] != '"' then StringEnd(m, if m[p] == '\\' then p + 2 else p + 1) else p
  }

  function Then(s: string, r: Option<string>): Option<string> {
    if r == None then None else Some(s + r.value)
  }

  /** What is left from `r` on, up to the terminator at which the program stops. A comment or a string that does not
      end takes it past a terminator; none if it leaves the memory. */
  function Minified(m: string, r: nat): Option<string>
    decreases |m| - r
  {
    if r >= |m| then None
    else if m[r] == NUL then Some("")
    else if IsSpace(m[r]) then Minified(m, r + 1)
    else if m[r] == '/' && r + 1 < |m| && m[r + 1] == '/' then
      assert LineEnd(m, r) > r;
      Minified(m, LineEnd(m, r))
    else if m[r] == '/' && r + 1 < |m| && m[r + 1] == '*' then Minified(m, CommentEnd(m, r) + 2)
    else if m[r] == '"' then
      var e := StringEnd(m, r + 1);
      if e >= |m| then None else Then(m[r..e + 1], Minified(m, e + 1))
    else Then([m[r]], Minified(m, r + 1))
  }

  lemma NothingThen(r: Option<string>)
    ensures Then([], r) == r
  {
    if r != None { assert [] + r.value == r.value; }
  }

  lemma ThenTwice(a: string, b: string, r: Option<string>)
    ensures Then(a, Then(b, r)) == Then(a + b, r)
  {
    if r != None { Associative(a, b, r.value); }
  }

  lemma MinifiedEnd(m: string, r: nat)
    requires r < |m| && m[r] == NUL
    ensures Minified(m, r) == Some("")
  {
  }

  lemma MinifiedStep(m: string, r: nat)
    requires r < |m| && m[r] != NUL
    ensures IsSpace(m[r]) ==> Minified(m, r) == Minified(m, r + 1)
    ensures m[r] == '/' && r + 1 < |m| && m[r + 1] == '/' ==> Minified(m, r) == Minified(m, LineEnd(m, r)) && LineEnd(m, r) > r
    ensures m[r] == '/' && r + 1 < |m| && m[r + 1] == '*' ==> Minified(m, r) == Minified(m, CommentEnd(m, r) + 2)
    ensures m[r] == '"' ==>
      var e := StringEnd(m, r + 1); Minified(m, r) == if e >= |m| then None else Then(m[r..e + 1], Minified(m, e + 1))
    ensures !IsSpace(m[r]) && m[r] != '"' && !(m[r] == '/' && r + 1 < |m| && (m[r + 1] == '/' || m[r + 1] == '*'))
      ==> Minified(m, r) == Then([m[r]], Minified(m, r + 1))
  {
  }

  lemma StringEndStep(m: string, p: nat)
    requires p <= |m|
    ensures p == |m| || m[p] == '"' || m[p] == NUL ==> StringEnd(m, p) == p
    ensures p < |m| && m[p] == '\\' ==> StringEnd(m, p) == StringEnd(m, p + 2) >= p + 2
    ensures p < |m| && m[p] != NUL && m[p] != '"' && m[p] != '\\' ==> StringEnd(m, p) == StringEnd(m, p + 1)
  {
  }

  /** There is room for what is left and its terminator. */
  lemma {:induction false} Shorter(m: string, r: nat)
    requires Minified(m, r).Some?
    ensures r + |Minified(m, r).value| < |m|
    decreases |m| - r
  {
    hide Minified, LineEnd, CommentEnd, StringEnd;
    if r >= |m| {
      Outside(m, r);
    } else if m[r] == NUL {
      MinifiedEnd(m, r);
    } else {
      MinifiedStep(m, r);
      if IsSpace(m[r]) {
        Shorter(m, r + 1);
      } else if m[r] == '/' && r + 1 < |m| && m[r + 1] == '/' {
        Shorter(m, LineEnd(m, r));
      } else if m[r] == '/' && r + 1 < |m| && m[r + 1] == '*' {
        Shorter(m, CommentEnd(m, r) + 2);
      } else if m[r] == '"' {
        Shorter(m, StringEnd(m, r + 1) + 1);
      } else {
        Shorter(m, r + 1);
      }
    }
  }

  lemma Outside(m: string, r: nat)
    requires r >= |m|
    ensures Minified(m, r) == None
  {
  }

  // ----- what stands behind the text -----

  /** More memory changes nothing for a program that has stopped in less. */
  lemma {:induction false} BehindIsNothing(m: string, behind: string, r: nat)
    requires Minified(m, r).Some?
    ensures Minified(m + behind, r) == Minified(m, r)
    decreases |m| - r
  {
    hide Minified, LineEnd, CommentEnd, StringEnd;
    var n := m + behind;
    Inside(m, r);
    if m[r] == NUL {
      MinifiedEnd(m, r);
      MinifiedEnd(n, r);
    } else {
      MinifiedStep(m, r);
      MinifiedStep(n, r);
      if IsSpace(m[r]) {
        BehindIsNothing(m, behind, r + 1);
      } else if m[r] == '/' && m[r + 1] == '/' {
        Inside(m, LineEnd(m, r));
        LineEndBehind(m, behind, r);
        BehindIsNothing(m, behind, LineEnd(m, r));
      } else if m[r] == '/' && m[r + 1] == '*' {
        Inside(m, CommentEnd(m, r) + 2);
        CommentEndBehind(m, behind, r);
        BehindIsNothing(m, behind, CommentEnd(m, r) + 2);
      } else if m[r] == '"' {
        StringEndBehind(m, behind, r + 1);
        assert n[r..StringEnd(m, r + 1) + 1] == m[r..StringEnd(m, r + 1) + 1];
        BehindIsNothing(m, behind, StringEnd(m, r + 1) + 1);
      } else {
        BehindIsNothing(m, behind, r + 1);
      }
    }
  }

  lemma {:induction false} LineEndBehind(m: string, behind: string, p: nat)
    requires p <= |m| && LineEnd(m, p) < |m|
    ensures LineEnd(m + behind, p) == LineEnd(m, p)
    decreases |m| - p
  {
    if m[p] != NUL && m[p] != '\n' { LineEndBehind(m, behind, p + 1); }
  }

  lemma {:induction false} CommentEndBehind(m: string, behind: string, p: nat)
    requires p <= |m| && CommentEnd(m, p) + 1 < |m|
    ensures CommentEnd(m + behind, p) == CommentEnd(m, p)
    decreases |m| - p
  {
    if m[p] != NUL && !(m[p] == '*' && m[p + 1] == '/') { CommentEndBehind(m, behind, p + 1); }
  }

  lemma {:induction false} StringEndBehind(m: string, behind: string, p: nat)
    requires p <= |m| && StringEnd(m, p) < |m|
    ensures StringEnd(m + behind, p) == StringEnd(m, p)
    decreases |m| - p
  {
    if m[p] != NUL && m[p] != '"' { StringEndBehind(m, behind, if m[p] == '\\' then p + 2 else p + 1); }
  }

  // ----- what stands in front of a place -----

  lemma {:induction false} LineEndInFront(pre: string, m: string, p: nat)
    requires p <= |m|
    ensures LineEnd(pre + m, |pre| + p) == |pre| + LineEnd(m, p)
    decreases |m| - p
  {
    if p < |m| && m[p] != NUL && m[p] != '\n' { LineEndInFront(pre, m, p + 1); }
  }

  lemma {:induction false} CommentEndInFront(pre: string, m: string, p: nat)
    requires p <= |m|
    ensures CommentEnd(pre + m, |pre| + p) == |pre| + CommentEnd(m, p)
    decreases |m| - p
  {
    if p < |m| && m[p] != NUL && !(m[p] == '*' && p + 1 < |m| && m[p + 1] == '/') { CommentEndInFront(pre, m, p + 1); }
  }

  lemma {:induction false} StringEndInFront(pre: string, m: string, p: nat)
    requires p <= |m| + 1
    ensures StringEnd(pre + m, |pre| + p) == |pre| + StringEnd(m, p)
    decreases |m| + 1 - p
  {
    if p < |m| && m[p] != NUL && m[p] != '"' { StringEndInFront(pre, m, if m[p] == '\\' then p + 2 else p + 1); }
  }

  /** What is left depends only on what stands from the place on. */
  lemma {:induction false} InFrontIsNothing(pre: string, m: string, r: nat)
    ensures Minified(pre + m, |pre| + r) == Minified(m, r)
    decreases |m| - r
  {
    hide Minified, LineEnd, CommentEnd, StringEnd;
    var n := pre + m;
    if r >= |m| {
      Outside(m, r);
      Outside(n, |pre| + r);
    } else if m[r] == NUL {
      MinifiedEnd(m, r);
      MinifiedEnd(n, |pre| + r);
    } else {
      MinifiedStep(m, r);
      MinifiedStep(n, |pre| + r);
      if IsSpace(m[r]) {
        InFrontIsNothing(pre, m, r + 1);
      } else if m[r] == '/' && r + 1 < |m| && m[r + 1] == '/' {
        LineEndInFront(pre, m, r);
        InFrontIsNothing(pre, m, LineEnd(m, r));
      } else if m[r] == '/' && r + 1 < |m| && m[r + 1] == '*' {
        CommentEndInFront(pre, m, r);
        InFrontIsNothing(pre, m, CommentEnd(m, r) + 2);
      } else if m[r] == '"' {
        StringEndInFront(pre, m, r + 1);
        var e := StringEnd(m, r + 1);
        if e < |m| { assert n[|pre| + r..|pre| + e + 1] == m[r..e + 1]; }
        InFrontIsNothing(pre, m, e + 1);
      } else {
        InFrontIsNothing(pre, m, r + 1);
      }
    }
  }

  /** After a comment that does not end the program goes on two places behind the terminator; after a string that
      does not end it copies the terminator and goes on behind it. */
  lemma ReadsBeyond()
    ensures Minified(['/', '*', 'x', NUL], 0) == None
    ensures Minified(['/', '*', 'x', NUL, 'y', 'z', NUL], 0) == Some("z")
    ensures Minified(['"', 'x', NUL], 0) == None
    ensures Minified(['"', 'x', NUL, 'y', NUL], 0) == Some(['"', 'x', NUL, 'y'])
  {
    hide Minified, CommentEnd, StringEnd;
    var a, b := ['/', '*', 'x', NUL], ['/', '*', 'x', NUL, 'y', 'z', NUL];
    MinifiedStep(a, 0);
    MinifiedStep(b, 0);
    CommentEndIs(a);
    CommentEndIs(b);
    Outside(a, 5);
    MinifiedStep(b, 5);
    MinifiedEnd(b, 6);
    assert ['z'] + "" == "z";
    var c, d := ['"', 'x', NUL], ['"', 'x', NUL, 'y', NUL];
    MinifiedStep(c, 0);
    MinifiedStep(d, 0);
    StringEndStep(c, 1);
    StringEndStep(c, 2);
    StringEndStep(d, 1);
    StringEndStep(d, 2);
    Outside(c, 3);
    MinifiedStep(d, 3);
    MinifiedEnd(d, 4);
    assert d[0..3] == ['"', 'x', NUL] && ['y'] + "" == ['y'] && ['"', 'x', NUL] + ['y'] == ['"', 'x', NUL, 'y'];
  }

  lemma CommentEndIs(m: string)
    requires 3 < |m| && m[0] == '/' && m[1] == '*' && m[2] == 'x' && m[3] == NUL
    ensures CommentEnd(m, 0) == 3
  {
    assert CommentEnd(m, 3) == 3;
    assert CommentEnd(m, 2) == 3;
    assert CommentEnd(m, 1) == 3;
  }

  // ----- the program -----

  /** The memory is still as it was from `from` on. */
  ghost predicate Untouched(json: array<char>, m: string, from: nat)
    reads json
  {
    json.Length == |m| && forall i :: from <= i < |m| ==> json[i] == m[i]
  }

  method SkipLine(json: array<char>, start: nat, ghost m: string) returns (read: nat)
    requires Untouched(json, m, start) && start < |m| && LineEnd(m, start) < |m|
    ensures read == LineEnd(m, start)
  {
    read := start;
    while json[read] != NUL && json[read] != '\n'
      invariant start <= read < |m| && LineEnd(m, read) == LineEnd(m, start)
      decreases |m| - read
    {
      read := read + 1;
    }
  }

  method SkipComment(json: array<char>, start: nat, ghost m: string) returns (read: nat)
    requires Untouched(json, m, start) && start < |m| && CommentEnd(m, start) + 2 < |m|
    ensures read == CommentEnd(m, start)
  {
    read := start;
    while json[read] != NUL && !(json[read] == '*' && json[read + 1] == '/')
      invariant start <= read < |m| - 2 && CommentEnd(m, read) == CommentEnd(m, start)
      decreases |m| - read
    {
      read := read + 1;
    }
  }

  method Copy(json: array<char>, into: nat, read: nat, ghost m: string)
    requires Untouched(json, m, into) && into <= read < |m|
    modifies json
    ensures Untouched(json, m, into + 1) && json[..into + 1] == old(json[..into]) + [m[read]]
  {
    json[into] := json[read];
  }

  /** What stood from `start` to `read` has been copied behind `before`. */
  ghost predicate Copied(json: array<char>, m: string, before: string, start: nat, into: nat, read: nat)
    reads json
  {
    && Untouched(json, m, into) && into <= read && start <= read <= |m| && into == |before| + read - start
    && json[..into] == before + m[start..read]
  }

  lemma CopiedHas(json: array<char>, m: string, before: string, start: nat, into: nat, read: nat)
    requires Copied(json, m, before, start, into, read)
    ensures Untouched(json, m, into) && read <= |m| == json.Length && into <= read && (read < |m| ==> json[read] == m[read])
  {
  }

  lemma NothingCopied(json: array<char>, m: string, start: nat, into: nat)
    requires Untouched(json, m, into) && into <= start <= |m|
    ensures into <= json.Length && Copied(json, m, json[..into], start, into, start)
  {
    Slice(json[..into], m, start, start);
  }

  method CopyNext(json: array<char>, into: nat, read: nat, ghost m: string, ghost before: string, ghost start: nat)
    requires Copied(json, m, before, start, into, read) && read < |m|
    modifies json
    ensures Copied(json, m, before, start, into + 1, read + 1)
  {
    Slice(before, m, start, read);
    Copy(json, into, read, m);
  }

  /** One character of a string literal, or a backslash and the character behind it. */
  method CopyCharacter(json: array<char>, into0: nat, read0: nat, ghost m: string, ghost before: string, ghost start: nat)
    returns (into: nat, read: nat)
    requires Copied(json, m, before, start, into0, read0)
    requires read0 < |m| && m[read0] != NUL && m[read0] != '"' && StringEnd(m, read0) < |m|
    modifies json
    ensures Copied(json, m, before, start, into, read)
    ensures read0 < read <= StringEnd(m, read) == StringEnd(m, read0)
  {
    hide StringEnd, Copied, Untouched;
    CopiedHas(json, m, before, start, into0, read0);
    StringEndStep(m, read0);
    into, read := into0, read0;
    if json[read] == '\\' {
      CopyNext(json, into, read, m, before, start);
      into, read := into + 1, read + 1;
    }
    CopyNext(json, into, read, m, before, start);
    into, read := into + 1, read + 1;
  }

  /** A string literal from its opening quotation mark to its end. */
  method CopyString(json: array<char>, into0: nat, start: nat, ghost m: string) returns (into: nat, read: nat)
    requires Untouched(json, m, into0) && into0 <= start < |m| && m[start] == '"' && StringEnd(m, start + 1) < |m|
    modifies json
    ensures read == StringEnd(m, start + 1) + 1 <= |m| && Untouched(json, m, into) && Copied(json, m, old(json[..into0]), start, into, read)
  {
    hide StringEnd, Copied, Untouched;
    UntouchedHas(json, m, into0, start);
    ghost var before, e := json[..into0], StringEnd(m, start + 1);
    NothingCopied(json, m, start, into0);
    CopyNext(json, into0, start, m, before, start);
    into, read := into0 + 1, start + 1;
    CopiedHas(json, m, before, start, into, read);
    while json[read] != NUL && json[read] != '"'
      invariant start < read <= e < |m| == json.Length && StringEnd(m, read) == e
      invariant Copied(json, m, before, start, into, read)
      invariant json[read] == m[read]
      decreases |m| - read
    {
      into, read := CopyCharacter(json, into, read, m, before, start);
      CopiedHas(json, m, before, start, into, read);
    }
    StringEndStep(m, read);
    CopyNext(json, into, read, m, before, start);
    into, read := into + 1, read + 1;
    CopiedHas(json, m, before, start, into, read);
  }

  lemma Slice(before: string, m: string, start: nat, read: nat)
    requires start <= read <= |m|
    ensures read < |m| ==> before + m[start..read] + [m[read]] == before + m[start..read + 1]
    ensures read == start ==> before + m[start..read] == before
  {
    if read < |m| {
      assert m[start..read] + [m[read]] == m[start..read + 1];
      Associative(before, m[start..read], [m[read]]);
    }
  }

  lemma UntouchedHas(json: array<char>, m: string, into: nat, read: nat)
    requires Untouched(json, m, into) && into <= read
    ensures json.Length == |m| && (read < |m| ==> json[read] == m[read]) && (read + 1 < |m| ==> json[read + 1] == m[read + 1])
  {
  }

  /** The memory once the program has stopped: what is left, a terminator, and behind it what stood there. */
  function After(m: string): (r: string)
    requires Minified(m, 0).Some?
    ensures |r| == |m|
  {
    Shorter(m, 0);
    var out := Minified(m, 0).value;
    out + [NUL] + m[|out| + 1..]
  }

  method Minify(json: array<char>)
    requires Minified(json[..], 0).Some?
    modifies json
    ensures json[..] == After(old(json[..]))
  {
    hide Minified, StringEnd, LineEnd, CommentEnd;
    var read: nat, into: nat := 0, 0;
    ghost var m := json[..];
    ghost var result := Minified(m, 0);
    NothingThen(result);
    Inside(m, 0);
    while json[read] != NUL
      invariant into <= read < |m| && Untouched(json, m, into) && Minified(m, read).Some?
      invariant result == Then(json[..into], Minified(m, read))
      decreases |m| - read
    {
      MinifiedStep(m, read);
      UntouchedHas(json, m, into, read);
      Inside(m, read);
      if IsSpace(json[read]) {
        read := read + 1;
      } else if json[read] == '/' && json[read + 1] == '/' {
        Inside(m, LineEnd(m, read));
        read := SkipLine(json, read, m);
      } else if json[read] == '/' && json[read + 1] == '*' {
        Inside(m, CommentEnd(m, read) + 2);
        read := SkipComment(json, read, m);
        read := read + 2;
      } else if json[read] == '"' {
        ghost var start, before := read, json[..into];
        into, read := CopyString(json, into, read, m);
        ThenTwice(before, m[start..read], Minified(m, read));
      } else {
        ThenTwice(json[..into], [m[read]], Minified(m, read + 1));
        Copy(json, into, read, m);
        into, read := into + 1, read + 1;
      }
      Inside(m, read);
    }
    json[into] := NUL;
    MinifiedEnd(m, read);
  }

  /** As long as there is something left, the program reads in the memory. */
  lemma Inside(m: string, r: nat)
    requires Minified(m, r).Some?
    ensures r < |m| && (m[r] != NUL ==> r + 1 < |m|)
  {
  }
}

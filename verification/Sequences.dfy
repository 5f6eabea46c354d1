/** What the other modules need of sequences. */
module Sequences {

  function RemoveAt<T>(s: seq<T>, i: nat): (r: seq<T>)
    requires i < |s|
    ensures |r| == |s| - 1
    ensures forall k :: 0 <= k < |r| ==> r[k] == if k < i then s[k] else s[k + 1]
  {
    s[..i] + s[i + 1..]
  }

  lemma Associative<T>(a: seq<T>, b: seq<T>, c: seq<T>)
    ensures a + (b + c) == a + b + c
  {
  }

  lemma EmptyFront<T>(s: seq<T>)
    ensures [] + s == s
  {
  }

  lemma TailOf<T>(s': seq<T>, s: seq<T>, i: nat)
    requires |s'| == |s| && i < |s| && s'[i..] == s[i..]
    ensures s'[i] == s[i] && s'[i + 1..] == s[i + 1..]
  {
    assert s'[i] == s'[i..][0] && s[i] == s[i..][0];
    assert s'[i + 1..] == s'[i..][1..] && s[i + 1..] == s[i..][1..];
  }

  /** A list in which one place has been written, cut behind that place. */
  lemma Written<T>(s: seq<T>, i: nat, x: T, rest: seq<T>)
    requires i < |s|
    ensures s[i := x][..i + 1] + rest == s[..i] + ([x] + rest)
    ensures s[i := x][i + 1..] == s[i + 1..]
    ensures s[..i] + ([x] + s[i + 1..]) == s[i := x]
  {
    assert s[i := x][..i + 1] == s[..i] + [x];
  }

  lemma Halves<T>(s: seq<T>, i: nat)
    requires i <= |s|
    ensures s[..i] + s[i..] == s
  {
  }

  lemma EmptyBehind<T>(s: seq<T>)
    ensures s + [] == s
  {
  }
}

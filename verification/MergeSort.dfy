/** The merge sort of `sort_list`, on sequences: what the list of nodes is
    after the pointers have been rewired. */
module MergeSort {
  import opened CStrings
  import opened Sequences

  function Less<T>(x: T, y: T, key: T -> string): bool {
    Compare(key(x), key(y)) < 0
  }

  /** The early exit of the sort: every neighbouring pair is strictly ascending. */
  predicate Ascending<T>(s: seq<T>, key: T -> string) {
    forall i :: 0 <= i < |s| - 1 ==> Less(s[i], s[i + 1], key)
  }

  ghost predicate Sorted<T>(s: seq<T>, key: T -> string) {
    forall i, j :: 0 <= i < j < |s| ==> Compare(key(s[i]), key(s[j])) <= 0
  }

  /** Ties go to the second list. */
  function Merge<T>(a: seq<T>, b: seq<T>, key: T -> string): (r: seq<T>)
    ensures multiset(r) == multiset(a) + multiset(b)
    ensures |r| == |a| + |b|
    decreases |a| + |b|
  {
    if a == [] then b
    else if b == [] then a
    else if Less(a[0], b[0], key) then
      assert a == [a[0]] + a[1..];
      [a[0]] + Merge(a[1..], b, key)
    else
      assert b == [b[0]] + b[1..];
      [b[0]] + Merge(a, b[1..], key)
  }

  function Sort<T>(s: seq<T>, key: T -> string): (r: seq<T>)
    ensures multiset(r) == multiset(s)
    ensures |r| == |s|
    decreases |s|
  {
    if |s| <= 1 || Ascending(s, key) then s
    else
      var mid := (|s| + 1) / 2;
      assert s == s[..mid] + s[mid..];
      Merge(Sort(s[..mid], key), Sort(s[mid..], key), key)
  }

  lemma {:induction false} AscendingIsSorted<T>(s: seq<T>, key: T -> string)
    requires Ascending(s, key)
    ensures Sorted(s, key)
  {
    forall i, j | 0 <= i < j < |s| ensures Less(s[i], s[j], key) {
      AscendingPair(s, key, i, j);
    }
  }

  lemma {:induction false} AscendingPair<T>(s: seq<T>, key: T -> string, i: nat, j: nat)
    requires Ascending(s, key) && i < j < |s|
    ensures Less(s[i], s[j], key)
    decreases j
  {
    assert Less(s[j - 1], s[j - 1 + 1], key);
    if i < j - 1 {
      AscendingPair(s, key, i, j - 1);
      CompareTransitive(key(s[i]), key(s[j - 1]), key(s[j]));
    }
  }

  ghost predicate Below<T>(x: T, s: seq<T>, key: T -> string) {
    forall i :: 0 <= i < |s| ==> Compare(key(x), key(s[i])) <= 0
  }

  lemma SortedCons<T>(x: T, s: seq<T>, key: T -> string)
    requires Sorted(s, key) && Below(x, s, key)
    ensures Sorted([x] + s, key)
  {
  }

  lemma {:induction false} MergeSorted<T>(a: seq<T>, b: seq<T>, key: T -> string)
    requires Sorted(a, key) && Sorted(b, key)
    ensures Sorted(Merge(a, b, key), key)
    ensures forall x :: Below(x, a, key) && Below(x, b, key) ==> Below(x, Merge(a, b, key), key)
    decreases |a| + |b|
  {
    if a != [] && b != [] {
      CompareAntisymmetric(key(a[0]), key(b[0]));
      if Less(a[0], b[0], key) {
        MergeSorted(a[1..], b, key);
        forall i | 0 <= i < |b| ensures Compare(key(a[0]), key(b[i])) <= 0 {
          if i > 0 { CompareTransitive(key(a[0]), key(b[0]), key(b[i])); }
        }
        assert Below(a[0], a[1..], key);
        SortedCons(a[0], Merge(a[1..], b, key), key);
        forall x | Below(x, a, key) && Below(x, b, key) ensures Below(x, Merge(a, b, key), key) {
          assert Below(x, a[1..], key);
          assert Compare(key(x), key(a[0])) <= 0;
        }
      } else {
        MergeSorted(a, b[1..], key);
        forall i | 0 <= i < |a| ensures Compare(key(b[0]), key(a[i])) <= 0 {
          if i > 0 { CompareTransitive(key(b[0]), key(a[0]), key(a[i])); }
        }
        assert Below(b[0], b[1..], key);
        SortedCons(b[0], Merge(a, b[1..], key), key);
        forall x | Below(x, a, key) && Below(x, b, key) ensures Below(x, Merge(a, b, key), key) {
          assert Below(x, b[1..], key);
          assert Compare(key(x), key(b[0])) <= 0;
        }
      }
    }
  }

  /** The result is ordered by key; that it is a permutation is part of `Sort`. */
  lemma {:induction false} SortSorted<T>(s: seq<T>, key: T -> string)
    ensures Sorted(Sort(s, key), key)
    decreases |s|
  {
    if |s| <= 1 {
    } else if Ascending(s, key) {
      AscendingIsSorted(s, key);
    } else {
      var mid := (|s| + 1) / 2;
      SortSorted(s[..mid], key);
      SortSorted(s[mid..], key);
      MergeSorted(Sort(s[..mid], key), Sort(s[mid..], key), key);
    }
  }

  // ----- two and three out of order -----

  lemma MergeOne<T>(a: seq<T>, y: T, key: T -> string)
    requires a != [] ==> !Less(a[0], y, key)
    ensures Merge(a, [y], key) == [y] + a
  {
    assert [y][1..] == [];
  }

  lemma SortHalves<T>(s: seq<T>, a: seq<T>, b: seq<T>, key: T -> string)
    requires s == a + b && |b| <= |a| <= |b| + 1 && |s| > 1 && !Less(s[0], s[1], key)
    ensures Sort(s, key) == Merge(Sort(a, key), Sort(b, key), key)
  {
    hide Less, Merge;
    assert !Less(s[0], s[0 + 1], key);
    assert s[..|a|] == a && s[|a|..] == b && |a| == (|s| + 1) / 2;
  }

  lemma SortOne<T>(x: T, key: T -> string)
    ensures Sort([x], key) == [x]
  {
  }

  lemma SortTwo<T>(x: T, y: T, key: T -> string)
    requires !Less(x, y, key)
    ensures Sort([x, y], key) == [y, x]
  {
    hide Less, Merge, Sort;
    SortHalves([x, y], [x], [y], key);
    SortOne(x, key);
    SortOne(y, key);
    MergeOne([x], y, key);
  }

  lemma SortThree<T>(x: T, y: T, z: T, key: T -> string)
    requires !Less(x, y, key) && !Less(y, z, key)
    ensures Sort([x, y, z], key) == [z, y, x]
  {
    hide Less, Merge, Sort;
    SortHalves([x, y, z], [x, y], [z], key);
    SortTwo(x, y, key);
    SortOne(z, key);
    MergeOne([y, x], z, key);
  }

  // ----- items with the same key -----

  /** The items with the key `k`, in their order. */
  function With<T>(s: seq<T>, k: string, key: T -> string): seq<T> {
    if s == [] then [] else (if key(s[0]) == k then [s[0]] else []) + With(s[1..], k, key)
  }

  function Reversed<T>(s: seq<T>): seq<T> {
    if s == [] then [] else Reversed(s[1..]) + [s[0]]
  }

  lemma {:induction false} WithConcat<T>(a: seq<T>, b: seq<T>, k: string, key: T -> string)
    ensures With(a + b, k, key) == With(a, k, key) + With(b, k, key)
    decreases |a|
  {
    if a == [] {
      assert a + b == b;
    } else {
      var first := if key(a[0]) == k then [a[0]] else [];
      assert (a + b)[1..] == a[1..] + b && (a + b)[0] == a[0];
      WithConcat(a[1..], b, k, key);
      Associative(first, With(a[1..], k, key), With(b, k, key));
    }
  }

  lemma {:induction false} ReversedConcat<T>(a: seq<T>, b: seq<T>)
    ensures Reversed(a + b) == Reversed(b) + Reversed(a)
    decreases |a|
  {
    if a == [] {
      assert a + b == b;
    } else {
      assert (a + b)[1..] == a[1..] + b;
      ReversedConcat(a[1..], b);
    }
  }

  /** Behind a greater item of an ordered list there is none with the key. */
  lemma {:induction false} NoneWith<T>(s: seq<T>, k: string, key: T -> string)
    requires Sorted(s, key) && (s != [] ==> Compare(k, key(s[0])) < 0)
    ensures With(s, k, key) == []
    decreases |s|
  {
    if s != [] {
      CompareEqual(k, key(s[0]));
      if |s| > 1 {
        assert Compare(key(s[0]), key(s[1])) <= 0;
        CompareTransitive(k, key(s[0]), key(s[1]));
      }
      NoneWith(s[1..], k, key);
    }
  }

  lemma {:induction false} MergeWith<T>(a: seq<T>, b: seq<T>, k: string, key: T -> string)
    requires Sorted(a, key) && Sorted(b, key)
    ensures With(Merge(a, b, key), k, key) == With(b, k, key) + With(a, k, key)
    decreases |a| + |b|
  {
    if a == [] || b == [] {
    } else if Less(a[0], b[0], key) {
      MergeWith(a[1..], b, k, key);
      if key(a[0]) == k { NoneWith(b, k, key); }
    } else {
      MergeWith(a, b[1..], k, key);
      assert ([b[0]] + Merge(a, b[1..], key))[1..] == Merge(a, b[1..], key);
    }
  }

  lemma {:induction false} AscendingWith<T>(s: seq<T>, k: string, key: T -> string)
    requires Ascending(s, key)
    ensures |With(s, k, key)| <= 1
    decreases |s|
  {
    if s != [] {
      AscendingTail(s, key);
      AscendingWith(s[1..], k, key);
      if key(s[0]) == k {
        if |s| > 1 { assert Less(s[0], s[0 + 1], key); }
        AscendingIsSorted(s[1..], key);
        NoneWith(s[1..], k, key);
      }
    }
  }

  lemma AscendingTail<T>(s: seq<T>, key: T -> string)
    requires s != [] && Ascending(s, key)
    ensures Ascending(s[1..], key)
  {
    forall i | 0 <= i < |s| - 2 ensures Less(s[1..][i], s[1..][i + 1], key) {
      assert Less(s[i + 1], s[i + 1 + 1], key);
    }
  }

  /** The sort is not stable: items with the same key come out in the opposite order. With `SortSorted` this leaves only
      one result. */
  lemma {:induction false} EqualsTurnRound<T>(s: seq<T>, k: string, key: T -> string)
    ensures With(Sort(s, key), k, key) == Reversed(With(s, k, key))
    decreases |s|
  {
    hide With, Reversed, Merge, Less;
    if |s| <= 1 {
      ShortReversed(s, k, key);
    } else if Ascending(s, key) {
      AscendingWith(s, k, key);
      ReversedOne(With(s, k, key));
    } else {
      var mid := (|s| + 1) / 2;
      assert s == s[..mid] + s[mid..];
      EqualsTurnRound(s[..mid], k, key);
      EqualsTurnRound(s[mid..], k, key);
      SortSorted(s[..mid], key);
      SortSorted(s[mid..], key);
      MergeWith(Sort(s[..mid], key), Sort(s[mid..], key), k, key);
      WithConcat(s[..mid], s[mid..], k, key);
      ReversedConcat(With(s[..mid], k, key), With(s[mid..], k, key));
    }
  }

  lemma ReversedOne<T>(s: seq<T>)
    requires |s| <= 1
    ensures Reversed(s) == s
  {
  }

  lemma ShortReversed<T>(s: seq<T>, k: string, key: T -> string)
    requires |s| <= 1
    ensures Reversed(With(s, k, key)) == With(s, k, key)
  {
    if s != [] { assert s[1..] == [] && With(s[1..], k, key) == []; }
    ReversedOne(With(s, k, key));
  }
}

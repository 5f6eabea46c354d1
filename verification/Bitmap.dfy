/** One bit of a word is set or cleared, and the others stay. */
module Words {

  predicate HasBit(w: bv32, k: bv8)
    requires k < 32
  {
    (w >> k) & 1 == 1
  }

  function WithBit(w: bv32, k: bv8): bv32
    requires k < 32
  {
    w | (1 << k)
  }

  function WithoutBit(w: bv32, k: bv8): bv32
    requires k < 32
  {
    w & !(1 << k)
  }

  lemma WordSet(w: bv32, k: bv8, l: bv8)
    requires k < 32 && l < 32
    ensures ((w | (1 << k)) >> l) & 1 == if k == l then 1 else (w >> l) & 1
  {
  }

  lemma WordCleared(w: bv32, k: bv8)
    requires k < 32
    ensures ((w & !(1 << k)) >> k) & 1 == 0
  {
  }

  lemma SetAgain(w: bv32, m: bv32)
    ensures (w & !m) | m == w | m
  {
  }

  lemma WordElsewhere(w: bv32, k: bv8, l: bv8)
    requires k < 32 && l < 32 && k != l
    ensures ((w & !(1 << k)) >> l) & 1 == (w >> l) & 1
  {
    WordSet(w & !(1 << k), k, l);
    WordSet(w, k, l);
    SetAgain(w, 1 << k);
  }

  lemma BitOfWith(w: bv32, k: bv8, l: bv8)
    requires k < 32 && l < 32
    ensures HasBit(WithBit(w, k), l) <==> k == l || HasBit(w, l)
  {
    WordSet(w, k, l);
  }

  lemma Cleared(w: bv32, k: bv8)
    requires k < 32
    ensures !HasBit(WithoutBit(w, k), k)
  {
    WordCleared(w, k);
  }

  lemma Elsewhere(w: bv32, k: bv8, l: bv8)
    requires k < 32 && l < 32 && k != l
    ensures HasBit(WithoutBit(w, k), l) <==> HasBit(w, l)
  {
    WordElsewhere(w, k, l);
  }

  lemma BackAgain(w: bv32, k: bv8)
    requires k < 32 && !HasBit(w, k)
    ensures WithoutBit(WithBit(w, k), k) == w
  {
  }

  lemma BitOfWithout(w: bv32, k: bv8, l: bv8)
    requires k < 32 && l < 32
    ensures HasBit(WithoutBit(w, k), l) <==> k != l && HasBit(w, l)
  {
    hide HasBit, WithoutBit;
    Cleared(w, k);
    if k != l { Elsewhere(w, k, l); }
  }
}

/** Tables of bits, 32 to a word, in which a set bit marks a slot that is in use. */
module Bitmap {

  import opened Words

  /** The place of bit `i` in its word. */
  function Amount(i: nat): (k: bv8)
    ensures k < 32
  {
    AmountIs(i % 32);
    (i % 32) as bv8
  }

  predicate Bit(x: seq<bv32>, i: nat)
    requires i / 32 < |x|
  {
    HasBit(x[i / 32], Amount(i))
  }

  function Set(x: seq<bv32>, i: nat): (y: seq<bv32>)
    requires i / 32 < |x|
    ensures |y| == |x|
  {
    x[i / 32 := WithBit(x[i / 32], Amount(i))]
  }

  function Clear(x: seq<bv32>, i: nat): (y: seq<bv32>)
    requires i / 32 < |x|
    ensures |y| == |x|
  {
    x[i / 32 := WithoutBit(x[i / 32], Amount(i))]
  }

  function NoBits(words: nat): (x: seq<bv32>)
    ensures |x| == words
  {
    seq(words, _ => 0)
  }

  lemma AmountIs(k: nat)
    requires k < 32
    ensures k as bv8 < 32 && (k as bv8) as nat == k
  {
  }

  lemma SameAmount(i: nat, j: nat)
    requires i / 32 == j / 32
    ensures Amount(i) == Amount(j) <==> i == j
  {
    AmountIs(i % 32);
    AmountIs(j % 32);
  }

  lemma BitsOfSet(x: seq<bv32>, i: nat, j: nat)
    requires i / 32 < |x| && j / 32 < |x|
    ensures Bit(Set(x, i), j) <==> j == i || Bit(x, j)
  {
    hide Amount, HasBit, WithBit, WithoutBit;
    if i / 32 == j / 32 {
      BitOfWith(x[i / 32], Amount(i), Amount(j));
      SameAmount(i, j);
    }
  }

  lemma BitsOfClear(x: seq<bv32>, i: nat, j: nat)
    requires i / 32 < |x| && j / 32 < |x|
    ensures Bit(Clear(x, i), j) <==> j != i && Bit(x, j)
  {
    hide Amount, HasBit, WithBit, WithoutBit;
    if i / 32 == j / 32 {
      BitOfWithout(x[i / 32], Amount(i), Amount(j));
      SameAmount(i, j);
    }
  }

  lemma ClearAfterSet(x: seq<bv32>, i: nat)
    requires i / 32 < |x| && !Bit(x, i)
    ensures Clear(Set(x, i), i) == x
  {
    hide Amount, HasBit, WithBit, WithoutBit;
    BackAgain(x[i / 32], Amount(i));
  }

  lemma BitsOfNone(words: nat, j: nat)
    requires j / 32 < words
    ensures !Bit(NoBits(words), j)
  {
  }

  /** The first free slot from `i` on, or `n`. */
  function FirstFree(x: seq<bv32>, n: nat, i: nat := 0): (r: nat)
    requires i <= n <= 32 * |x|
    ensures i <= r <= n && (r < n ==> !Bit(x, r)) && forall j: nat :: i <= j < r ==> Bit(x, j)
    decreases n - i
  {
    if i == n || !Bit(x, i) then i else FirstFree(x, n, i + 1)
  }

  /** The search for a free slot that every allocator has. */
  method FindFree(x: seq<bv32>, n: nat) returns (r: nat)
    requires n <= 32 * |x|
    ensures r == FirstFree(x, n)
  {
    r := 0;
    while r < n
      invariant r <= n && FirstFree(x, n) == FirstFree(x, n, r)
    {
      if !Bit(x, r) {
        break;
      }
      r := r + 1;
    }
  }
}

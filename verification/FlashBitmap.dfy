/** The occupancy bitmap of the face store (flash.c). */
module FlashBitmap {

  import opened Bitmap

  /** `FACE_DATA_MAX_COUNT`, and the words of `face_info_index`. */
  const SLOTS: nat := 512
  const WORDS: nat := 17

  type Index = x: seq<bv32> | |x| == WORDS witness NoBits(WORDS)

  function Empty(): Index {
    NoBits(WORDS)
  }

  /** How many of the first `n` slots are occupied. */
  function Count(x: Index, n: nat): (c: nat)
    requires n <= SLOTS
    ensures c <= n
  {
    if n == 0 then 0 else Count(x, n - 1) + if Bit(x, n - 1) then 1 else 0
  }

  lemma {:induction false} CountSame(x: Index, y: Index, n: nat)
    requires n <= SLOTS && forall j :: 0 <= j < n ==> (Bit(x, j) <==> Bit(y, j))
    ensures Count(x, n) == Count(y, n)
  {
    hide Bit;
    if n > 0 { CountSame(x, y, n - 1); }
  }

  lemma {:induction false} CountOfSet(x: Index, i: nat, n: nat)
    requires i < SLOTS && n <= SLOTS && !Bit(x, i)
    ensures Count(Set(x, i), n) == Count(x, n) + if i < n then 1 else 0
  {
    hide Bit, Set;
    if n > 0 {
      CountOfSet(x, i, n - 1);
      BitsOfSet(x, i, n - 1);
    }
  }

  lemma {:induction false} CountOfClear(x: Index, i: nat, n: nat)
    requires i < SLOTS && n <= SLOTS
    ensures Count(Clear(x, i), n) + (if i < n && Bit(x, i) then 1 else 0) == Count(x, n)
  {
    hide Bit, Clear;
    if n > 0 {
      CountOfClear(x, i, n - 1);
      BitsOfClear(x, i, n - 1);
    }
  }

  lemma {:induction false} CountOfEmpty(n: nat)
    requires n <= SLOTS
    ensures Count(Empty(), n) == 0
  {
    hide Bit, NoBits;
    if n > 0 {
      CountOfEmpty(n - 1);
      BitsOfNone(WORDS, n - 1);
    }
  }

  lemma {:induction false} CountMonotone(x: Index, m: nat, n: nat)
    requires m <= n <= SLOTS
    ensures Count(x, m) <= Count(x, n)
  {
    hide Bit;
    if m < n { CountMonotone(x, m, n - 1); }
  }
}

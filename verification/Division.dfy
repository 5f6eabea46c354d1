/** Quotients and remainders, by their defining equation. */
module Division {

  lemma Quotient(v: int, q: int, r: int, p: int)
    requires p > 0 && v == q * p + r && 0 <= r < p
    ensures v / p == q && v % p == r
  {
    var d, m := v / p, v % p;
    DivMod(v, p);
    Unique(q, r, d, m, p);
  }

  lemma Unique(q: int, r: int, d: int, m: int, p: int)
    requires p > 0 && q * p + r == d * p + m && 0 <= r < p && 0 <= m < p
    ensures q == d && r == m
  {
    assert d < q ==> (d + 1) * p <= q * p;
    assert d > q ==> d * p >= (q + 1) * p;
  }

  /** A row and a column of a number. */
  function Row(k: nat, w: nat): (r: nat)
    requires w > 0
    ensures r == k / w
  {
    DivMod(k, w);
    NotNegative(k / w, k % w, w);
    k / w
  }

  lemma NotNegative(q: int, r: int, p: int)
    requires 0 <= r < p && 0 <= q * p + r
    ensures q >= 0
  {
    if q < 0 { Monotone(q, -1, p); }
  }

  lemma Monotone(a: int, b: int, p: nat)
    requires a <= b
    ensures a * p <= b * p
  {
  }

  function Column(k: nat, w: nat): (c: nat)
    requires w > 0
    ensures c == k % w && c < w
  {
    k % w
  }

  lemma Place(row: nat, col: nat, w: nat, h: nat)
    requires col < w && row < h
    ensures 0 <= row * w + col < w * h
    ensures Row(row * w + col, w) == row && Column(row * w + col, w) == col
  {
    Quotient(row * w + col, row, col, w);
    assert (row + 1) * w <= h * w;
    assert 0 <= row * w;
  }

  lemma Replace(k: nat, w: nat)
    requires w > 0
    ensures k == Row(k, w) * w + Column(k, w)
  {
    DivMod(k, w);
  }

  lemma DivMod(v: int, p: int)
    requires p > 0
    ensures v == v / p * p + v % p && 0 <= v % p < p
  {
  }
}

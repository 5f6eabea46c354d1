/** Numbers as bit strings, most significant bit first, and the operations that the
    bit buffers of the JPEG encoder and decoder use on them. */
module JpegBits {

  import opened Bytes
  import opened Sequences

  function Pow2(n: nat): (r: nat)
    ensures r >= 1
  {
    if n == 0 then 1 else 2 * Pow2(n - 1)
  }

  lemma {:induction false} Pow2Add(a: nat, b: nat)
    ensures Pow2(a + b) == Pow2(a) * Pow2(b)
  {
    if a > 0 { Pow2Add(a - 1, b); }
  }

  lemma {:induction false} Pow2Monotone(a: nat, b: nat)
    requires a <= b
    ensures Pow2(a) <= Pow2(b)
  {
    if a < b { Pow2Monotone(a, b - 1); }
  }

  lemma Pow2Values()
    ensures Pow2(0) == 1 && Pow2(1) == 2 && Pow2(2) == 4 && Pow2(3) == 8 && Pow2(4) == 16 && Pow2(5) == 32
    ensures Pow2(6) == 64 && Pow2(7) == 128 && Pow2(8) == 256 && Pow2(9) == 512 && Pow2(10) == 1024
    ensures Pow2(11) == 2048 && Pow2(12) == 4096 && Pow2(13) == 8192 && Pow2(14) == 16384 && Pow2(15) == 32768
    ensures Pow2(16) == 65536 && Pow2(24) == 16777216
  {
    Pow2Add(8, 8);
    Pow2Add(16, 8);
  }

  /** The low `n` bits of `v`. */
  function BitsOf(v: nat, n: nat): (r: seq<bool>)
    ensures |r| == n
  {
    if n == 0 then [] else BitsOf(v / 2, n - 1) + [v % 2 == 1]
  }

  function ValueOf(bits: seq<bool>): (v: nat)
    ensures v < Pow2(|bits|)
  {
    if bits == [] then 0
    else 2 * ValueOf(bits[..|bits| - 1]) + (if bits[|bits| - 1] then 1 else 0)
  }

  lemma {:induction false} ValueOfBits(v: nat, n: nat)
    requires v < Pow2(n)
    ensures ValueOf(BitsOf(v, n)) == v
  {
    if n > 0 {
      ValueOfBits(v / 2, n - 1);
      assert BitsOf(v, n)[..n - 1] == BitsOf(v / 2, n - 1);
    }
  }

  lemma {:induction false} BitsOfValue(bits: seq<bool>)
    ensures BitsOf(ValueOf(bits), |bits|) == bits
  {
    if bits != [] {
      var init := bits[..|bits| - 1];
      BitsOfValue(init);
      assert bits == init + [bits[|bits| - 1]];
    }
  }

  /** Bits beyond the width do not count. */
  lemma {:induction false} BitsOfModulo(v: nat, n: nat, q: nat)
    ensures BitsOf(v + q * Pow2(n), n) == BitsOf(v, n)
  {
    if n > 0 {
      assert (v + q * Pow2(n)) == v + 2 * (q * Pow2(n - 1));
      HalfPlus(v, q * Pow2(n - 1));
      BitsOfModulo(v / 2, n - 1, q);
    }
  }

  lemma HalfPlus(v: nat, h: nat)
    ensures (v + 2 * h) / 2 == v / 2 + h && (v + 2 * h) % 2 == v % 2
  {
  }

  /** Putting bits behind bits is shifting and adding. */
  lemma {:induction false} BitsOfConcat(a: nat, n: nat, b: nat, m: nat)
    requires b < Pow2(m)
    ensures BitsOf(a * Pow2(m) + b, n + m) == BitsOf(a, n) + BitsOf(b, m)
  {
    if m == 0 {
      assert BitsOf(a, n) + [] == BitsOf(a, n);
    } else {
      var h := a * Pow2(m - 1);
      assert a * Pow2(m) + b == b + 2 * h;
      HalfPlus(b, h);
      BitsOfConcat(a, n, b / 2, m - 1);
      assert BitsOf(a, n) + BitsOf(b / 2, m - 1) + [b % 2 == 1] == BitsOf(a, n) + BitsOf(b, m);
    }
  }

  function Zeros(n: nat): (r: seq<bool>)
    ensures |r| == n
  {
    seq(n, _ => false)
  }

  lemma {:induction false} BitsOfZero(n: nat)
    ensures BitsOf(0, n) == Zeros(n)
  {
    if n > 0 {
      BitsOfZero(n - 1);
      assert Zeros(n) == Zeros(n - 1) + [false];
    }
  }

  lemma ValueOfConcat(a: seq<bool>, b: seq<bool>)
    ensures ValueOf(a + b) == ValueOf(a) * Pow2(|b|) + ValueOf(b)
  {
    hide BitsOf, ValueOf, Pow2;
    var v := ValueOf(a) * Pow2(|b|) + ValueOf(b);
    BitsOfConcat(ValueOf(a), |a|, ValueOf(b), |b|);
    BitsOfValue(a);
    BitsOfValue(b);
    Pow2Add(|a|, |b|);
    Bound(ValueOf(a), Pow2(|a|), ValueOf(b), Pow2(|b|));
    ValueOfBits(v, |a| + |b|);
  }

  lemma Bound(a: nat, A: nat, b: nat, B: nat)
    requires a < A && b < B
    ensures a * B + b < A * B
  {
    assert (a + 1) * B <= A * B;
  }

  lemma DivideBack(q: nat, p: nat, r: nat)
    requires r < p
    ensures (q * p + r) / p == q
  {
    var d := (q * p + r) / p;
    assert d * p <= q * p + r < (d + 1) * p;
    assert d < q ==> (d + 1) * p <= q * p;
    assert d > q ==> d * p >= (q + 1) * p;
  }

  lemma DivMod(v: nat, p: nat)
    requires p > 0
    ensures v == v / p * p + v % p && v % p < p
  {
  }

  lemma MultipleOf(a: nat, p: nat)
    requires p > 0
    ensures a * p % p == 0
  {
    DivideBack(a, p, 0);
    DivMod(a * p, p);
  }

  // ----- bytes -----

  function ByteBits(bytes: seq<byte>): (r: seq<bool>)
    ensures |r| == 8 * |bytes|
  {
    if bytes == [] then [] else BitsOf(bytes[0], 8) + ByteBits(bytes[1..])
  }

  lemma {:induction false} ByteBitsAppend(a: seq<byte>, b: seq<byte>)
    ensures ByteBits(a + b) == ByteBits(a) + ByteBits(b)
  {
    if a == [] {
      assert a + b == b;
    } else {
      assert (a + b)[1..] == a[1..] + b;
      ByteBitsAppend(a[1..], b);
    }
  }

  /** The complete bytes of a bit string, and the bits behind them. */
  function Pack(bits: seq<bool>): (r: seq<byte>)
    ensures |r| == |bits| / 8
  {
    if |bits| < 8 then []
    else
      Pow2Values();
      [ValueOf(bits[..8])] + Pack(bits[8..])
  }

  function Left(bits: seq<bool>): (r: seq<bool>)
    ensures |r| == |bits| % 8
  {
    if |bits| < 8 then bits else Left(bits[8..])
  }

  /** Packing loses nothing. */
  lemma {:induction false} PackBits(bits: seq<bool>)
    ensures ByteBits(Pack(bits)) + Left(bits) == bits
  {
    if |bits| >= 8 {
      hide BitsOf, ValueOf, Pow2;
      PackBits(bits[8..]);
      BitsOfValue(bits[..8]);
      assert Pack(bits)[1..] == Pack(bits[8..]);
      Associative(bits[..8], ByteBits(Pack(bits[8..])), Left(bits));
      assert bits == bits[..8] + bits[8..];
    }
  }

  /** Packing in two steps. */
  lemma {:induction false} PackAppend(a: seq<bool>, b: seq<bool>)
    ensures Pack(a + b) == Pack(a) + Pack(Left(a) + b)
    ensures Left(a + b) == Left(Left(a) + b)
  {
    hide ValueOf, Pow2;
    if |a| >= 8 {
      assert (a + b)[..8] == a[..8] && (a + b)[8..] == a[8..] + b;
      PackAppend(a[8..], b);
      Associative([ValueOf(a[..8]) as byte], Pack(a[8..]), Pack(Left(a) + b)) by {
        Pow2Values();
      }
    }
  }

  // ----- byte stuffing -----

  /** Section F.1.2.3 of ITU-T T.81: a zero byte behind every 0xFF. */
  function Stuff(data: seq<byte>): seq<byte> {
    if data == [] then [] else (if data[0] == 0xFF then [0xFF, 0] else [data[0]]) + Stuff(data[1..])
  }

  lemma {:induction false} StuffAppend(a: seq<byte>, b: seq<byte>)
    ensures Stuff(a + b) == Stuff(a) + Stuff(b)
  {
    if a == [] {
      assert a + b == b;
    } else {
      assert (a + b)[1..] == a[1..] + b;
      StuffAppend(a[1..], b);
      var h := if a[0] == 0xFF then [0xFF, 0] else [a[0]];
      assert h + (Stuff(a[1..]) + Stuff(b)) == h + Stuff(a[1..]) + Stuff(b);
    }
  }

  // ----- streams: a bit string followed by ones for ever -----

  function BitAt(s: seq<bool>, i: nat): bool {
    if i < |s| then s[i] else true
  }

  /** The stream without its trailing ones, the one short name of the stream. */
  function Canon(s: seq<bool>): (r: seq<bool>)
    ensures r <= s
    ensures r != [] ==> !r[|r| - 1]
    ensures forall i :: |r| <= i < |s| ==> s[i]
  {
    if s == [] || !s[|s| - 1] then s else Canon(s[..|s| - 1])
  }

  function Drop(s: seq<bool>, n: nat): seq<bool> {
    if n <= |s| then s[n..] else []
  }

  lemma CanonUnique(a: seq<bool>, b: seq<bool>)
    requires forall i: nat :: BitAt(a, i) == BitAt(b, i)
    ensures Canon(a) == Canon(b)
  {
    CanonLength(a, b);
    CanonLength(b, a);
    var x, y := Canon(a), Canon(b);
    assert forall i :: 0 <= i < |x| ==> x[i] == BitAt(a, i) && y[i] == BitAt(b, i);
  }

  lemma CanonLength(a: seq<bool>, b: seq<bool>)
    requires forall i: nat :: BitAt(a, i) == BitAt(b, i)
    ensures |Canon(a)| <= |Canon(b)|
  {
    var x := Canon(a);
    assert x == [] || BitAt(a, |x| - 1) == BitAt(b, |x| - 1) == x[|x| - 1];
  }

  lemma CanonAt(s: seq<bool>, i: nat)
    ensures BitAt(Canon(s), i) == BitAt(s, i)
  {
  }

  /** Dropping and naming commute. */
  lemma CanonDrop(s: seq<bool>, n: nat)
    ensures Drop(Canon(s), n) == Canon(Drop(s, n))
  {
    var d := Drop(Canon(s), n);
    forall i: nat ensures BitAt(d, i) == BitAt(Drop(s, n), i) {
      CanonAt(s, i + n);
    }
    CanonUnique(d, Drop(s, n));
    assert Canon(d) == d;
  }

  lemma CanonDropConcat(a: seq<bool>, b: seq<bool>)
    ensures Drop(Canon(a + b), |a|) == Canon(b)
  {
    CanonDrop(a + b, |a|);
    assert Drop(a + b, |a|) == b;
  }

  function Take(s: seq<bool>, n: nat): (r: seq<bool>)
    ensures |r| == n
  {
    seq(n, i requires 0 <= i < n => BitAt(s, i))
  }

  lemma TakeConcat(a: seq<bool>, b: seq<bool>)
    ensures Take(Canon(a + b), |a|) == a
  {
    forall i | 0 <= i < |a| ensures BitAt(Canon(a + b), i) == a[i] { CanonAt(a + b, i); }
  }

  /** A stream that begins with the bits `a` gives up its first bit. */
  lemma PopOne(a: seq<bool>, b: seq<bool>)
    requires a != []
    ensures BitAt(Canon(a + b), 0) == a[0]
    ensures Drop(Canon(a + b), 1) == Canon(a[1..] + b)
  {
    CanonAt(a + b, 0);
    CanonDrop(a + b, 1);
    assert Drop(a + b, 1) == a[1..] + b;
  }

  lemma ValueOfPrefix(a: seq<bool>, n: nat)
    requires n < |a|
    ensures ValueOf(a[..n + 1]) == 2 * ValueOf(a[..n]) + if a[n] then 1 else 0
  {
    assert a[..n + 1][..n] == a[..n];
  }
}

/** The bit writer of jpeg_encode.c: bits collect below position 24 of `bitb`, and every complete byte
    goes to a buffer that grows or overflows. */
module JpegWriter {

  import opened Bytes
  import opened JpegBits
  import opened Sequences

  const GROWTH := 1024
  const WIDTH := 0x1_0000_0000

  /** What the buffer holds, how many bytes it is long, whether a byte was lost, and the bits that do
      not make a byte yet. */
  datatype Output = Output(contents: seq<byte>, length: nat, overflow: bool, pending: seq<bool>)

  /** The last byte of the buffer stays free. */
  function PutByte(o: Output, realloc: bool, c: byte): Output {
    if |o.contents| + 1 < o.length then o.(contents := o.contents + [c])
    else if realloc then o.(contents := o.contents + [c], length := o.length + GROWTH)
    else o.(overflow := true)
  }

  function PutBytes(o: Output, realloc: bool, bytes: seq<byte>): Output
    decreases |bytes|
  {
    if bytes == [] then o else PutBytes(PutByte(o, realloc, bytes[0]), realloc, bytes[1..])
  }

  /** The complete bytes among the pending and the new bits are stuffed and put; the others wait. */
  function Emit(o: Output, realloc: bool, bits: seq<bool>): Output {
    PutBytes(o, realloc, Stuff(Pack(o.pending + bits))).(pending := Left(o.pending + bits))
  }

  lemma {:induction false} PutBytesAppend(o: Output, realloc: bool, a: seq<byte>, b: seq<byte>)
    ensures PutBytes(o, realloc, a + b) == PutBytes(PutBytes(o, realloc, a), realloc, b)
    decreases |a|
  {
    if a == [] {
      assert a + b == b;
    } else {
      assert (a + b)[1..] == a[1..] + b;
      PutBytesAppend(PutByte(o, realloc, a[0]), realloc, a[1..], b);
    }
  }

  lemma {:induction false} PutBytesPending(o: Output, realloc: bool, bytes: seq<byte>, p: seq<bool>)
    ensures PutBytes(o, realloc, bytes).pending == o.pending
    ensures PutBytes(o.(pending := p), realloc, bytes) == PutBytes(o, realloc, bytes).(pending := p)
    decreases |bytes|
  {
    if bytes != [] {
      PutBytesPending(PutByte(o, realloc, bytes[0]), realloc, bytes[1..], p);
    }
  }

  /** Writing bits in two steps is writing them at once. */
  lemma EmitAppend(o: Output, realloc: bool, a: seq<bool>, b: seq<bool>)
    ensures Emit(Emit(o, realloc, a), realloc, b) == Emit(o, realloc, a + b)
  {
    hide PutBytes, Stuff, Pack, Left;
    var p := o.pending + a;
    Associative(o.pending, a, b);
    PackAppend(p, b);
    StuffAppend(Pack(p), Pack(Left(p) + b));
    PutBytesAppend(o, realloc, Stuff(Pack(p)), Stuff(Pack(Left(p) + b)));
    PutBytesPending(PutBytes(o, realloc, Stuff(Pack(p))), realloc, Stuff(Pack(Left(p) + b)), Left(p));
  }

  /** A buffer that grows loses nothing; one that does not keeps what fits in front of its last byte,
      and says so when something did not. */
  lemma {:induction false} PutBytesIs(o: Output, realloc: bool, bytes: seq<byte>)
    ensures realloc ==> PutBytes(o, realloc, bytes).contents == o.contents + bytes && PutBytes(o, realloc, bytes).overflow == o.overflow
    ensures !realloc ==>
      var room := if |o.contents| < o.length then o.length - 1 - |o.contents| else 0;
      && PutBytes(o, realloc, bytes).contents == o.contents + bytes[..if |bytes| <= room then |bytes| else room]
      && PutBytes(o, realloc, bytes).overflow == (o.overflow || |bytes| > room)
    decreases |bytes|
  {
    if bytes == [] {
      assert o.contents + bytes == o.contents;
    } else {
      PutBytesIs(PutByte(o, realloc, bytes[0]), realloc, bytes[1..]);
      Associative(o.contents, [bytes[0]], bytes[1..]);
      assert [bytes[0]] + bytes[1..] == bytes;
      if !realloc && |o.contents| + 1 < o.length {
        var room := o.length - 1 - |o.contents|;
        var n := if |bytes| <= room then |bytes| else room;
        assert [bytes[0]] + bytes[1..][..n - 1] == bytes[..n];
        Associative(o.contents, [bytes[0]], bytes[1..][..n - 1]);
      }
    }
  }

  // ----- the bits below position 24 -----

  /** A number shifted left. */
  function Place(a: nat, k: nat): nat {
    a * Pow2(k)
  }

  /** The bits `x` end at position `24 - |x|`, and the lower positions are zero; what is above
      position 23 was written before. */
  ghost predicate Pending(b: nat, x: seq<bool>) {
    |x| <= 24 && exists a: nat :: BitsOf(a, |x|) == x && b == Place(a, 24 - |x|)
  }

  /** A bitwise or, where `b` has no bit at position `n` or above, and `a` none below. */
  function Or(a: nat, b: nat, ghost n: nat): nat
    requires a % Pow2(n) == 0 && b < Pow2(n)
  {
    a + b
  }

  lemma PendingIs(b: nat, a: nat, x: seq<bool>, k: nat)
    requires |x| + k == 24 && BitsOf(a, |x|) == x && b == Place(a, k)
    ensures Pending(b, x)
  {
  }

  lemma PendingHas(b: nat, x: seq<bool>) returns (a: nat)
    requires Pending(b, x)
    ensures |x| <= 24 && BitsOf(a, |x|) == x && b == Place(a, 24 - |x|)
  {
    a :| BitsOf(a, |x|) == x && b == Place(a, 24 - |x|);
  }

  lemma OrPending(b: nat, x: seq<bool>, code: nat, n: nat)
    requires Pending(b, x) && |x| + n <= 24 && code < Pow2(n) && b < WIDTH
    ensures b % Pow2(24 - |x|) == 0 && Place(code, 24 - (|x| + n)) < Pow2(24 - |x|)
    ensures var b' := Or(b, Place(code, 24 - (|x| + n)), 24 - |x|); b' < WIDTH && Pending(b', x + BitsOf(code, n))
  {
    hide BitsOf, Pow2, Place, Pending;
    var j := 24 - (|x| + n);
    var a := PendingHas(b, x);
    BitsOfConcat(a, |x|, code, n);
    assert 24 - |x| == n + j;
    PlaceOr(a, n, code, j);
    BelowWidth(a, n + j, Place(code, j));
    PendingIs(b + Place(code, j), a * Pow2(n) + code, x + BitsOf(code, n), j);
  }

  lemma PlaceOr(a: nat, n: nat, code: nat, j: nat)
    requires code < Pow2(n)
    ensures Place(a, n + j) % Pow2(n + j) == 0
    ensures Place(a, n + j) + Place(code, j) == Place(a * Pow2(n) + code, j)
    ensures Place(code, j) < Pow2(n + j)
  {
    MultipleOf(a, Pow2(n + j));
    Pow2Add(n, j);
    Less(code, Pow2(n), Pow2(j));
    Distribute(a, Pow2(n), code, Pow2(j));
  }

  lemma BelowWidth(a: nat, k: nat, r: nat)
    requires k <= 24 && Place(a, k) < WIDTH && r < Pow2(k)
    ensures Place(a, k) + r < WIDTH
  {
    Pow2Add(32 - k, k);
    Pow2Add(16, 16);
    Pow2Values();
    NextMultiple(a, Pow2(32 - k), Pow2(k), r);
  }

  lemma Less(a: nat, b: nat, p: nat)
    requires a < b && p > 0
    ensures a * p < b * p
  {
  }

  lemma Distribute(a: nat, p: nat, c: nat, q: nat)
    ensures (a * p + c) * q == a * (p * q) + c * q
  {
  }

  lemma NextMultiple(i: nat, j: nat, p: nat, r: nat)
    requires i * p < j * p && r < p
    ensures i * p + r < j * p
  {
    assert i < j;
    assert (i + 1) * p <= j * p;
  }

  /** The byte at position 16 holds the first eight bits, and a shift by eight drops them. */
  lemma TopPending(b: nat, x: seq<bool>)
    requires Pending(b, x) && |x| >= 8 && b < WIDTH
    ensures b / 65536 % 256 == ValueOf(x[..8])
    ensures Pending(b * 256 % WIDTH, x[8..])
  {
    hide BitsOf, Pow2, Place, ValueOf, Pending;
    var m := |x| - 8;
    var a := PendingHas(b, x);
    var h, r := a / Pow2(m), a % Pow2(m);
    DivMod(a, Pow2(m));
    assert h * Pow2(m) + r == a;
    BitsOfConcat(h, 8, r, m);
    assert x[..8] == BitsOf(h, 8) && x[8..] == BitsOf(r, m);
    LowByte(h);
    PlaceSplit(h, r, m, 16 - m);
    PlaceSplit(h % 256, r, m, 24 - m);
    PlaceMore(r, 16 - m);
    assert Pow2(16) == 65536 && Pow2(24) == 16777216 by { Pow2Values(); }
    ModWidth(h, Place(r, 16 - m));
    BitsOfModulo(r, m, h % 256);
    PendingIs(b * 256 % WIDTH, h % 256 * Pow2(m) + r, x[8..], 24 - m);
  }

  lemma LowByte(h: nat)
    ensures h % 256 == ValueOf(BitsOf(h, 8))
  {
    Pow2Values();
    BitsOfModulo(h % 256, 8, h / 256);
    ValueOfBits(h % 256, 8);
  }

  lemma PlaceSplit(h: nat, r: nat, m: nat, k: nat)
    requires r < Pow2(m)
    ensures Place(h * Pow2(m) + r, k) == h * Pow2(m + k) + Place(r, k)
    ensures Place(r, k) < Pow2(m + k)
  {
    Pow2Add(m, k);
    Distribute(h, Pow2(m), r, Pow2(k));
    Less(r, Pow2(m), Pow2(k));
  }

  lemma PlaceMore(r: nat, k: nat)
    ensures Place(r, k + 8) == Place(r, k) * 256
  {
    Pow2Add(k, 8);
    Pow2Values();
  }

  lemma ModWidth(h: nat, s: nat)
    requires s < 65536
    ensures (h * 65536 + s) / 65536 == h
    ensures (h * 65536 + s) * 256 % WIDTH == h % 256 * 16777216 + s * 256
  {
  }

  // ----- the buffer -----

  class Buffer {
    var buf: array<byte>
    var idx: nat
    var length: nat
    var bitc: nat
    var bitb: nat
    var overflow: bool
    const realloc: bool
    ghost var pending: seq<bool>

    ghost predicate Valid()
      reads this
    {
      && buf.Length == length && idx <= length
      && |pending| == bitc && bitb < WIDTH && Pending(bitb, pending)
    }

    ghost function View(): Output
      requires Valid()
      reads this, buf
    {
      Output(buf[..idx], length, overflow, pending)
    }

    constructor (pixels: array<byte>, realloc: bool)
      ensures Valid() && bitc == 0 && this.realloc == realloc && buf == pixels
      ensures View() == Output([], pixels.Length, false, [])
    {
      buf, idx, length := pixels, 0, pixels.Length;
      bitc, bitb, overflow := 0, 0, false;
      this.realloc := realloc;
      pending := [];
      new;
      PendingIs(0, 0, [], 24);
    }

    method PutChar(c: byte)
      requires Valid()
      modifies this`buf, this`idx, this`length, this`overflow, buf
      ensures Valid() && (buf == old(buf) || fresh(buf))
      ensures View() == PutByte(old(View()), realloc, c)
    {
      if idx + 1 >= length {
        if !realloc {
          overflow := true;
          return;
        }
        length := length + GROWTH;
        var grown := new byte[length];
        for i := 0 to buf.Length
          modifies grown
          invariant grown[..i] == buf[..i]
        {
          grown[i] := buf[i];
        }
        buf := grown;
      }
      buf[idx] := c;
      idx := idx + 1;
    }

    /** The `n` bits of `code` go behind the pending ones. */
    method WriteBits(code: nat, n: nat)
      requires Valid() && bitc < 8 && n <= 16 && code < Pow2(n)
      modifies this, buf
      ensures Valid() && bitc < 8 && (buf == old(buf) || fresh(buf))
      ensures View() == Emit(old(View()), realloc, BitsOf(code, n))
    {
      hide BitsOf, Pow2, Place, ValueOf, Pending, PutBytes, PutByte, Pack, Stuff, Left;
      ghost var all := pending + BitsOf(code, n);
      bitc := bitc + n;
      OrPending(bitb, pending, code, n);
      bitb := Or(bitb, Place(code, 24 - bitc), 24 - old(bitc));
      pending := all;
      ghost var before := View();
      while bitc > 7
        invariant Valid() && bitc <= 23 && (buf == old(buf) || fresh(buf))
        invariant Emptied(View(), realloc) == Emptied(before, realloc)
      {
        ghost var o := View();
        TopPending(bitb, pending);
        EmptiedStep(o, realloc);
        var c := bitb / 65536 % 256;
        PutChar(c);
        if c == 255 {
          PutChar(0);
        }
        bitb := bitb * 256 % WIDTH;
        bitc := bitc - 8;
        pending := pending[8..];
      }
      EmptiedEnd(View(), realloc);
      EmptiedStart(old(View()), realloc, BitsOf(code, n));
    }
  }

  /** All complete bytes among the pending bits written out. */
  function Emptied(o: Output, realloc: bool): Output {
    PutBytes(o, realloc, Stuff(Pack(o.pending))).(pending := Left(o.pending))
  }

  lemma EmptiedStart(o: Output, realloc: bool, bits: seq<bool>)
    ensures Emptied(o.(pending := o.pending + bits), realloc) == Emit(o, realloc, bits)
  {
    PutBytesPending(o, realloc, Stuff(Pack(o.pending + bits)), o.pending + bits);
  }

  lemma EmptiedEnd(o: Output, realloc: bool)
    requires |o.pending| < 8
    ensures Emptied(o, realloc) == o
  {
  }

  lemma EmptiedStep(o: Output, realloc: bool)
    requires |o.pending| >= 8
    ensures var c := ValueOf(o.pending[..8]);
      c < 256 &&
      var put := PutByte(o, realloc, c);
      Emptied(o, realloc) == Emptied((if c == 255 then PutByte(put, realloc, 0) else put).(pending := o.pending[8..]), realloc)
  {
    hide ValueOf, BitsOf;
    assert Pow2(8) == 256 by { Pow2Values(); }
    hide Pow2;
    var c: byte := ValueOf(o.pending[..8]);
    var first: seq<byte> := if c == 0xFF then [0xFF, 0] else [c];
    var rest := Pack(o.pending[8..]);
    assert Pack(o.pending) == [c] + rest;
    StuffAppend([c], rest);
    assert Stuff([c]) == first;
    PutBytesAppend(o, realloc, first, Stuff(rest));
    TwoBytes(o, realloc, c);
    var after := PutBytes(o, realloc, first);
    PutBytesPending(after, realloc, Stuff(rest), o.pending[8..]);
  }

  lemma TwoBytes(o: Output, realloc: bool, c: byte)
    ensures PutBytes(o, realloc, [c]) == PutByte(o, realloc, c)
    ensures PutBytes(o, realloc, [c, 0]) == PutByte(PutByte(o, realloc, c), realloc, 0)
  {
    assert [c, 0][1..] == [0];
    assert PutBytes(o, realloc, [c, 0]) == PutBytes(PutByte(o, realloc, c), realloc, [0]);
  }
}

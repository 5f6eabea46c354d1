/** The decoder of one block of coefficients: the part of `decodeNextMCU` (picojpeg.c) between the bit
    reader and the inverse transform, after section F.2.2 of ITU-T T.81. */
module JpegDecode {

  import opened Bytes
  import opened JpegBits
  import opened JpegHuffman
  import opened JpegReader
  import opened JpegZigZag
  import opened Options
  import opened Sequences

  /** The value that sixteen bits keep of a number. */
  function W16(v: int): (r: int)
    ensures -32768 <= r < 32768
    ensures -32768 <= v < 32768 ==> r == v
  {
    (v + 32768) % 65536 - 32768
  }

  lemma W16Wraps(v: int, q: int)
    ensures W16(v + 65536 * q) == W16(v)
  {
  }

  /** `huffExtend`: EXTEND of section F.2.2.1 of ITU-T T.81 for sizes up to fifteen. */
  function HuffExtend(x: nat, s: nat): int {
    if 1 <= s <= 15 && x < Pow2(s - 1) then x + (1 - Pow2(s)) else x
  }

  // ----- what the bits mean -----

  /** The number in the next `n` bits. */
  function Extra(s: seq<bool>, n: nat): nat {
    if n == 0 then 0 else ValueOf(Take(s, n))
  }

  function ZeroRun(n: nat): (z: seq<int>)
    ensures |z| == n
  {
    seq(n, _ => 0)
  }

  function DcScan(t: Table, vals: seq<byte>, s: seq<bool>, last: int): (int, seq<bool>)
    requires Formed(t)
  {
    var (y, s1) := DecodeValue(t, vals, s);
    (W16(HuffExtend(Extra(s1, y % 16), y) + last), Drop(s1, y % 16))
  }

  /** The coefficients of the scan behind `acc`, and the bits behind the block; none if a run leaves
      the block. */
  function AcScan(t: Table, vals: seq<byte>, s: seq<bool>, acc: seq<int>): (r: (Option<seq<int>>, seq<bool>))
    requires Formed(t) && |acc| <= 64
    ensures r.0.Some? ==> |r.0.value| == 64
    decreases 64 - |acc|
  {
    if |acc| == 64 then (Some(acc), s)
    else
      var (y, s1) := DecodeValue(t, vals, s);
      var run, size := y / 16, y % 16;
      var rest := Drop(s1, size);
      if size > 0 then
        if |acc| + run > 63 then (None, rest)
        else AcScan(t, vals, rest, acc + ZeroRun(run) + [HuffExtend(Extra(s1, size), size)])
      else if run == 15 then
        if |acc| + 16 > 64 then (None, rest) else AcScan(t, vals, rest, acc + ZeroRun(16))
      else (Some(acc + ZeroRun(64 - |acc|)), rest)
  }

  /** The places of the block that the scan has reached hold the coefficients times their
      quantisation step. */
  predicate Stored(coeff: seq<int>, acc: seq<int>, pQ: seq<int>) {
    |coeff| == 64 && |pQ| == 64 && |acc| <= 64
    && forall k :: 0 <= k < |acc| ==> coeff[Zag(k)] == W16(acc[k] * pQ[k])
  }

  lemma StoreOne(coeff: seq<int>, acc: seq<int>, pQ: seq<int>, v: int)
    requires Stored(coeff, acc, pQ) && |acc| < 64
    ensures Stored(coeff[Zag(|acc|) := W16(v * pQ[|acc|])], acc + [v], pQ)
  {
    hide Zag, ZigZag, W16;
    ZigZagInverse(|acc|);
    forall k | 0 <= k < |acc| ensures Zag(k) != Zag(|acc|) { ZigZagInverse(k); }
  }

  lemma ZeroRunStep(n: nat)
    ensures ZeroRun(n + 1) == ZeroRun(n) + [0]
  {
  }

  /** A loop that writes zeros in the order of the scan. */
  method StoreZeros(coeff: array<int>, k0: nat, n: nat, pQ: seq<int>, ghost acc: seq<int>) returns (k: nat)
    requires |acc| == k0 && k0 + n <= 64 && Stored(coeff[..], acc, pQ)
    modifies coeff
    ensures k == k0 + n && Stored(coeff[..], acc + ZeroRun(n), pQ)
  {
    hide Stored, Zag;
    assert coeff.Length == 64 by { StoredLength(coeff[..], acc, pQ); }
    k := k0;
    var r := n;
    assert acc + ZeroRun(0) == acc;
    while r > 0
      invariant 0 <= r <= n && k == k0 + n - r && Stored(coeff[..], acc + ZeroRun(n - r), pQ)
    {
      StoreZero(coeff[..], acc, n - r, pQ);
      coeff[Zag(k)] := 0;
      k := k + 1;
      r := r - 1;
    }
  }

  /** A run of zeros and the coefficient behind it; `k` stays on the coefficient. */
  method StoreRun(coeff: array<int>, k0: nat, r: nat, ac: int, pQ: seq<int>, ghost acc: seq<int>) returns (k: nat)
    requires |acc| == k0 && k0 + r < 64 && Stored(coeff[..], acc, pQ)
    modifies coeff
    ensures k == k0 + r && Stored(coeff[..], acc + ZeroRun(r) + [ac], pQ)
  {
    hide Stored, Zag, W16;
    StoredLength(coeff[..], acc, pQ);
    k := StoreZeros(coeff, k0, r, pQ, acc);
    StoreOne(coeff[..], acc + ZeroRun(r), pQ, ac);
    coeff[Zag(k)] := W16(ac * pQ[k]);
  }

  lemma StoredLength(coeff: seq<int>, acc: seq<int>, pQ: seq<int>)
    requires Stored(coeff, acc, pQ)
    ensures |coeff| == 64 && |pQ| == 64
  {
  }

  lemma StoreZero(coeff: seq<int>, acc: seq<int>, n: nat, pQ: seq<int>)
    requires Stored(coeff, acc + ZeroRun(n), pQ) && |acc| + n < 64
    ensures |coeff| == 64 && Stored(coeff[Zag(|acc| + n) := 0], acc + ZeroRun(n + 1), pQ)
  {
    hide Zag;
    StoredLength(coeff, acc + ZeroRun(n), pQ);
    StoreOne(coeff, acc + ZeroRun(n), pQ, 0);
    ZeroRunStep(n);
    assert acc + ZeroRun(n) + [0] == acc + ZeroRun(n + 1);
    assert 0 * pQ[|acc| + n] == 0;
  }

  // ----- the program -----

  /** A loaded Huffman table: its rows, its values, and the counts it was made from. */
  datatype Loaded = Loaded(table: HuffTable, vals: seq<byte>, bits: seq<byte>)

  ghost predicate IsLoaded(l: Loaded)
    requires l.table.Valid()
    reads l.table.minCode, l.table.maxCode, l.table.valPtr
  {
    && Fits(l.bits) && IsTable(l.table.View(), l.bits) && |l.vals| >= Ptr(l.bits, 16)
  }

  /** A symbol and the additional bits behind it. */
  method ReadSymbol(reader: Reader, l: Loaded) returns (y: byte, extra: nat)
    requires reader.Valid() && l.table.Valid() && reader.Apart(l.table) && IsLoaded(l)
    modifies reader, reader.inBuf
    ensures reader.Valid() && l.table.Valid() && IsLoaded(l) && l.table.View() == old(l.table.View())
    ensures var (v, s1) := DecodeValue(l.table.View(), l.vals, old(reader.Stream()));
      y == v && extra == Extra(s1, y % 16) && reader.Stream() == Drop(s1, y % 16)
  {
    hide Fits, IsTable, Ptr, DecodeValue, Take, ValueOf, Canon;
    y := reader.HuffDecode(l.table, l.vals, l.bits);
    extra := 0;
    DropNothing(reader.Stream());
    if y % 16 != 0 {
      extra := reader.GetBits(y % 16);
    }
  }

  lemma DropNothing(s: seq<bool>)
    ensures Drop(s, 0) == s
  {
  }

  ghost predicate Separate(reader: Reader, coeff: array<int>, l: Loaded) {
    coeff as object !in {reader.inBuf as object, l.table.minCode as object, l.table.maxCode as object, l.table.valPtr as object}
  }

  lemma AcStep(t: Table, vals: seq<byte>, s: seq<bool>, acc: seq<int>)
    requires Formed(t) && |acc| < 64
    ensures var (y, s1) := DecodeValue(t, vals, s);
      var run, size := y / 16, y % 16;
      var rest := Drop(s1, size);
      && (size > 0 && |acc| + run > 63 ==> AcScan(t, vals, s, acc) == (None, rest))
      && (size > 0 && |acc| + run <= 63 ==> AcScan(t, vals, s, acc) == AcScan(t, vals, rest, acc + ZeroRun(run) + [HuffExtend(Extra(s1, size), size)]))
      && (size == 0 && run == 15 && |acc| + 16 > 64 ==> AcScan(t, vals, s, acc) == (None, rest))
      && (size == 0 && run == 15 && |acc| + 16 <= 64 ==> AcScan(t, vals, s, acc) == AcScan(t, vals, rest, acc + ZeroRun(16)))
      && (size == 0 && run != 15 ==> AcScan(t, vals, s, acc) == (Some(acc + ZeroRun(64 - |acc|)), rest))
  {
  }

  lemma AcFull(t: Table, vals: seq<byte>, s: seq<bool>, acc: seq<int>)
    requires Formed(t) && |acc| == 64
    ensures AcScan(t, vals, s, acc) == (Some(acc + ZeroRun(0)), s)
  {
    assert acc + ZeroRun(0) == acc;
  }

  method DecodeAc(reader: Reader, l: Loaded, pQ: seq<int>, coeff: array<int>, ghost dc: int) returns (ok: bool)
    requires reader.Valid() && l.table.Valid() && reader.Apart(l.table) && IsLoaded(l) && Separate(reader, coeff, l) && Stored(coeff[..], [dc], pQ)
    modifies reader, reader.inBuf, coeff
    ensures reader.Valid() && l.table.Valid() && IsLoaded(l) && l.table.View() == old(l.table.View())
    ensures var (raw, rest) := AcScan(l.table.View(), l.vals, old(reader.Stream()), [dc]);
      reader.Stream() == rest && ok == raw.Some? && (ok ==> Stored(coeff[..], raw.value, pQ))
  {
    hide Fits, IsTable, Ptr, DecodeValue, Extra, Stored, AcScan, HuffExtend, Drop, W16, Zag, IsLoaded;
    hide Reader.Valid, Reader.Stream, HuffTable.View;
    ghost var t, s := l.table.View(), reader.Stream();
    ghost var acc := [dc];
    StoredLength(coeff[..], acc, pQ);
    var k: nat := 1;
    while k < 64
      invariant reader.Valid() && l.table.Valid() && IsLoaded(l) && l.table.View() == t
      invariant k == |acc| <= 64 && Stored(coeff[..], acc, pQ)
      invariant AcScan(t, l.vals, reader.Stream(), acc) == AcScan(t, l.vals, s, [dc])
      decreases 64 - k
    {
      AcStep(t, l.vals, reader.Stream(), acc);
      var y, extra := ReadSymbol(reader, l);
      var r, size := y / 16, y % 16;
      if size != 0 {
        if r != 0 && k + r > 63 {
          return false;
        }
        var ac := HuffExtend(extra, size);
        k := StoreRun(coeff, k, r, ac, pQ, acc);
        acc := acc + ZeroRun(r) + [ac];
      } else {
        if r == 15 {
          if k + 16 > 64 {
            return false;
          }
          k := StoreZeros(coeff, k, 16, pQ, acc);
          acc := acc + ZeroRun(16);
          k := k - 1;
        } else {
          break;
        }
      }
      k := k + 1;
    }
    if k == 64 {
      AcFull(t, l.vals, reader.Stream(), acc);
    }
    k := StoreZeros(coeff, k, 64 - k, pQ, acc);
    return true;
  }

  // ----- a whole block -----

  /** The coefficients of a block in the order of the scan, the first one with its prediction. */
  function BlockScan(dc: Table, dcVals: seq<byte>, ac: Table, acVals: seq<byte>, s: seq<bool>, last: int): (r: (Option<seq<int>>, seq<bool>))
    requires Formed(dc) && Formed(ac)
    ensures r.0.Some? ==> |r.0.value| == 64
  {
    var (first, s1) := DcScan(dc, dcVals, s, last);
    AcScan(ac, acVals, s1, [first])
  }

  ghost predicate TablesOk(dc: Loaded, ac: Loaded)
    reads dc.table.minCode, dc.table.maxCode, dc.table.valPtr, ac.table.minCode, ac.table.maxCode, ac.table.valPtr
  {
    dc.table.Valid() && ac.table.Valid() && IsLoaded(dc) && IsLoaded(ac)
  }

  /** `gCoeffBuf` and `gLastDC` share no memory with the reader and the tables. */
  ghost predicate BuffersOk(reader: Reader, dc: Loaded, ac: Loaded, lastDC: array<int>, coeff: array<int>) {
    && dc.table.Valid() && ac.table.Valid() && reader.Apart(dc.table) && reader.Apart(ac.table)
    && Separate(reader, coeff, dc) && Separate(reader, coeff, ac)
    && Separate(reader, lastDC, dc) && Separate(reader, lastDC, ac)
    && lastDC != coeff && coeff.Length == 64
  }

  /** The decoder's part of one block. All 64 places are written unless a run leaves the block. */
  method DecodeBlock(reader: Reader, dc: Loaded, ac: Loaded, lastDC: array<int>, c: nat, pQ: seq<int>, coeff: array<int>) returns (ok: bool)
    requires reader.Valid() && TablesOk(dc, ac) && BuffersOk(reader, dc, ac, lastDC, coeff)
    requires c < lastDC.Length && |pQ| == 64
    modifies reader, reader.inBuf, lastDC, coeff
    ensures reader.Valid() && TablesOk(dc, ac)
    ensures dc.table.View() == old(dc.table.View()) && ac.table.View() == old(ac.table.View())
    ensures var (raw, rest) := BlockScan(dc.table.View(), dc.vals, ac.table.View(), ac.vals, old(reader.Stream()), old(lastDC[c]));
      && reader.Stream() == rest && ok == raw.Some?
      && (ok ==> forall k :: 0 <= k < 64 ==> coeff[Zag(k)] == coeff[PathPlace(k)] == W16(raw.value[k] * pQ[k]))
    ensures lastDC[..] == old(lastDC[..])[c := DcScan(dc.table.View(), dc.vals, old(reader.Stream()), old(lastDC[c])).0]
  {
    hide Fits, IsTable, Ptr, DecodeValue, Extra, Drop, W16, Zag, IsLoaded, HuffExtend, AcScan, OnPath;
    hide Reader.Valid, Reader.Stream, HuffTable.View;
    ghost var last, t := lastDC[c], dc.table.View();
    var s, r := ReadSymbol(reader, dc);
    ghost var e := HuffExtend(r, s) + last;
    var d: word := (HuffExtend(r, s) + lastDC[c]) % 65536;
    SixteenBits(e, pQ[0]);
    lastDC[c] := W16(d);
    coeff[Zag(0)] := W16(d * pQ[0]);
    ok := DecodeAc(reader, ac, pQ, coeff, W16(d));
    forall k | 0 <= k < 64 ensures Zag(k) == PathPlace(k) { TablesFollowPath(k); }
  }

  /** Reducing to sixteen bits early makes no difference. */
  lemma SixteenBits(e: int, p: int)
    ensures W16(e % 65536) == W16(e) && W16(e % 65536 * p) == W16(W16(e) * p)
  {
    var q := e / 65536;
    assert e == e % 65536 + 65536 * q;
    W16Wraps(e % 65536, q);
    var d := (W16(e) - e % 65536) / 65536;
    assert W16(e) == e % 65536 + 65536 * d;
    TimesSum(e % 65536, d, p);
    W16Wraps(e % 65536 * p, d * p);
  }

  lemma TimesSum(a: int, d: int, p: int)
    ensures (a + 65536 * d) * p == a * p + 65536 * (d * p)
  {
  }
}

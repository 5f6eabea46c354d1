/** What the encoder writes is what the decoder reads: symbols, runs, blocks. */
module JpegRoundTrip {

  import opened Bytes
  import opened JpegBits
  import opened JpegHuffman
  import opened JpegReader
  import opened JpegEncode
  import opened JpegDecode
  import opened Options
  import opened Sequences

  // ----- the tables of the two programs belong together -----

  /** The encoder's entry for `y` is the canonical code of a value `y` of the decoder's table. */
  ghost predicate Coded(ht: seq<Entry>, bits: seq<byte>, vals: seq<byte>, y: nat)
    requires Fits(bits)
  {
    EntryOk(ht, y) && exists k: nat :: k < |vals| && k < Ptr(bits, 16) && vals[k] == y && Code(bits, k) == Symbol(ht, y)
  }

  ghost predicate DcCoded(ht: seq<Entry>, bits: seq<byte>, vals: seq<byte>)
    requires Fits(bits)
  {
    |ht| == 12 && forall y :: 0 <= y < 12 ==> Coded(ht, bits, vals, y)
  }

  ghost predicate AcCoded(ht: seq<Entry>, bits: seq<byte>, vals: seq<byte>)
    requires Fits(bits)
  {
    && |ht| == 256 && Coded(ht, bits, vals, 0x00) && Coded(ht, bits, vals, 0xF0)
    && forall run, size :: 0 <= run < 16 && 1 <= size <= 10 ==> Coded(ht, bits, vals, RunSize(run, size))
  }

  /** Everything the round trip needs of one decoder table. */
  ghost predicate Usable(t: Table, bits: seq<byte>) {
    Fits(bits) && IsTable(t, bits) && NoOnes(bits)
  }

  lemma SymbolDecodes(ht: seq<Entry>, t: Table, bits: seq<byte>, vals: seq<byte>, y: nat, rest: seq<bool>)
    requires Usable(t, bits) && Coded(ht, bits, vals, y)
    ensures DecodeValue(t, vals, Canon(Symbol(ht, y) + rest)) == (y, Canon(rest))
  {
    hide Fits, IsTable, Ptr, Decode, Canon, Code, Symbol;
    FirstStep(bits);
    var k: nat :| k < |vals| && k < Ptr(bits, 16) && vals[k] == y && Code(bits, k) == Symbol(ht, y);
    DecodeCode(t, bits, k, rest);
  }

  // ----- magnitudes -----

  /** EXTEND undoes the encoder's additional bits. */
  lemma ExtendLow(val: int)
    requires val != 0 && Size(Abs(val)) <= 15
    ensures HuffExtend(Low(val), Size(Abs(val))) == val
  {
    hide Size, Pow2;
    var n := Size(Abs(val));
    assert Pow2(n) == 2 * Pow2(n - 1) by { Pow2Add(1, n - 1); Pow2Values(); }
  }

  lemma MagnitudeDecodes(val: int, rest: seq<bool>)
    requires val != 0 && Size(Abs(val)) <= 15
    ensures var s := Canon(Magnitude(val) + rest);
      var n := Size(Abs(val));
      n >= 1 && HuffExtend(Extra(s, n), n) == val && Drop(s, n) == Canon(rest)
  {
    hide Size, Pow2, Low, HuffExtend, BitsOf, ValueOf, Canon, Drop, Take;
    var n := Size(Abs(val));
    TakeConcat(Magnitude(val), rest);
    CanonDropConcat(Magnitude(val), rest);
    ValueOfBits(Low(val), n);
    ExtendLow(val);
  }

  // ----- runs -----

  lemma {:induction false} SixteenZerosDecode(ht: seq<Entry>, t: Table, bits: seq<byte>, vals: seq<byte>, n: nat, rest: seq<bool>, acc: seq<int>)
    requires Usable(t, bits) && Coded(ht, bits, vals, 0xF0) && |acc| + 16 * n <= 63
    ensures AcScan(t, vals, Canon(SixteenZeros(ht, n) + rest), acc) == AcScan(t, vals, Canon(rest), acc + ZeroRun(16 * n))
    decreases n
  {
    hide Fits, IsTable, Canon, Coded, AcScan, Symbol, DecodeValue;
    TableFormed(t, bits);
    assert EntryOk(ht, 0xF0) by { IsCoded(ht, bits, vals, 0xF0); }
    if n == 0 {
      assert SixteenZeros(ht, 0) + rest == rest && acc + ZeroRun(0) == acc;
    } else {
      var after := SixteenZeros(ht, n - 1) + rest;
      Associative(Symbol(ht, 0xF0), SixteenZeros(ht, n - 1), rest);
      SymbolDecodes(ht, t, bits, vals, 0xF0, after);
      AcStep(t, vals, Canon(Symbol(ht, 0xF0) + after), acc);
      DropNothing(Canon(after));
      SixteenZerosDecode(ht, t, bits, vals, n - 1, rest, acc + ZeroRun(16));
      assert acc + ZeroRun(16) + ZeroRun(16 * (n - 1)) == acc + ZeroRun(16 * n);
    }
  }

  lemma IsCoded(ht: seq<Entry>, bits: seq<byte>, vals: seq<byte>, y: nat)
    requires Fits(bits) && Coded(ht, bits, vals, y)
    ensures EntryOk(ht, y)
  {
  }

  lemma TableFormed(t: Table, bits: seq<byte>)
    requires Usable(t, bits)
    ensures Formed(t) && Counts(bits)
  {
  }

  lemma TablesCoded(ht: seq<Entry>, bits: seq<byte>, vals: seq<byte>)
    requires Fits(bits)
    ensures DcCoded(ht, bits, vals) ==> DcTable(ht)
    ensures AcCoded(ht, bits, vals) ==> AcTable(ht)
  {
    hide Fits;
    forall y: nat | Coded(ht, bits, vals, y) ensures EntryOk(ht, y) { IsCoded(ht, bits, vals, y); }
  }

  lemma CoefficientDecodes(ht: seq<Entry>, t: Table, bits: seq<byte>, vals: seq<byte>, run: nat, val: int, rest: seq<bool>, acc: seq<int>)
    requires Usable(t, bits) && val != 0 && 1 <= Size(Abs(val)) <= 10 && run < 16 && |acc| + run <= 63
    requires Coded(ht, bits, vals, RunSize(run, Size(Abs(val))))
    ensures AcScan(t, vals, Canon(Symbol(ht, RunSize(run, Size(Abs(val)))) + Magnitude(val) + rest), acc)
         == AcScan(t, vals, Canon(rest), acc + ZeroRun(run) + [val])
  {
    hide Fits, IsTable, Canon, Coded, AcScan, Symbol, DecodeValue, Magnitude, Size, Low, Extra, HuffExtend, Drop;
    TableFormed(t, bits);
    var y := RunSize(run, Size(Abs(val)));
    IsCoded(ht, bits, vals, y);
    Associative(Symbol(ht, y), Magnitude(val), rest);
    MagnitudeDecodes(val, rest);
    SymbolDecodes(ht, t, bits, vals, y, Magnitude(val) + rest);
    AcStep(t, vals, Canon(Symbol(ht, y) + (Magnitude(val) + rest)), acc);
  }

  /** A run of zeros and the coefficient behind it come back. */
  lemma RunDecodes(ht: seq<Entry>, t: Table, bits: seq<byte>, vals: seq<byte>, zeros: nat, val: int, rest: seq<bool>, acc: seq<int>)
    requires Usable(t, bits) && AcCoded(ht, bits, vals) && AcTable(ht)
    requires val != 0 && Small(val, 10) && |acc| + zeros <= 63
    ensures AcScan(t, vals, Canon(RunBits(zeros, val, ht) + rest), acc) == AcScan(t, vals, Canon(rest), acc + ZeroRun(zeros) + [val])
  {
    hide Fits, IsTable, Canon, Coded, AcScan, Symbol, SixteenZeros, Magnitude, Pow2, Size, NoOnes;
    TableFormed(t, bits);
    var n, size := zeros / 16, Size(Abs(val));
    SizeSmall(Abs(val), 10);
    var y := RunSize(zeros % 16, size);
    var last := Symbol(ht, y) + Magnitude(val) + rest;
    Reassociate(SixteenZeros(ht, n), Symbol(ht, y), Magnitude(val), rest);
    SixteenZerosDecode(ht, t, bits, vals, n, last, acc);
    assert Coded(ht, bits, vals, y);
    CoefficientDecodes(ht, t, bits, vals, zeros % 16, val, rest, acc + ZeroRun(16 * n));
    assert acc + ZeroRun(16 * n) + ZeroRun(zeros % 16) == acc + ZeroRun(zeros);
  }

  lemma Reassociate(a: seq<bool>, b: seq<bool>, c: seq<bool>, d: seq<bool>)
    ensures a + b + c + d == a + (b + c + d)
  {
  }

  // ----- blocks -----

  lemma EndDecodes(ht: seq<Entry>, t: Table, bits: seq<byte>, vals: seq<byte>, rest: seq<bool>, acc: seq<int>)
    requires Usable(t, bits) && Coded(ht, bits, vals, 0x00) && |acc| < 64
    ensures AcScan(t, vals, Canon(Symbol(ht, 0x00) + rest), acc) == (Some(acc + ZeroRun(64 - |acc|)), Canon(rest))
  {
    hide Fits, IsTable, Canon, Coded, AcScan, Symbol, DecodeValue;
    TableFormed(t, bits);
    IsCoded(ht, bits, vals, 0x00);
    SymbolDecodes(ht, t, bits, vals, 0x00, rest);
    AcStep(t, vals, Canon(Symbol(ht, 0x00) + rest), acc);
    DropNothing(Canon(rest));
  }

  /** The coefficients from `i` on come back, and the end of the block is where it was. */
  lemma {:induction false} AcDecodes(duq: seq<int>, i: nat, end0pos: nat, ht: seq<Entry>, t: Table, bits: seq<byte>, vals: seq<byte>, rest: seq<bool>)
    requires Usable(t, bits) && AcCoded(ht, bits, vals) && AcTable(ht)
    requires IsEnd(duq, end0pos) && AcSmall(duq) && 1 <= i <= end0pos + 1
    ensures AcScan(t, vals, Canon(AcBits(duq, i, end0pos, ht) + rest), duq[..i]) == (Some(duq), Canon(rest))
    decreases end0pos + 1 - i
  {
    hide Fits, IsTable, Canon, Coded, AcScan, Symbol, RunBits, NoOnes, Small;
    TableFormed(t, bits);
    if i > end0pos {
      assert duq[..i] + ZeroRun(64 - i) == duq;
      if end0pos != 63 {
        EndDecodes(ht, t, bits, vals, rest, duq[..i]);
      } else {
        assert [] + rest == rest;
        AcFull(t, vals, Canon(rest), duq[..i]);
      }
    } else {
      var j := NextNonZero(duq, i, end0pos);
      Associative(RunBits(j - i, duq[j], ht), AcBits(duq, j + 1, end0pos, ht), rest);
      RunDecodes(ht, t, bits, vals, j - i, duq[j], AcBits(duq, j + 1, end0pos, ht) + rest, duq[..i]);
      assert duq[..i] + ZeroRun(j - i) + [duq[j]] == duq[..j + 1];
      AcDecodes(duq, j + 1, end0pos, ht, t, bits, vals, rest);
    }
  }

  lemma DcDecodes(diff: int, last: int, ht: seq<Entry>, t: Table, bits: seq<byte>, vals: seq<byte>, rest: seq<bool>)
    requires Usable(t, bits) && DcCoded(ht, bits, vals) && DcTable(ht) && Small(diff, 11)
    ensures DcScan(t, vals, Canon(DcBits(diff, ht) + rest), last) == (W16(diff + last), Canon(rest))
  {
    hide Fits, IsTable, Canon, Symbol, DecodeValue, Magnitude, Size, Low, Coded, NoOnes, W16, Pow2, Extra, HuffExtend, Drop;
    TableFormed(t, bits);
    if diff == 0 {
      SymbolDecodes(ht, t, bits, vals, 0, rest);
      DropNothing(Canon(rest));
      assert HuffExtend(Extra(Canon(rest), 0), 0) == 0 by { ExtendNothing(Canon(rest)); }
    } else {
      var n := Size(Abs(diff));
      SizeSmall(Abs(diff), 11);
      MagnitudeDecodes(diff, rest);
      Associative(Symbol(ht, n), Magnitude(diff), rest);
      SymbolDecodes(ht, t, bits, vals, n, Magnitude(diff) + rest);
    }
  }

  lemma ExtendNothing(s: seq<bool>)
    ensures HuffExtend(Extra(s, 0), 0) == 0
  {
  }

  /** Decoding the bits of a block gives its 64 coefficients, and leaves what follows. */
  lemma BlockDecodes(duq: seq<int>, end0pos: nat, last: int, htdc: seq<Entry>, htac: seq<Entry>,
                     dc: Table, dcBits: seq<byte>, dcVals: seq<byte>, ac: Table, acBits: seq<byte>, acVals: seq<byte>, rest: seq<bool>)
    requires Usable(dc, dcBits) && DcCoded(htdc, dcBits, dcVals) && DcTable(htdc)
    requires Usable(ac, acBits) && AcCoded(htac, acBits, acVals) && AcTable(htac)
    requires IsEnd(duq, end0pos) && AcSmall(duq) && Small(duq[0] - last, 11) && W16(duq[0]) == duq[0]
    ensures Formed(dc) && Formed(ac)
    ensures DcScan(dc, dcVals, Canon(BlockBits(duq, end0pos, last, htdc, htac) + rest), last).0 == duq[0]
    ensures BlockScan(dc, dcVals, ac, acVals, Canon(BlockBits(duq, end0pos, last, htdc, htac) + rest), last) == (Some(duq), Canon(rest))
  {
    hide Usable, Canon, DcCoded, AcCoded, AcScan, DcScan, AcBits, DcBits, W16, Small;
    TableFormed(dc, dcBits);
    TableFormed(ac, acBits);
    var d, a := DcBits(duq[0] - last, htdc), AcBits(duq, 1, end0pos, htac);
    Associative(d, a, rest);
    DcDecodes(duq[0] - last, last, htdc, dc, dcBits, dcVals, a + rest);
    AcDecodes(duq, 1, end0pos, htac, ac, acBits, acVals, rest);
    assert duq[..1] == [duq[0]];
  }
}

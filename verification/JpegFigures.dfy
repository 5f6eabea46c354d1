/** The entropy coder once more as the procedures of ITU-T T.81 give it, coefficient by coefficient: additional bits
    (section F.1.2.1.1), the run loop of Figure F.2, the order of bits and bytes, and one scan worked out by hand. */
module JpegFigures {

  import opened Bytes
  import opened JpegBits
  import opened JpegEncode
  import opened JpegScan
  import opened JpegTables
  import opened JpegZigZag
  import opened Sequences

  // ----- bits -----

  /** The most significant bit comes first. */
  lemma {:induction false} BitsFromTheLeft(v: nat, n: nat, i: nat)
    requires i < n
    ensures BitsOf(v, n)[i] == (v / Pow2(n - 1 - i) % 2 == 1)
    decreases n
  {
    if i < n - 1 {
      BitsFromTheLeft(v / 2, n - 1, i);
      assert Pow2(n - 1 - i) == 2 * Pow2(n - 2 - i);
      HalfOf(v, Pow2(n - 2 - i), Pow2(n - 1 - i));
    }
  }

  lemma HalfOf(v: nat, p: nat, d: nat)
    requires p > 0 && d == 2 * p
    ensures v / 2 / p == v / d
  {
    var h := v / 2;
    var q, r := h / p, h % p;
    DivMod(h, p);
    TwiceOf(q, p);
    DivideBack(q, d, 2 * r + v % 2);
  }

  lemma TwiceOf(q: nat, p: nat)
    ensures q * (2 * p) == 2 * (q * p)
  {
  }

  /** A positive value is written as it is, in as many bits as it has; a negative one as the bits of its absolute value,
      each of them inverted. */
  lemma AdditionalBits(val: int)
    requires val != 0
    ensures var n := |Magnitude(val)|;
      && n >= 1 && Pow2(n - 1) <= Abs(val) < Pow2(n)
      && (val > 0 ==> Magnitude(val) == BitsOf(val, n))
      && (val < 0 ==> Magnitude(val) == Inverted(BitsOf(-val, n)))
  {
    hide Size, Pow2, BitsOf;
    if val < 0 { Complement(-val, Size(-val)); }
  }

  function Inverted(bits: seq<bool>): (r: seq<bool>)
    ensures |r| == |bits|
  {
    seq(|bits|, i requires 0 <= i < |bits| => !bits[i])
  }

  lemma {:induction false} Complement(v: nat, n: nat)
    requires v < Pow2(n)
    ensures BitsOf(Pow2(n) - 1 - v, n) == Inverted(BitsOf(v, n))
    decreases n
  {
    if n > 0 {
      Complement(v / 2, n - 1);
      assert (Pow2(n) - 1 - v) / 2 == Pow2(n - 1) - 1 - v / 2;
      assert (Pow2(n) - 1 - v) % 2 == 1 - v % 2;
      var a, b := BitsOf(v / 2, n - 1), Inverted(BitsOf(v / 2, n - 1));
      assert Inverted(a + [v % 2 == 1]) == b + [v % 2 != 1];
    }
  }

  // ----- Figure F.2 -----

  /** R zeros in front of the coefficient `v`: a symbol 0xF0 for sixteen of them as long as there are more than fifteen,
      then the symbol of the run and the size, then the additional bits. */
  function CoefficientBits(r: nat, v: int, ht: seq<Entry>): seq<bool>
    requires AcTable(ht) && v != 0 && Small(v, 10)
  {
    SizeSmall(Abs(v), 10);
    if r > 15 then Symbol(ht, 0xF0) + CoefficientBits(r - 16, v, ht)
    else
      assert EntryOk(ht, RunSize(r, Size(Abs(v))));
      Symbol(ht, r * 16 + Size(Abs(v))) + Magnitude(v)
  }

  /** The coefficients from K on behind R zeros; if the last one is a zero, too, the symbol 0x00 ends the block. */
  function FigureF2(zz: seq<int>, k: nat, r: nat, ht: seq<Entry>): seq<bool>
    requires Block(zz) && AcSmall(zz) && AcTable(ht) && 1 <= k <= 64
    decreases 64 - k
  {
    if k == 64 then (if r > 0 then Symbol(ht, 0x00) else [])
    else if zz[k] == 0 then FigureF2(zz, k + 1, r + 1, ht)
    else CoefficientBits(r, zz[k], ht) + FigureF2(zz, k + 1, 0, ht)
  }

  lemma {:induction false} RunIsCoefficient(r: nat, v: int, ht: seq<Entry>)
    requires AcTable(ht) && v != 0 && Small(v, 10)
    ensures RunBits(r, v, ht) == CoefficientBits(r, v, ht)
    decreases r
  {
    hide AcTable, Size, Symbol, Magnitude;
    RunBitsIs(r, v, ht);
    if r > 15 {
      RunBitsIs(r - 16, v, ht);
      RunIsCoefficient(r - 16, v, ht);
      assert r / 16 == (r - 16) / 16 + 1 && r % 16 == (r - 16) % 16;
      Associative(Symbol(ht, 0xF0), SixteenZeros(ht, (r - 16) / 16), RunEnd(r, v, ht));
    } else {
      assert r / 16 == 0 && r % 16 == r;
      assert [] + RunEnd(r, v, ht) == RunEnd(r, v, ht);
    }
  }

  function RunEnd(r: nat, v: int, ht: seq<Entry>): seq<bool>
    requires AcTable(ht) && v != 0 && Small(v, 10)
  {
    SizeSmall(Abs(v), 10);
    assert EntryOk(ht, RunSize(r % 16, Size(Abs(v))));
    Symbol(ht, r % 16 * 16 + Size(Abs(v))) + Magnitude(v)
  }

  lemma RunBitsIs(r: nat, v: int, ht: seq<Entry>)
    requires AcTable(ht) && v != 0 && Small(v, 10)
    ensures EntryOk(ht, 0xF0) && RunBits(r, v, ht) == SixteenZeros(ht, r / 16) + RunEnd(r, v, ht)
  {
    hide Size, Symbol, Magnitude, SixteenZeros;
    SizeSmall(Abs(v), 10);
    assert EntryOk(ht, RunSize(r % 16, Size(Abs(v))));
    Associative(SixteenZeros(ht, r / 16), Symbol(ht, RunSize(r % 16, Size(Abs(v)))), Magnitude(v));
  }

  /** From the place `k` behind the run that began at `i`. */
  lemma {:induction false} AcIsFigureF2(zz: seq<int>, i: nat, k: nat, end0pos: nat, ht: seq<Entry>)
    requires IsEnd(zz, end0pos) && AcSmall(zz) && AcTable(ht) && 1 <= i <= end0pos + 1 && i <= k <= 64
    requires forall j :: i <= j < k ==> zz[j] == 0
    ensures FigureF2(zz, k, k - i, ht) == AcBits(zz, i, end0pos, ht)
    decreases 64 - k
  {
    hide AcTable, AcSmall, RunBits, CoefficientBits, Symbol;
    if k == 64 {
      assert i == end0pos + 1;
    } else if zz[k] == 0 {
      AcIsFigureF2(zz, i, k + 1, end0pos, ht);
    } else {
      assert k <= end0pos;
      NextIs(zz, i, k, end0pos);
      AcIsFigureF2(zz, k + 1, k + 1, end0pos, ht);
      SmallAt(zz, k);
      RunIsCoefficient(k - i, zz[k], ht);
    }
  }

  lemma SmallAt(zz: seq<int>, k: nat)
    requires Block(zz) && AcSmall(zz) && 1 <= k < 64
    ensures Small(zz[k], 10)
  {
  }

  lemma {:induction false} NextIs(zz: seq<int>, i: nat, k: nat, end0pos: nat)
    requires IsEnd(zz, end0pos) && i <= k <= end0pos && end0pos > 0 && zz[k] != 0 && forall j :: i <= j < k ==> zz[j] == 0
    ensures NextNonZero(zz, i, end0pos) == k
  {
  }

  // ----- a block -----

  /** The coefficients along the path of Figure A.6. */
  function AlongPath(q: seq<int>): (zz: seq<int>)
    requires Block(q)
    ensures Block(zz)
  {
    seq(64, k requires 0 <= k < 64 => q[PathPlace(k)])
  }

  lemma InScanIsAlongPath(q: seq<int>)
    requires Block(q)
    ensures InScan(q) == AlongPath(q)
  {
    hide Zag, PathPlace;
    ScanFollowsPath(q);
  }

  /** The code of a block: the difference of its first coefficient from the one before in the component, and the others
      as in Figure F.2; component 0 with the luminance tables. */
  lemma UnitAsInStandard(u: Unit, last: seq<int>)
    requires UnitOk(u, last)
    ensures var zz, diff := AlongPath(u.q), u.q[0] - last[u.component];
      var dc, ac := Entries(if u.component == 0 then LumaDc else ChromaDc), Entries(if u.component == 0 then LumaAc else ChromaAc);
      && AcSmall(zz) && DcTable(dc) && AcTable(ac) && Small(diff, 11)
      && UnitBits(u, last) == (if diff == 0 then Symbol(dc, 0) else DcSymbol(diff, dc) + Magnitude(diff)) + FigureF2(zz, 1, 0, ac)
  {
    hide *;
    UnitIs(u, last);
    var zz, diff := AlongPath(u.q), u.q[0] - last[u.component];
    InScanIsAlongPath(u.q);
    AcIsFigureF2(zz, 1, 1, EndOf(zz), Entries(AcOf(u.component)));
    if diff != 0 { DcBitsIs(diff, Entries(DcOf(u.component))); }
  }

  lemma UnitIs(u: Unit, last: seq<int>)
    requires UnitOk(u, last)
    ensures |last| == 3 && u.component < 3 && Block(u.q) && |u.q| == 64
    ensures DcOf(u.component) == (if u.component == 0 then LumaDc else ChromaDc) && AcOf(u.component) == (if u.component == 0 then LumaAc else ChromaAc)
    ensures var zz, diff, dc, ac := InScan(u.q), u.q[0] - last[u.component], Entries(DcOf(u.component)), Entries(AcOf(u.component));
      && AcSmall(zz) && IsEnd(zz, EndOf(zz)) && EndOf(zz) < 64 && DcTable(dc) && AcTable(ac) && Small(diff, 11)
      && EntryOk(dc, 0) && UnitBits(u, last) == DcBits(diff, dc) + AcBits(zz, 1, EndOf(zz), ac)
      && (diff == 0 ==> DcBits(diff, dc) == Symbol(dc, 0))
  {
    hide Entries, AcTable, AcSmall, Small, Symbol, Size, Magnitude, AcBits, InScan, EndOf;
    UnitIsBlock(u, last);
  }

  /** The symbol of a difference is the number of its additional bits. */
  function DcSymbol(diff: int, ht: seq<Entry>): seq<bool>
    requires DcTable(ht) && Small(diff, 11) && diff != 0
  {
    SizeSmall(Abs(diff), 11);
    assert |Magnitude(diff)| == Size(Abs(diff));
    Symbol(ht, |Magnitude(diff)|)
  }

  lemma DcBitsIs(diff: int, ht: seq<Entry>)
    requires DcTable(ht) && Small(diff, 11) && diff != 0
    ensures DcBits(diff, ht) == DcSymbol(diff, ht) + Magnitude(diff)
  {
    hide Size, DcTable;
  }

  // ----- bytes -----

  /** In the stuffed data every byte 0xFF is followed by a zero byte, so that there is no marker in it. */
  lemma {:induction false} NoMarker(data: seq<byte>, i: nat)
    requires i < |Stuff(data)| && Stuff(data)[i] == 0xFF
    ensures i + 1 < |Stuff(data)| && Stuff(data)[i + 1] == 0
    decreases |data|
  {
    var h := if data[0] == 0xFF then 2 else 1;
    if i >= h { NoMarker(data[1..], i - h); }
  }

  // ----- a scan worked out by hand -----

  /** A luminance block with a first coefficient of 1, the next one in its row -2, and zeros. */
  function Sample(): (q: seq<int>)
    ensures Block(q)
  {
    seq(64, i => if i == 0 then 1 else if i == 1 then -2 else 0)
  }

  /** Its bits are 010 1 (size 1, value 1), 01 01 (no zeros and size 2, value -2) and 1010 (end of block). */
  lemma SampleCoded()
    ensures ScanOk([Unit(0, Sample())], START)
    ensures ScanBytes([Unit(0, Sample())]) == [0x55, 0xAF, 0xFF, 0xD9]
  {
    hide *;
    SampleOk();
    SampleBits();
    SampleBytes(ScanBits([Unit(0, Sample())], START));
    ScanBytesIs([Unit(0, Sample())]);
  }

  lemma ScanBytesIs(units: seq<Unit>)
    requires ScanOk(units, START)
    ensures ScanBytes(units) == Stuff(Pack(ScanBits(units, START) + Ones(7))) + [0xFF, 0xD9]
  {
  }

  lemma SampleInScan()
    ensures var zz := InScan(Sample()); zz[0] == 1 && zz[1] == -2 && (forall k :: 2 <= k < 64 ==> zz[k] == 0) && IsEnd(zz, 1)
  {
    hide Zag, PathPlace;
    var zz := InScan(Sample());
    assert Zag(0) == 0 && Zag(1) == 1 by { FirstPlaces(); }
    forall k | 2 <= k < 64 ensures zz[k] == 0 {
      ZagZigZag(k);
      FirstPlaces();
    }
  }

  lemma FirstPlaces()
    ensures Zag(0) == 0 && Zag(1) == 1 && ZigZag(0) == 0 && ZigZag(1) == 1
  {
  }

  lemma ZagZigZag(k: nat)
    requires k < 64
    ensures ZigZag(Zag(k)) == k
  {
    ZigZagInverse(k);
  }

  lemma SampleOk()
    ensures ScanOk([Unit(0, Sample())], START) && UnitOk(Unit(0, Sample()), START)
  {
    hide InScan;
    SampleInScan();
    Pow2Values();
    assert [Unit(0, Sample())][1..] == [];
  }

  lemma SampleBits()
    requires ScanOk([Unit(0, Sample())], START) && UnitOk(Unit(0, Sample()), START)
    ensures ScanBits([Unit(0, Sample())], START)
         == [false, true, false, true] + [false, true, false, true] + [true, false, true, false]
  {
    hide *;
    var u := Unit(0, Sample());
    OneUnit(u);
    SampleInScan();
    UnitIs(u, START);
    FirstOfSample();
    assert u.q[0] - START[u.component] == 1;
    SampleAc();
    SampleDc();
    var dc, ac := [false, true, false, true], [true, false, true, false];
    assert dc + (dc + ac) == dc + dc + ac;
  }

  lemma FirstOfSample()
    ensures Sample()[0] == 1 && START[0] == 0
  {
  }

  lemma OneUnit(u: Unit)
    requires ScanOk([u], START) && UnitOk(u, START)
    ensures ScanBits([u], START) == UnitBits(u, START)
  {
    hide UnitBits;
    assert [u][1..] == [];
    assert UnitBits(u, START) + [] == UnitBits(u, START);
  }

  lemma SmallBits()
    ensures BitsOf(1, 1) == [true] && BitsOf(1, 2) == [false, true] && BitsOf(2, 3) == [false, true, false]
    ensures BitsOf(5, 4) == [false, true, false, true] && BitsOf(10, 4) == [true, false, true, false] && BitsOf(15, 4) == [true, true, true, true]
    ensures Size(1) == 1 && Size(2) == 2
  {
    hide BitsOf;
    BitsStep(0, 1);
    BitsStep(1, 1);
    BitsStep(1, 2);
    BitsStep(2, 2);
    BitsStep(3, 2);
    BitsStep(2, 3);
    BitsStep(5, 3);
    BitsStep(7, 3);
    BitsStep(5, 4);
    BitsStep(10, 4);
    BitsStep(15, 4);
  }

  lemma BitsStep(v: nat, n: nat)
    requires n > 0
    ensures BitsOf(v, n) == BitsOf(v / 2, n - 1) + [v % 2 == 1] && BitsOf(v, 0) == [] && BitsOf(v / 2, 0) == []
  {
  }

  lemma SampleDc()
    ensures DcTable(Entries(LumaDc)) && Small(1, 11) && DcBits(1, Entries(LumaDc)) == [false, true, false, true]
  {
    hide *;
    ComponentZero();
    StandardTables(0);
    DcEntryOne();
    DcOfOne(Entries(LumaDc));
  }

  lemma ComponentZero()
    ensures DcOf(0) == LumaDc && AcOf(0) == LumaAc
  {
  }

  lemma DcOfOne(dc: seq<Entry>)
    requires DcTable(dc) && dc[1] == Entry(0x0002, 3)
    ensures Small(1, 11) && DcBits(1, dc) == [false, true, false, true]
  {
    hide BitsOf, Size;
    Pow2Values();
    SmallBits();
    assert DcBits(1, dc) == BitsOf(2, 3) + BitsOf(1, 1);
  }

  lemma DcEntryOne()
    ensures |Entries(LumaDc)| == 12 && Entries(LumaDc)[1] == Entry(0x0002, 3)
  {
  }

  lemma AcEntries()
    ensures Entries(LumaAc)[0x02] == Entry(0x0001, 2) && Entries(LumaAc)[0x00] == Entry(0x000A, 4)
  {
    hide YAcEntry;
    assert Entries(LumaAc)[0x02] == YAcEntry(0x02) && Entries(LumaAc)[0x00] == YAcEntry(0x00);
    assert YAcEntry(0x02) == Entry(0x0001, 2) by { TwoAcEntries(); }
    assert YAcEntry(0x00) == Entry(0x000A, 4) by { TwoAcEntries(); }
  }

  lemma TwoAcEntries()
    ensures YAcEntry(0x02) == Entry(0x0001, 2) && YAcEntry(0x00) == Entry(0x000A, 4)
  {
    assert 0x02 / 16 == 0 && 0x02 % 16 == 2 && 0x00 / 16 == 0 && 0x00 % 16 == 0;
  }

  lemma SampleAc()
    ensures var zz, ac := InScan(Sample()), Entries(LumaAc);
      && AcSmall(zz) && AcTable(ac) && IsEnd(zz, EndOf(zz))
      && AcBits(zz, 1, EndOf(zz), ac) == [false, true, false, true] + [true, false, true, false]
  {
    hide *;
    var zz, ac := InScan(Sample()), Entries(LumaAc);
    SampleInScan();
    SampleOk();
    UnitIs(Unit(0, Sample()), START);
    EndIsUnique(zz, 1, EndOf(zz));
    SampleRun(ac);
    EndAt(zz, ac);
  }

  lemma SampleRun(ac: seq<Entry>)
    requires ac == Entries(LumaAc) && AcTable(ac)
    ensures Small(-2, 10) && RunBits(0, -2, ac) == [false, true, false, true]
    ensures EntryOk(ac, 0x00) && Symbol(ac, 0x00) == [true, false, true, false]
  {
    hide Entries, BitsOf, Size;
    Pow2Values();
    SmallBits();
    AcEntries();
    assert RunBits(0, -2, ac) == [] + BitsOf(1, 2) + BitsOf(1, 2);
  }

  lemma EndAt(zz: seq<int>, ac: seq<Entry>)
    requires Block(zz) && IsEnd(zz, 1) && AcSmall(zz) && AcTable(ac) && zz[1] == -2 && Small(-2, 10)
    ensures EntryOk(ac, 0x00) && AcBits(zz, 1, 1, ac) == RunBits(0, -2, ac) + Symbol(ac, 0x00)
  {
    hide RunBits, Symbol;
    assert NextNonZero(zz, 1, 1) == 1;
    assert AcBits(zz, 2, 1, ac) == Symbol(ac, 0x00);
  }

  lemma SampleBytes(bits: seq<bool>)
    requires bits == [false, true, false, true] + [false, true, false, true] + [true, false, true, false]
    ensures Stuff(Pack(bits + Ones(7))) == [0x55, 0xAF]
  {
    hide BitsOf, ValueOf, Pow2;
    SmallBits();
    Pow2Values();
    BitsOfConcat(5, 4, 5, 4);
    BitsOfConcat(10, 4, 15, 4);
    ValueOfBits(0x55, 8);
    ValueOfBits(0xAF, 8);
    var all := bits + Ones(7);
    assert all[..8] == BitsOf(0x55, 8);
    assert all[8..][..8] == BitsOf(0xAF, 8);
    assert |all[8..][8..]| == 3;
    assert Pack(all) == [0x55] + ([0xAF] + Pack(all[8..][8..]));
    assert Stuff([0x55, 0xAF]) == [0x55] + Stuff([0xAF]);
    assert [0x55, 0xAF][1..] == [0xAF];
  }
}

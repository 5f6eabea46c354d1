/** A whole scan: blocks of three components, each predicted from the block of its component before. */
module JpegScan {

  import opened Bytes
  import opened JpegBits
  import opened JpegHuffman
  import opened JpegReader
  import opened JpegWriter
  import opened JpegEncode
  import opened JpegDecode
  import opened JpegRoundTrip
  import opened JpegTables
  import opened JpegZigZag
  import opened Options
  import opened Sequences

  /** A quantised 8x8 block of component 0 (luminance), 1 or 2 (chrominance). */
  datatype Unit = Unit(component: nat, q: seq<int>)

  function DcOf(component: nat): Standard {
    if component == 0 then LumaDc else ChromaDc
  }

  function AcOf(component: nat): Standard {
    if component == 0 then LumaAc else ChromaAc
  }

  lemma StandardTables(component: nat)
    ensures DcTable(Entries(DcOf(component))) && AcTable(Entries(AcOf(component)))
    ensures Fits(Bits(DcOf(component))) && DcCoded(Entries(DcOf(component)), Bits(DcOf(component)), Values(DcOf(component)))
    ensures Fits(Bits(AcOf(component))) && AcCoded(Entries(AcOf(component)), Bits(AcOf(component)), Values(AcOf(component)))
    ensures NoOnes(Bits(DcOf(component))) && NoOnes(Bits(AcOf(component)))
  {
    hide Fits, Coded, Bits, Values, NoOnes;
    var dc, ac := DcOf(component), AcOf(component);
    StandardFits(dc);
    StandardFits(ac);
    forall y: nat | y < 12 ensures Coded(Entries(dc), Bits(dc), Values(dc), y) { StandardCoded(dc, y); }
    forall y: nat | AcSymbol(y) ensures Coded(Entries(ac), Bits(ac), Values(ac), y) { StandardCoded(ac, y); }
    assert forall run, size :: 0 <= run < 16 && 1 <= size <= 10 ==> AcSymbol(RunSize(run, size));
    TablesCoded(Entries(dc), Bits(dc), Values(dc));
    TablesCoded(Entries(ac), Bits(ac), Values(ac));
  }

  // ----- the limits of the tables -----

  /** The coefficients fit sixteen bits, the difference of the first one eleven, the others ten. */
  predicate UnitOk(u: Unit, last: seq<int>) {
    && |last| == 3 && u.component < 3 && Block(u.q)
    && -32768 <= u.q[0] < 32768 && Small(u.q[0] - last[u.component], 11) && AcSmall(InScan(u.q))
  }

  function Predict(u: Unit, last: seq<int>): seq<int>
    requires |last| == 3 && u.component < 3 && Block(u.q)
  {
    last[u.component := u.q[0]]
  }

  predicate ScanOk(units: seq<Unit>, last: seq<int>) {
    units != [] ==> UnitOk(units[0], last) && ScanOk(units[1..], Predict(units[0], last))
  }

  /** Where the last coefficient that is not zero stands. */
  function EndOf(duq: seq<int>, k: nat := 63): (e: nat)
    requires Block(duq) && k < 64 && forall i :: k < i < 64 ==> duq[i] == 0
    ensures IsEnd(duq, e)
  {
    if k == 0 || duq[k] != 0 then k else EndOf(duq, k - 1)
  }

  lemma EndIsUnique(duq: seq<int>, d: nat, e: nat)
    requires IsEnd(duq, d) && IsEnd(duq, e)
    ensures d == e
  {
  }

  lemma FirstInScan(q: seq<int>)
    requires Block(q)
    ensures InScan(q)[0] == q[0]
  {
  }

  lemma UnitIsBlock(u: Unit, last: seq<int>)
    requires UnitOk(u, last)
    ensures |last| == 3 && u.component < 3 && Block(u.q)
    ensures AcSmall(InScan(u.q)) && InScan(u.q)[0] == u.q[0] == W16(u.q[0])
    ensures IsEnd(InScan(u.q), EndOf(InScan(u.q))) && Small(InScan(u.q)[0] - last[u.component], 11)
    ensures DcTable(Entries(DcOf(u.component))) && AcTable(Entries(AcOf(u.component)))
  {
    hide Entries, DcTable, AcTable, Bits, Values, Fits;
    StandardTables(u.component);
    FirstInScan(u.q);
  }

  function UnitBits(u: Unit, last: seq<int>): seq<bool>
    requires UnitOk(u, last)
  {
    UnitIsBlock(u, last);
    BlockBits(InScan(u.q), EndOf(InScan(u.q)), last[u.component], Entries(DcOf(u.component)), Entries(AcOf(u.component)))
  }

  function ScanBits(units: seq<Unit>, last: seq<int>): seq<bool>
    requires ScanOk(units, last)
  {
    if units == [] then [] else UnitBits(units[0], last) + ScanBits(units[1..], Predict(units[0], last))
  }

  const START: seq<int> := [0, 0, 0]

  function Ones(n: nat): (r: seq<bool>)
    ensures |r| == n
  {
    seq(n, _ => true)
  }

  /** The entropy-coded bytes of a scan, and the marker behind them. */
  function ScanBytes(units: seq<Unit>): seq<byte>
    requires ScanOk(units, START)
  {
    Stuff(Pack(ScanBits(units, START) + Ones(7))) + [0xFF, 0xD9]
  }

  // ----- the encoder -----

  method EncodeUnit(buf: Buffer, u: Unit, ghost last: seq<int>, dc0: int) returns (dc: int)
    requires buf.Valid() && buf.bitc < 8 && UnitOk(u, last) && dc0 == last[u.component]
    modifies buf, buf.buf
    ensures buf.Valid() && buf.bitc < 8 && (buf.buf == old(buf.buf) || fresh(buf.buf))
    ensures buf.View() == Emit(old(buf.View()), buf.realloc, UnitBits(u, last))
    ensures dc == u.q[0]
  {
    hide Entries, DcTable, AcTable, Emit, BlockBits, IsEnd, Small, AcSmall, FollowsPath, Buffer.Valid, Buffer.View;
    UnitIsBlock(u, last);
    FirstInScan(u.q);
    var duq := new int[64];
    var end0pos := StoreInScan(u.q, duq);
    EndIsUnique(duq[..], end0pos, EndOf(InScan(u.q)));
    dc := ProcessBlock(buf, duq[..], end0pos, dc0, Entries(DcOf(u.component)), Entries(AcOf(u.component)));
  }

  /** All blocks in the order of the scan, with one prediction per component, then the padding and the
      end marker. */
  method EncodeScan(buf: Buffer, units: seq<Unit>)
    requires buf.Valid() && buf.bitc == 0 && ScanOk(units, START)
    modifies buf, buf.buf
    ensures buf.Valid()
    ensures buf.View().contents == PutBytes(old(buf.View()), buf.realloc, ScanBytes(units)).contents
    ensures buf.overflow == PutBytes(old(buf.View()), buf.realloc, ScanBytes(units)).overflow
  {
    hide Emit, ScanOk, ScanBits, UnitBits, UnitOk, ScanBytes, PutBytes, PutByte, BitsOf;
    ghost var o := buf.View();
    StartsEmpty(buf);
    var dcs: seq<int> := START;
    ghost var done: seq<bool> := [];
    EmitNothing(o, buf.realloc);
    var i := 0;
    while i < |units|
      invariant buf.Valid() && buf.bitc < 8 && (buf.buf == old(buf.buf) || fresh(buf.buf))
      invariant 0 <= i <= |units| && |dcs| == 3 && ScanOk(units[i..], dcs)
      invariant buf.View() == Emit(o, buf.realloc, done)
      invariant done + ScanBits(units[i..], dcs) == ScanBits(units, START)
    {
      var u := units[i];
      NextUnit(units[i..], dcs);
      assert units[i..][0] == u && units[i..][1..] == units[i + 1..];
      var dc := EncodeUnit(buf, u, dcs, dcs[u.component]);
      EmitAppend(o, buf.realloc, done, UnitBits(u, dcs));
      Associative(done, UnitBits(u, dcs), ScanBits(units[i + 1..], Predict(u, dcs)));
      done := done + UnitBits(u, dcs);
      dcs := dcs[u.component := dc];
      i := i + 1;
    }
    assert units[i..] == [];
    NoUnits(dcs);
    assert done + [] == done;
    EndScan(buf);
    EmitAppend(o, buf.realloc, done, Ones(7));
    Finish(o, buf.realloc, units);
  }

  /** Seven ones complete the last byte; the marker follows. */
  method EndScan(buf: Buffer)
    requires buf.Valid() && buf.bitc < 8
    modifies buf, buf.buf
    ensures buf.Valid()
    ensures buf.View() == PutByte(PutByte(Emit(old(buf.View()), buf.realloc, Ones(7)), buf.realloc, 0xFF), buf.realloc, 0xD9)
  {
    hide Emit, PutByte, BitsOf, Buffer.View, Buffer.Valid;
    SevenOnes();
    buf.WriteBits(0x7F, 7);
    buf.PutChar(0xFF);
    buf.PutChar(0xD9);
  }

  lemma SevenOnes()
    ensures 0x7F < Pow2(7) && BitsOf(0x7F, 7) == Ones(7)
  {
    Pow2Values();
    assert BitsOf(0x0F, 4) == [true, true, true, true];
  }

  lemma StartsEmpty(buf: Buffer)
    requires buf.Valid() && buf.bitc == 0
    ensures buf.View().pending == []
  {
  }

  lemma NextUnit(units: seq<Unit>, last: seq<int>)
    requires units != [] && ScanOk(units, last)
    ensures UnitOk(units[0], last) && |last| == 3 && units[0].component < 3 && Block(units[0].q)
    ensures ScanOk(units[1..], Predict(units[0], last))
    ensures ScanBits(units, last) == UnitBits(units[0], last) + ScanBits(units[1..], Predict(units[0], last))
  {
  }

  lemma NoUnits(last: seq<int>)
    ensures ScanOk([], last) && ScanBits([], last) == []
  {
  }

  /** The padding and the marker, put behind the bits of the blocks. */
  lemma Finish(o: Output, realloc: bool, units: seq<Unit>)
    requires ScanOk(units, START) && o.pending == []
    ensures var put := PutByte(PutByte(Emit(o, realloc, ScanBits(units, START) + Ones(7)), realloc, 0xFF), realloc, 0xD9);
      var all := PutBytes(o, realloc, ScanBytes(units));
      put.contents == all.contents && put.overflow == all.overflow
  {
    hide Stuff, Pack, ScanBits, ScanOk, Left;
    var bits := ScanBits(units, START) + Ones(7);
    assert [] + bits == bits;
    PutBytesAppend(o, realloc, Stuff(Pack(bits)), [0xFF, 0xD9]);
    var a := PutBytes(o, realloc, Stuff(Pack(bits)));
    assert [0xFF, 0xD9][1..] == [0xD9];
    assert PutBytes(a, realloc, [0xFF, 0xD9]) == PutBytes(PutByte(a, realloc, 0xFF), realloc, [0xD9]);
  }

  // ----- the decoder -----

  /** A table and its values. */
  datatype Coding = Coding(table: Table, vals: seq<byte>)

  datatype Tables = Tables(yDc: Coding, yAc: Coding, uvDc: Coding, uvAc: Coding)

  /** The tables are the ones in the file header. */
  ghost predicate TablesUsable(t: Tables) {
    IsStandard(t.yDc, LumaDc) && IsStandard(t.yAc, LumaAc) && IsStandard(t.uvDc, ChromaDc) && IsStandard(t.uvAc, ChromaAc)
  }

  ghost predicate IsStandard(c: Coding, t: Standard) {
    Usable(c.table, Bits(t)) && c.vals == Values(t)
  }

  function DcTableOf(t: Tables, component: nat): Coding {
    if component == 0 then t.yDc else t.uvDc
  }

  function AcTableOf(t: Tables, component: nat): Coding {
    if component == 0 then t.yAc else t.uvAc
  }

  ghost predicate TablesFormed(t: Tables) {
    Formed(t.yDc.table) && Formed(t.yAc.table) && Formed(t.uvDc.table) && Formed(t.uvAc.table)
  }

  predicate Known(components: seq<nat>) {
    forall i :: 0 <= i < |components| ==> components[i] < 3
  }

  /** The blocks of a scan in the order of the scan, coefficients before dequantisation; none when a
      run leaves its block. */
  ghost function ScanBlocks(components: seq<nat>, t: Tables, s: seq<bool>, last: seq<int>): Option<seq<seq<int>>>
    requires TablesFormed(t) && |last| == 3 && Known(components)
  {
    if components == [] then Some([])
    else
      var c := components[0];
      var (raw, rest, dc) := UnitScan(c, t, s, last[c]);
      if raw == None then None
      else
        var blocks := ScanBlocks(components[1..], t, rest, last[c := dc]);
        if blocks == None then None else Some([raw.value] + blocks.value)
  }

  /** One block: its coefficients, the bits behind it, and the next prediction. */
  ghost function UnitScan(c: nat, t: Tables, s: seq<bool>, last: int): (Option<seq<int>>, seq<bool>, int)
    requires TablesFormed(t)
  {
    var dc, ac := DcTableOf(t, c), AcTableOf(t, c);
    var (raw, rest) := BlockScan(dc.table, dc.vals, ac.table, ac.vals, s, last);
    (raw, rest, DcScan(dc.table, dc.vals, s, last).0)
  }

  function Components(units: seq<Unit>): seq<nat> {
    if units == [] then [] else [units[0].component] + Components(units[1..])
  }

  function Blocks(units: seq<Unit>, last: seq<int>): seq<seq<int>>
    requires ScanOk(units, last)
  {
    if units == [] then [] else [InScan(units[0].q)] + Blocks(units[1..], Predict(units[0], last))
  }

  lemma {:induction false} ComponentsKnown(units: seq<Unit>, last: seq<int>)
    requires ScanOk(units, last)
    ensures Known(Components(units))
  {
    if units != [] {
      ComponentsKnown(units[1..], Predict(units[0], last));
    }
  }

  lemma TablesAre(t: Tables, c: nat)
    requires TablesUsable(t)
    ensures TablesFormed(t) && IsStandard(DcTableOf(t, c), DcOf(c)) && IsStandard(AcTableOf(t, c), AcOf(c))
  {
    hide Fits, Bits, Values;
  }

  lemma UnitDecodes(u: Unit, last: seq<int>, t: Tables, rest: seq<bool>)
    requires UnitOk(u, last) && TablesUsable(t) && TablesFormed(t)
    ensures UnitScan(u.component, t, Canon(UnitBits(u, last) + rest), last[u.component]) == (Some(InScan(u.q)), Canon(rest), u.q[0])
  {
    hide Usable, DcCoded, AcCoded, Entries, Values, Bits, BlockScan, DcScan, Canon, BlockBits, DcTable, AcTable, Small, AcSmall, IsEnd;
    hide TablesFormed, W16, DcTableOf, AcTableOf, InScan, EndOf, UnitOk, TablesUsable, DcOf, AcOf;
    UnitIsBlock(u, last);
    var c, duq := u.component, InScan(u.q);
    TablesAre(t, c);
    StandardTables(c);
    var dc, ac := DcOf(c), AcOf(c);
    BlockDecodes(duq, EndOf(duq), last[c], Entries(dc), Entries(ac),
                 DcTableOf(t, c).table, Bits(dc), Values(dc), AcTableOf(t, c).table, Bits(ac), Values(ac), rest);
  }

  /** Every block of a scan comes back, whatever follows the bits. */
  lemma {:induction false} ScanDecodes(units: seq<Unit>, last: seq<int>, t: Tables, rest: seq<bool>)
    requires ScanOk(units, last) && TablesUsable(t) && |last| == 3
    ensures TablesFormed(t) && Known(Components(units))
    ensures ScanBlocks(Components(units), t, Canon(ScanBits(units, last) + rest), last) == Some(Blocks(units, last))
    decreases |units|
  {
    hide TablesUsable, TablesFormed, Canon, UnitScan, UnitBits, UnitOk, InScan;
    ComponentsKnown(units, last);
    assert TablesFormed(t) by { TablesAre(t, 0); }
    if units != [] {
      NextUnit(units, last);
      var u := units[0];
      var after := ScanBits(units[1..], Predict(u, last));
      Associative(UnitBits(u, last), after, rest);
      UnitDecodes(u, last, t, after + rest);
      ScanDecodes(units[1..], Predict(u, last), t, rest);
      assert Components(units)[1..] == Components(units[1..]);
    }
  }

  lemma PaddingIsNothing(bits: seq<bool>)
    ensures Canon(ByteBits(Pack(bits + Ones(7)))) == Canon(bits)
  {
    var padded := bits + Ones(7);
    var packed := ByteBits(Pack(padded));
    PackBits(padded);
    LeftIsShort(padded);
    assert padded == packed + Left(padded);
    forall i: nat ensures BitAt(packed, i) == BitAt(bits, i) {
      assert BitAt(padded, i) == BitAt(bits, i);
      assert i < |packed| ==> packed[i] == padded[i];
      assert i >= |packed| ==> i >= |bits|;
    }
    CanonUnique(packed, bits);
  }

  lemma LeftIsShort(bits: seq<bool>)
    ensures |Left(bits)| <= 7
  {
  }

  /** The whole way: the bytes of the encoder, followed by anything, are unstuffed and decoded to the
      blocks that went in. */
  lemma ScanRoundTrip(units: seq<Unit>, t: Tables, behind: seq<byte>)
    requires ScanOk(units, START) && TablesUsable(t)
    ensures TablesFormed(t) && Known(Components(units))
    ensures ScanBlocks(Components(units), t, Canon(ByteBits(Unstuff(ScanBytes(units) + behind))), START) == Some(Blocks(units, START))
  {
    hide ScanOk, ScanBits, TablesUsable, ScanBlocks, Canon, ByteBits, Pack, Unstuff, Stuff;
    var bits := ScanBits(units, START);
    UnstuffStuffed(Pack(bits + Ones(7)), 0xD9, behind);
    PaddingIsNothing(bits);
    assert bits + [] == bits;
    ScanDecodes(units, START, t, []);
  }

  /** What a decoded block is when it is multiplied by its quantisation table. */
  lemma Dequantised(q: seq<int>, coeff: seq<int>, pQ: seq<int>, i: nat)
    requires Block(q) && |coeff| == 64 && |pQ| == 64 && i < 64
    requires forall k :: 0 <= k < 64 ==> coeff[Zag(k)] == W16(InScan(q)[k] * pQ[k])
    ensures coeff[i] == W16(q[i] * pQ[ZigZag(i)])
  {
    hide Zag, ZigZag, W16;
    ZigZagInverse(i);
    assert coeff[Zag(ZigZag(i))] == W16(InScan(q)[ZigZag(i)] * pQ[ZigZag(i)]);
  }
}

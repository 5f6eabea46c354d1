/** The whole way: the encoder writes a scan to a growing buffer, the decoder reads the bytes and gives the
    coefficients times their quantisation steps. */
module JpegWhole {

  import opened Bytes
  import opened JpegBits
  import opened JpegDecode
  import opened JpegDecodeScan
  import opened JpegEncode
  import opened JpegHuffman
  import opened JpegReader
  import opened JpegRoundTrip
  import opened JpegScan
  import opened JpegTables
  import opened JpegWriter
  import opened JpegZigZag
  import opened Options
  import opened Sequences

  ghost predicate IsStandardLoaded(l: Loaded, t: Standard)
    requires l.table.Valid()
    reads l.table.minCode, l.table.maxCode, l.table.valPtr
  {
    l.bits == Bits(t) && l.vals == Values(t) && Fits(l.bits) && IsTable(l.table.View(), l.bits)
  }

  /** A table of the file header, as `readDHTMarker` loads it. */
  method Load(t: Standard) returns (l: Loaded)
    ensures fresh(l.table) && l.table.Valid() && fresh(l.table.minCode) && fresh(l.table.maxCode) && fresh(l.table.valPtr)
    ensures IsStandardLoaded(l, t)
  {
    hide Bits, Values, Fits, IsTable;
    StandardFits(t);
    var table := new HuffTable();
    HuffCreate(Bits(t), table);
    l := Loaded(table, Values(t), Bits(t));
  }

  lemma StandardIsLoaded(l: Loaded, t: Standard)
    requires l.table.Valid() && IsStandardLoaded(l, t)
    ensures IsLoaded(l) && IsStandard(Coding(l.table.View(), l.vals), t)
  {
    hide Bits, Values, Fits, IsTable, NoOnes;
    StandardFits(t);
  }

  /** With the tables of the file header the decoder can read what the encoder writes. */
  lemma LoadedIsUsable(d: Decoder)
    requires Formed4(d)
    requires IsStandardLoaded(d.yDc, LumaDc) && IsStandardLoaded(d.yAc, LumaAc) && IsStandardLoaded(d.uvDc, ChromaDc) && IsStandardLoaded(d.uvAc, ChromaAc)
    ensures DecoderOk(d) && TablesUsable(View(d))
  {
    hide IsStandardLoaded, IsLoaded, IsStandard;
    StandardIsLoaded(d.yDc, LumaDc);
    StandardIsLoaded(d.yAc, LumaAc);
    StandardIsLoaded(d.uvDc, ChromaDc);
    StandardIsLoaded(d.uvAc, ChromaAc);
  }

  /** The bytes of a scan in a buffer that grows. */
  method Compress(units: seq<Unit>) returns (bytes: seq<byte>)
    requires ScanOk(units, START)
    ensures bytes == ScanBytes(units)
  {
    hide ScanOk, ScanBytes, PutBytes;
    var pixels := new byte[0];
    var buf := new Buffer(pixels, true);
    EncodeScan(buf, units);
    PutBytesIs(Output([], 0, false, []), true, ScanBytes(units));
    assert [] + ScanBytes(units) == ScanBytes(units);
    bytes := buf.buf[..buf.idx];
  }

  lemma ScanBytesNotEmpty(units: seq<Unit>)
    requires ScanOk(units, START)
    ensures ScanBytes(units) != [] && ScanBytes(units) + [] == ScanBytes(units)
  {
    hide ScanOk, Stuff, Pack, ScanBits;
  }

  /** Every coefficient of every block arrives, times the quantisation step of its place. */
  ghost predicate Arrived(blocks: seq<seq<int>>, units: seq<Unit>, pQs: seq<seq<int>>)
    requires |pQs| == 3 && forall c :: 0 <= c < 3 ==> |pQs[c]| == 64
  {
    |blocks| == |units| && forall j :: 0 <= j < |units| ==> UnitArrived(blocks[j], units[j], pQs)
  }

  ghost predicate UnitArrived(block: seq<int>, u: Unit, pQs: seq<seq<int>>)
    requires |pQs| == 3 && forall c :: 0 <= c < 3 ==> |pQs[c]| == 64
  {
    && u.component < 3 && Block(u.q) && |block| == 64
    && forall i :: 0 <= i < 64 ==> block[i] == W16(u.q[i] * pQs[u.component][ZigZag(i)])
  }

  lemma {:induction false} UnitsAre(units: seq<Unit>, last: seq<int>, j: nat)
    requires ScanOk(units, last) && j < |units|
    ensures |Components(units)| == |Blocks(units, last)| == |units|
    ensures Components(units)[j] == units[j].component < 3 && Block(units[j].q) && Blocks(units, last)[j] == InScan(units[j].q)
    decreases |units|
  {
    hide InScan, UnitOk;
    NextUnit(units, last);
    SameLengths(units, last);
    if j > 0 { UnitsAre(units[1..], Predict(units[0], last), j - 1); }
  }

  lemma {:induction false} SameLengths(units: seq<Unit>, last: seq<int>)
    requires ScanOk(units, last)
    ensures |Components(units)| == |Blocks(units, last)| == |units|
  {
    hide InScan, UnitOk;
    if units != [] {
      NextUnit(units, last);
      SameLengths(units[1..], Predict(units[0], last));
    }
  }

  lemma AllArrived(blocks: seq<seq<int>>, units: seq<Unit>, pQs: seq<seq<int>>)
    requires ScanOk(units, START) && Known(Components(units)) && |pQs| == 3 && forall c :: 0 <= c < 3 ==> |pQs[c]| == 64
    requires |blocks| == |Components(units)| && AllDequantised(blocks, Blocks(units, START), Components(units), pQs)
    ensures Arrived(blocks, units, pQs)
  {
    hide InScan, ScanOk, Blocks, Components, W16, Zag, ZigZag;
    SameLengths(units, START);
    forall j | 0 <= j < |units| ensures UnitArrived(blocks[j], units[j], pQs) {
      UnitsAre(units, START, j);
      OneArrived(blocks[j], units[j].q, pQs[units[j].component]);
    }
  }

  lemma OneArrived(block: seq<int>, q: seq<int>, pQ: seq<int>)
    requires Block(q) && IsDequantised(block, InScan(q), pQ)
    ensures |block| == 64 && forall i :: 0 <= i < 64 ==> block[i] == W16(q[i] * pQ[ZigZag(i)])
  {
    hide InScan, W16, Zag, ZigZag;
    forall i | 0 <= i < 64 ensures block[i] == W16(q[i] * pQ[ZigZag(i)]) { Dequantised(q, block, pQ, i); }
  }

  method LoadAll() returns (d: Decoder)
    ensures Formed4(d) && DecoderOk(d) && TablesUsable(View(d))
  {
    hide IsStandardLoaded, DecoderOk, TablesUsable, View;
    var yDc := Load(LumaDc);
    var yAc := Load(LumaAc);
    var uvDc := Load(ChromaDc);
    var uvAc := Load(ChromaAc);
    d := Decoder(yDc, yAc, uvDc, uvAc);
    LoadedIsUsable(d);
  }

  /** A decoder that starts on the first byte of a scan. */
  method Decompress(bytes: seq<byte>, d: Decoder, components: seq<nat>, pQs: seq<seq<int>>)
    returns (ok: bool, blocks: seq<seq<int>>, ghost raws: seq<seq<int>>)
    requires bytes != [] && Formed4(d) && DecoderOk(d)
    requires Known(components) && |pQs| == 3 && forall c :: 0 <= c < 3 ==> |pQs[c]| == 64
    ensures TablesFormed(View(d))
    ensures ScanBlocks(components, View(d), Canon(ByteBits(Unstuff(bytes))), START) == if ok then Some(raws) else None
    ensures ok ==> |blocks| == |components| && AllDequantised(blocks, raws, components, pQs)
  {
    hide ScanBlocks, Canon, ByteBits, Unstuff, Known, AllDequantised, View, DecoderOk, Reader.Valid, Reader.Stream, Reader.Raw, Reader.PutBack, Reader.OnBytes;
    var reader := new Reader(bytes);
    StandsOnBytes(reader);
    reader.FixInBuffer();
    var lastDC := new int[3](_ => 0);
    var coeff := new int[64];
    assert lastDC[..] == START;
    ok, blocks, raws := DecodeScan(reader, d, lastDC, coeff, components, pQs);
  }

  lemma StandsOnBytes(reader: Reader)
    requires reader.OnBytes()
    ensures reader.bitsLeft == 0 || reader.bitsLeft == 8
  {
  }

  lemma BehindScan(units: seq<Unit>, behind: seq<byte>)
    requires ScanOk(units, START)
    ensures ScanBytes(units) + behind != []
  {
    hide ScanOk, ScanBytes;
    ScanBytesNotEmpty(units);
  }

  /** Encoding any scan and decoding its bytes, whatever stands behind them. */
  method Transmit(units: seq<Unit>, pQs: seq<seq<int>>, behind: seq<byte>) returns (ok: bool, blocks: seq<seq<int>>)
    requires ScanOk(units, START) && |pQs| == 3 && forall c :: 0 <= c < 3 ==> |pQs[c]| == 64
    ensures ok && Arrived(blocks, units, pQs)
  {
    hide ScanOk, ScanBytes, ScanBlocks, Canon, ByteBits, Unstuff, TablesUsable, TablesFormed, Known, Blocks, Components, AllDequantised, Arrived, View, DecoderOk;
    var bytes := Compress(units);
    var d := LoadAll();
    BehindScan(units, behind);
    ScanRoundTrip(units, View(d), behind);
    ghost var raws;
    ok, blocks, raws := Decompress(bytes + behind, d, Components(units), pQs);
    AllArrived(blocks, units, pQs);
  }
}

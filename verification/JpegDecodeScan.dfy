/** The decoder's loop over the blocks of a scan (`decodeNextMCU`, picojpeg.c, without the transform and
    the restart intervals). */
module JpegDecodeScan {

  import opened JpegBits
  import opened JpegHuffman
  import opened JpegReader
  import opened JpegDecode
  import opened JpegTables
  import opened JpegZigZag
  import opened JpegScan
  import opened Options
  import opened Sequences

  /** The four tables of a file, as `gHuffTab0` to `gHuffTab3` hold them. */
  datatype Decoder = Decoder(yDc: Loaded, yAc: Loaded, uvDc: Loaded, uvAc: Loaded)

  function DcLoaded(d: Decoder, c: nat): Loaded {
    if c == 0 then d.yDc else d.uvDc
  }

  function AcLoaded(d: Decoder, c: nat): Loaded {
    if c == 0 then d.yAc else d.uvAc
  }

  /** The tables are loaded. */
  ghost predicate DecoderOk(d: Decoder)
    reads d.yDc.table.minCode, d.yDc.table.maxCode, d.yDc.table.valPtr, d.yAc.table.minCode, d.yAc.table.maxCode, d.yAc.table.valPtr
    reads d.uvDc.table.minCode, d.uvDc.table.maxCode, d.uvDc.table.valPtr, d.uvAc.table.minCode, d.uvAc.table.maxCode, d.uvAc.table.valPtr
  {
    TablesOk(d.yDc, d.yAc) && TablesOk(d.uvDc, d.uvAc)
  }

  ghost predicate Formed4(d: Decoder) {
    d.yDc.table.Valid() && d.yAc.table.Valid() && d.uvDc.table.Valid() && d.uvAc.table.Valid()
  }

  ghost function View(d: Decoder): (t: Tables)
    requires Formed4(d)
    reads d.yDc.table.minCode, d.yDc.table.maxCode, d.yDc.table.valPtr, d.yAc.table.minCode, d.yAc.table.maxCode, d.yAc.table.valPtr
    reads d.uvDc.table.minCode, d.uvDc.table.maxCode, d.uvDc.table.valPtr, d.uvAc.table.minCode, d.uvAc.table.maxCode, d.uvAc.table.valPtr
    ensures TablesFormed(t)
  {
    Tables(Coding(d.yDc.table.View(), d.yDc.vals), Coding(d.yAc.table.View(), d.yAc.vals),
           Coding(d.uvDc.table.View(), d.uvDc.vals), Coding(d.uvAc.table.View(), d.uvAc.vals))
  }

  ghost predicate Apart4(reader: Reader, d: Decoder, lastDC: array<int>, coeff: array<int>) {
    BuffersOk(reader, d.yDc, d.yAc, lastDC, coeff) && BuffersOk(reader, d.uvDc, d.uvAc, lastDC, coeff)
  }

  /** Blocks in front of those that are still to come. */
  function Prepend(raws: seq<seq<int>>, rest: Option<seq<seq<int>>>): Option<seq<seq<int>>> {
    if rest == None then None else Some(raws + rest.value)
  }

  lemma OneBlockMore(raws: seq<seq<int>>, components: seq<nat>, i: nat, t: Tables, s: seq<bool>, last: seq<int>)
    requires TablesFormed(t) && |last| == 3 && Known(components) && i < |components|
    ensures Known(components[i..]) && Known(components[i + 1..]) && components[i] < 3
    ensures var (raw, rest, dc) := UnitScan(components[i], t, s, last[components[i]]);
      Prepend(raws, ScanBlocks(components[i..], t, s, last)) ==
        if raw == None then None
        else Prepend(raws + [raw.value], ScanBlocks(components[i + 1..], t, rest, last[components[i] := dc]))
  {
    hide UnitScan, TablesFormed;
    var (raw, rest, dc) := UnitScan(components[i], t, s, last[components[i]]);
    assert components[i..][1..] == components[i + 1..];
    if raw != None {
      var blocks := ScanBlocks(components[i + 1..], t, rest, last[components[i] := dc]);
      if blocks != None {
        Associative(raws, [raw.value], blocks.value);
      }
    }
  }

  ghost predicate AllDequantised(blocks: seq<seq<int>>, raws: seq<seq<int>>, components: seq<nat>, pQs: seq<seq<int>>)
    requires |pQs| == 3 && Known(components)
  {
    |blocks| == |raws| <= |components| && forall j :: 0 <= j < |blocks| ==> IsDequantised(blocks[j], raws[j], pQs[components[j]])
  }

  /** The coefficients of the scan, in their places, times their quantisation steps. */
  predicate IsDequantised(block: seq<int>, raw: seq<int>, pQ: seq<int>) {
    |block| == |raw| == |pQ| == 64 && forall k :: 0 <= k < 64 ==> block[Zag(k)] == W16(raw[k] * pQ[k])
  }

  method DecodeUnit(reader: Reader, d: Decoder, lastDC: array<int>, c: nat, pQ: seq<int>, coeff: array<int>) returns (ok: bool)
    requires reader.Valid() && Formed4(d) && DecoderOk(d) && Apart4(reader, d, lastDC, coeff)
    requires lastDC.Length == 3 && c < 3 && |pQ| == 64
    modifies reader, reader.inBuf, lastDC, coeff
    ensures reader.Valid() && DecoderOk(d) && View(d) == old(View(d))
    ensures var (raw, rest, dc) := UnitScan(c, old(View(d)), old(reader.Stream()), old(lastDC[c]));
      && reader.Stream() == rest && lastDC[..] == old(lastDC[..])[c := dc] && ok == raw.Some?
      && (ok ==> IsDequantised(coeff[..], raw.value, pQ))
  {
    hide BlockScan, DcScan, Reader.Valid, Reader.Stream, HuffTable.View, Bits, Values, IsLoaded, Zag, W16;
    ok := DecodeBlock(reader, DcLoaded(d, c), AcLoaded(d, c), lastDC, c, pQ, coeff);
  }

  method DecodeScan(reader: Reader, d: Decoder, lastDC: array<int>, coeff: array<int>, components: seq<nat>, pQs: seq<seq<int>>)
    returns (ok: bool, blocks: seq<seq<int>>, ghost raws: seq<seq<int>>)
    requires reader.Valid() && Formed4(d) && DecoderOk(d) && Apart4(reader, d, lastDC, coeff)
    requires lastDC.Length == 3 && Known(components) && |pQs| == 3 && forall c :: 0 <= c < 3 ==> |pQs[c]| == 64
    modifies reader, reader.inBuf, lastDC, coeff
    ensures reader.Valid()
    ensures ScanBlocks(components, old(View(d)), old(reader.Stream()), old(lastDC[..])) == if ok then Some(raws) else None
    ensures ok ==> |blocks| == |components| && AllDequantised(blocks, raws, components, pQs)
  {
    hide UnitScan, ScanBlocks, IsDequantised, Reader.Valid, Reader.Stream, View, DecoderOk, TablesFormed, Known;
    ghost var t, s := View(d), reader.Stream();
    blocks, raws := [], [];
    var i := 0;
    assert components[0..] == components;
    NothingPrepended(ScanBlocks(components, t, s, lastDC[..]));
    while i < |components|
      invariant reader.Valid() && DecoderOk(d) && View(d) == t && TablesFormed(t)
      invariant 0 <= i <= |components| && |raws| == i && Known(components[i..])
      invariant AllDequantised(blocks, raws, components, pQs)
      invariant ScanBlocks(components, t, s, old(lastDC[..])) == Prepend(raws, ScanBlocks(components[i..], t, reader.Stream(), lastDC[..]))
    {
      OneBlockMore(raws, components, i, t, reader.Stream(), lastDC[..]);
      var c := components[i];
      ghost var raw := UnitScan(c, t, reader.Stream(), lastDC[c]).0;
      ok := DecodeUnit(reader, d, lastDC, c, pQs[c], coeff);
      if !ok {
        return;
      }
      blocks, raws := blocks + [coeff[..]], raws + [raw.value];
      i := i + 1;
    }
    ok := true;
    AllPrepended(raws, components, t, reader.Stream(), lastDC[..]);
  }

  lemma NothingPrepended(rest: Option<seq<seq<int>>>)
    ensures Prepend([], rest) == rest
  {
    if rest != None { assert [] + rest.value == rest.value; }
  }

  lemma AllPrepended(raws: seq<seq<int>>, components: seq<nat>, t: Tables, s: seq<bool>, last: seq<int>)
    requires TablesFormed(t) && |last| == 3 && Known(components[|components|..])
    ensures Prepend(raws, ScanBlocks(components[|components|..], t, s, last)) == Some(raws)
  {
    assert raws + [] == raws;
  }
}

/** The entropy coder of one block of 64 quantised coefficients (`jpeg_processDU_part2` and the same
    lines of `jpeg_processDU`, jpeg_encode.c), after section F.1.2 of ITU-T T.81. */
module JpegEncode {

  import opened Bytes
  import opened JpegBits
  import opened JpegHuffman
  import opened JpegWriter
  import opened JpegZigZag
  import opened Sequences

  datatype Entry = Entry(code: word, len: byte)

  /** A coefficient table in zigzag order. */
  predicate Block(duq: seq<int>) {
    |duq| == 64
  }

  // ----- magnitudes -----

  /** How many bits `v` has (`32 - __CLZ(v)`). */
  function Size(v: nat): (n: nat)
    ensures v < Pow2(n)
    ensures v > 0 ==> n > 0 && Pow2(n - 1) <= v
  {
    if v == 0 then 0 else 1 + Size(v / 2)
  }

  function Abs(v: int): nat {
    if v < 0 then -v else v
  }

  /** `jpeg_calcBits`: the size of `val`, and its low bits in two's complement, less one if it is
      negative. */
  method CalcBits(val: int) returns (bits: nat, size: nat)
    requires val != 0
    ensures size == Size(Abs(val)) && bits == Low(val) < Pow2(size)
  {
    var v, t1 := val, val;
    if val < 0 {
      t1 := -val;
      v := val - 1;
    }
    size := BitLength(t1);
    assert 0 <= v + Pow2(size) && v < Pow2(size);
    WrapOnce(v, Pow2(size));
    bits := v % Pow2(size);
  }

  lemma WrapOnce(v: int, p: nat)
    requires 0 <= v + p && v < p
    ensures v % p == if v < 0 then v + p else v
  {
  }

  method BitLength(v: nat) returns (n: nat)
    ensures n == Size(v)
  {
    n := 0;
    var w := v;
    while w > 0
      invariant n + Size(w) == Size(v)
    {
      w := w / 2;
      n := n + 1;
    }
  }

  /** Section F.1.2.1.1 of ITU-T T.81: the additional bits of a difference. */
  function Low(val: int): (r: nat)
    requires val != 0
    ensures r < Pow2(Size(Abs(val)))
  {
    if val > 0 then val else Pow2(Size(-val)) - 1 + val
  }

  function Magnitude(val: int): seq<bool>
    requires val != 0
  {
    BitsOf(Low(val), Size(Abs(val)))
  }

  // ----- the bits of a block -----

  predicate EntryOk(ht: seq<Entry>, y: nat) {
    y < |ht| && ht[y].len <= 16 && ht[y].code < Pow2(ht[y].len)
  }

  function Symbol(ht: seq<Entry>, y: nat): seq<bool>
    requires EntryOk(ht, y)
  {
    BitsOf(ht[y].code, ht[y].len)
  }

  ghost predicate DcTable(ht: seq<Entry>) {
    |ht| == 12 && forall y :: 0 <= y < 12 ==> EntryOk(ht, y)
  }

  ghost predicate AcTable(ht: seq<Entry>) {
    && |ht| == 256 && EntryOk(ht, 0x00) && EntryOk(ht, 0xF0)
    && forall run, size :: 0 <= run < 16 && 1 <= size <= 10 ==> EntryOk(ht, RunSize(run, size))
  }

  /** The symbol for `run` zeros in front of a coefficient of `size` bits. */
  function RunSize(run: nat, size: nat): nat {
    16 * run + size
  }

  predicate Small(val: int, size: nat) {
    Abs(val) < Pow2(size)
  }

  lemma {:induction false} SizeSmall(v: nat, n: nat)
    requires v < Pow2(n)
    ensures Size(v) <= n
  {
    if v > 0 && Size(v) > n { Pow2Monotone(n, Size(v) - 1); }
  }

  function DcBits(diff: int, ht: seq<Entry>): seq<bool>
    requires DcTable(ht) && Small(diff, 11)
  {
    if diff == 0 then Symbol(ht, 0)
    else
      SizeSmall(Abs(diff), 11);
      Symbol(ht, Size(Abs(diff))) + Magnitude(diff)
  }

  /** The next position from `i` on that is not zero. */
  function NextNonZero(duq: seq<int>, i: nat, end0pos: nat): (j: nat)
    requires Block(duq) && i <= end0pos < 64 && duq[end0pos] != 0
    ensures i <= j <= end0pos && duq[j] != 0 && forall k :: i <= k < j ==> duq[k] == 0
    decreases end0pos - i
  {
    if duq[i] != 0 then i else NextNonZero(duq, i + 1, end0pos)
  }

  /** `n` times the symbol for sixteen zeros. */
  function SixteenZeros(ht: seq<Entry>, n: nat): seq<bool>
    requires EntryOk(ht, 0xF0)
  {
    if n == 0 then [] else Symbol(ht, 0xF0) + SixteenZeros(ht, n - 1)
  }

  /** Where the last coefficient that is not zero stands; zero when only the first can be one. */
  predicate IsEnd(duq: seq<int>, end0pos: nat) {
    && Block(duq) && end0pos < 64 && (end0pos > 0 ==> duq[end0pos] != 0)
    && forall k :: end0pos < k < 64 ==> duq[k] == 0
  }

  predicate AcSmall(duq: seq<int>)
    requires Block(duq)
  {
    forall k :: 1 <= k < 64 ==> Small(duq[k], 10)
  }

  /** One run of zeros and the coefficient behind it. */
  function RunBits(zeros: nat, val: int, ht: seq<Entry>): seq<bool>
    requires AcTable(ht) && val != 0 && Small(val, 10)
  {
    SizeSmall(Abs(val), 10);
    SixteenZeros(ht, zeros / 16) + Symbol(ht, RunSize(zeros % 16, Size(Abs(val)))) + Magnitude(val)
  }

  /** The coefficients from `i` on, and the end of the block. */
  function AcBits(duq: seq<int>, i: nat, end0pos: nat, ht: seq<Entry>): seq<bool>
    requires IsEnd(duq, end0pos) && AcSmall(duq) && AcTable(ht) && 1 <= i <= end0pos + 1
    decreases end0pos + 1 - i
  {
    if i > end0pos then (if end0pos != 63 then Symbol(ht, 0x00) else [])
    else
      var j := NextNonZero(duq, i, end0pos);
      RunBits(j - i, duq[j], ht) + AcBits(duq, j + 1, end0pos, ht)
  }

  function BlockBits(duq: seq<int>, end0pos: nat, dc: int, htdc: seq<Entry>, htac: seq<Entry>): seq<bool>
    requires IsEnd(duq, end0pos) && AcSmall(duq) && Small(duq[0] - dc, 11) && DcTable(htdc) && AcTable(htac)
  {
    DcBits(duq[0] - dc, htdc) + AcBits(duq, 1, end0pos, htac)
  }

  // ----- the program -----

  /** The coefficients of the 8x8 block `q` in the order of the scan. */
  function InScan(q: seq<int>): (duq: seq<int>)
    requires Block(q)
    ensures Block(duq)
  {
    seq(64, k requires 0 <= k < 64 => q[Zag(k)])
  }

  /** The order of Figure A.6 of ITU-T T.81. */
  predicate FollowsPath(duq: seq<int>, q: seq<int>) {
    Block(duq) && Block(q) && forall k :: 0 <= k < 64 ==> duq[k] == q[PathPlace(k)]
  }

  lemma ScanFollowsPath(q: seq<int>)
    requires Block(q)
    ensures FollowsPath(InScan(q), q)
  {
    hide Zag, OnPath;
    forall k | 0 <= k < 64 ensures InScan(q)[k] == q[PathPlace(k)] { TablesFollowPath(k); }
  }

  /** The loop that stores the quantised coefficients, and finds the last one that is not zero. */
  method StoreInScan(q: seq<int>, duq: array<int>) returns (end0pos: nat)
    requires Block(q) && duq.Length == 64
    modifies duq
    ensures duq[..] == InScan(q) && IsEnd(duq[..], end0pos)
    ensures FollowsPath(duq[..], q)
  {
    hide ZigZag, Zag, FollowsPath;
    end0pos := 0;
    for i := 0 to 64
      invariant end0pos < 64
      invariant forall j :: 0 <= j < i ==> duq[ZigZag(j)] == q[j] && (ZigZag(j) > end0pos ==> q[j] == 0)
      invariant end0pos > 0 ==> duq[end0pos] != 0 && Zag(end0pos) < i
    {
      forall j | 0 <= j < i ensures ZigZag(j) != ZigZag(i) { ZigZagInverse(j); ZigZagInverse(i); }
      ZigZagInverse(i);
      if end0pos > 0 { ZigZagInverse(end0pos); }
      duq[ZigZag(i)] := q[i];
      if ZigZag(i) > end0pos && duq[ZigZag(i)] != 0 {
        end0pos := ZigZag(i);
      }
    }
    forall k | 0 <= k < 64 ensures duq[k] == q[Zag(k)] && (k > end0pos ==> duq[k] == 0) {
      ZigZagInverse(k);
    }
    ScanFollowsPath(q);
  }

  method WriteSymbol(buf: Buffer, ht: seq<Entry>, y: nat)
    requires buf.Valid() && buf.bitc < 8 && EntryOk(ht, y)
    modifies buf, buf.buf
    ensures buf.Valid() && buf.bitc < 8 && (buf.buf == old(buf.buf) || fresh(buf.buf))
    ensures buf.View() == Emit(old(buf.View()), buf.realloc, Symbol(ht, y))
  {
    buf.WriteBits(ht[y].code, ht[y].len);
  }

  method WriteMagnitude(buf: Buffer, ht: seq<Entry>, run: nat, val: int)
    requires buf.Valid() && buf.bitc < 8 && val != 0 && Small(val, 11) && EntryOk(ht, RunSize(run, Size(Abs(val))))
    modifies buf, buf.buf
    ensures buf.Valid() && buf.bitc < 8 && (buf.buf == old(buf.buf) || fresh(buf.buf))
    ensures buf.View() == Emit(old(buf.View()), buf.realloc, Symbol(ht, RunSize(run, Size(Abs(val)))) + Magnitude(val))
  {
    hide Emit, Size, Low, BitsOf;
    assert Pow2(11) == 2048 by { Pow2Values(); }
    SizeSmall(Abs(val), 11);
    hide Pow2;
    var bits, size := CalcBits(val);
    EmitAppend(old(buf.View()), buf.realloc, Symbol(ht, RunSize(run, size)), Magnitude(val));
    WriteSymbol(buf, ht, RunSize(run, size));
    buf.WriteBits(bits, size);
  }

  method ProcessBlock(buf: Buffer, duq: seq<int>, end0pos: nat, dc: int, htdc: seq<Entry>, htac: seq<Entry>) returns (r: int)
    requires buf.Valid() && buf.bitc < 8
    requires IsEnd(duq, end0pos) && AcSmall(duq) && Small(duq[0] - dc, 11) && DcTable(htdc) && AcTable(htac)
    modifies buf, buf.buf
    ensures buf.Valid() && buf.bitc < 8 && (buf.buf == old(buf.buf) || fresh(buf.buf))
    ensures buf.View() == Emit(old(buf.View()), buf.realloc, BlockBits(duq, end0pos, dc, htdc, htac))
    ensures r == duq[0]
  {
    hide Emit, Size, Low, BitsOf, Pow2;
    ghost var o := buf.View();
    var diff := duq[0] - dc;
    if diff == 0 {
      WriteSymbol(buf, htdc, 0);
    } else {
      SizeSmall(Abs(diff), 11);
      WriteMagnitude(buf, htdc, 0, diff);
    }
    EmitAppend(o, buf.realloc, DcBits(diff, htdc), AcBits(duq, 1, end0pos, htac));
    WriteAc(buf, duq, end0pos, htac);
    return duq[0];
  }

  method WriteAc(buf: Buffer, duq: seq<int>, end0pos: nat, ht: seq<Entry>)
    requires buf.Valid() && buf.bitc < 8 && IsEnd(duq, end0pos) && AcSmall(duq) && AcTable(ht)
    modifies buf, buf.buf
    ensures buf.Valid() && buf.bitc < 8 && (buf.buf == old(buf.buf) || fresh(buf.buf))
    ensures buf.View() == Emit(old(buf.View()), buf.realloc, AcBits(duq, 1, end0pos, ht))
  {
    hide Emit, Size, Low, BitsOf, Pow2, AcTable, RunBits;
    assert EntryOk(ht, 0x00) by { TableEnd(ht); }
    if end0pos == 0 {
      WriteSymbol(buf, ht, 0x00);
      return;
    }
    ghost var o := buf.View();
    ghost var done: seq<bool> := [];
    EmitNothing(o, buf.realloc);
    var i: nat := 1;
    while i <= end0pos
      invariant buf.Valid() && buf.bitc < 8 && (buf.buf == old(buf.buf) || fresh(buf.buf))
      invariant 1 <= i <= end0pos + 1
      invariant buf.View() == Emit(o, buf.realloc, done)
      invariant done + AcBits(duq, i, end0pos, ht) == AcBits(duq, 1, end0pos, ht)
    {
      var startpos := i;
      while duq[i] == 0 && i <= end0pos
        invariant startpos <= i <= end0pos && NextNonZero(duq, i, end0pos) == NextNonZero(duq, startpos, end0pos)
        decreases end0pos - i
      {
        i := i + 1;
      }
      ghost var run := RunBits(i - startpos, duq[i], ht);
      WriteRun(buf, i - startpos, duq[i], ht);
      EmitAppend(o, buf.realloc, done, run);
      Associative(done, run, AcBits(duq, i + 1, end0pos, ht));
      done := done + run;
      i := i + 1;
    }
    if end0pos != 63 {
      EmitAppend(o, buf.realloc, done, Symbol(ht, 0x00));
      WriteSymbol(buf, ht, 0x00);
    } else {
      assert done + [] == done;
    }
  }

  lemma TableEnd(ht: seq<Entry>)
    requires AcTable(ht)
    ensures EntryOk(ht, 0x00)
  {
  }

  /** The body of the loop behind the count of the zeros. */
  method WriteRun(buf: Buffer, zeros: nat, val: int, ht: seq<Entry>)
    requires buf.Valid() && buf.bitc < 8 && AcTable(ht) && val != 0 && Small(val, 10)
    modifies buf, buf.buf
    ensures buf.Valid() && buf.bitc < 8 && (buf.buf == old(buf.buf) || fresh(buf.buf))
    ensures buf.View() == Emit(old(buf.View()), buf.realloc, RunBits(zeros, val, ht))
  {
    hide Emit, Size, Low, BitsOf, Pow2;
    ghost var o := buf.View();
    var nrzeroes := zeros;
    ghost var done: seq<bool> := [];
    EmitNothing(o, buf.realloc);
    if nrzeroes >= 16 {
      var lng := nrzeroes / 16;
      for nrmarker := 1 to lng + 1
        invariant buf.Valid() && buf.bitc < 8 && (buf.buf == old(buf.buf) || fresh(buf.buf))
        invariant buf.View() == Emit(o, buf.realloc, done)
        invariant done + SixteenZeros(ht, lng + 1 - nrmarker) == SixteenZeros(ht, lng)
      {
        WriteSymbol(buf, ht, 0xF0);
        EmitAppend(o, buf.realloc, done, Symbol(ht, 0xF0));
        Associative(done, Symbol(ht, 0xF0), SixteenZeros(ht, lng - nrmarker));
        done := done + Symbol(ht, 0xF0);
      }
      assert done + [] == done;
      nrzeroes := nrzeroes % 16;
    }
    SizeSmall(Abs(val), 10);
    Pow2Monotone(10, 11);
    WriteMagnitude(buf, ht, nrzeroes, val);
    var last := Symbol(ht, RunSize(nrzeroes, Size(Abs(val)))) + Magnitude(val);
    EmitAppend(o, buf.realloc, done, last);
    Associative(done, Symbol(ht, RunSize(nrzeroes, Size(Abs(val)))), Magnitude(val));
  }

  lemma EmitNothing(o: Output, realloc: bool)
    requires |o.pending| < 8
    ensures Emit(o, realloc, []) == o
  {
    assert o.pending + [] == o.pending;
  }
}

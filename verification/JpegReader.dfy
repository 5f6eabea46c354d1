/** The bit reader of picojpeg.c: an input buffer of 256 bytes that a callback refills, a put-back of
    at most two bytes, the removal of stuffed zero bytes, and a buffer of sixteen bits. */
module JpegReader {

  import opened Bytes
  import opened JpegBits
  import opened JpegHuffman
  import opened Options
  import opened Sequences

  // ----- the entropy-coded bytes in front of the next marker -----

  /** 0xFF followed by zero is the byte 0xFF; followed by anything else it is a marker, which ends
      the data. So does the end of the input. */
  function Unstuff(raw: seq<byte>): seq<byte> {
    if raw == [] then []
    else if raw[0] != 0xFF then [raw[0]] + Unstuff(raw[1..])
    else if |raw| > 1 && raw[1] == 0 then [0xFF] + Unstuff(raw[2..])
    else []
  }

  lemma UnstuffStep(raw: seq<byte>)
    ensures raw == [] ==> Unstuff(raw) == []
    ensures raw != [] && raw[0] != 0xFF ==> Unstuff(raw) == [raw[0]] + Unstuff(raw[1..])
    ensures |raw| >= 2 && raw[0] == 0xFF && raw[1] == 0 ==> Unstuff(raw) == [0xFF] + Unstuff(raw[2..])
    ensures raw != [] && raw[0] == 0xFF && (|raw| == 1 || raw[1] != 0) ==> Unstuff(raw) == []
  {
  }

  lemma {:induction false} UnstuffStuffed(data: seq<byte>, m: byte, rest: seq<byte>)
    requires m != 0
    ensures Unstuff(Stuff(data) + [0xFF, m] + rest) == data
  {
    if data == [] {
      assert Stuff(data) + [0xFF, m] + rest == [0xFF, m] + rest;
    } else {
      var h: seq<byte> := if data[0] == 0xFF then [0xFF, 0] else [data[0]];
      var raw := Stuff(data[1..]) + [0xFF, m] + rest;
      assert Stuff(data) + [0xFF, m] + rest == h + raw;
      assert (h + raw)[|h|..] == raw;
      UnstuffStuffed(data[1..], m, rest);
    }
  }

  /** The next byte: behind the data the reader sees 0xFF for ever. */
  function Head(data: seq<byte>): byte {
    if data == [] then 0xFF else data[0]
  }

  function Tail(data: seq<byte>): seq<byte> {
    if data == [] then [] else data[1..]
  }

  lemma HeadTail(x: seq<bool>, data: seq<byte>)
    ensures Canon(x + ByteBits(data)) == Canon(x + BitsOf(Head(data), 8) + ByteBits(Tail(data)))
  {
    var h := BitsOf(Head(data), 8);
    if data == [] {
      assert h == [true, true, true, true, true, true, true, true] by { AllOnes(); }
      CanonUnique(x + ByteBits(data), x + h + ByteBits(Tail(data)));
    } else {
      Associative(x, h, ByteBits(Tail(data)));
    }
  }

  lemma AllOnes()
    ensures BitsOf(0xFF, 8) == [true, true, true, true, true, true, true, true]
  {
    assert BitsOf(0x0F, 4) == [true, true, true, true];
    assert BitsOf(0x3F, 6) == [true, true, true, true, true, true];
  }

  // ----- the register of sixteen bits: the bits `x` on top of zeros -----

  predicate Holds(b: word, x: seq<bool>) {
    |x| <= 16 && BitsOf(b, 16) == x + Zeros(16 - |x|)
  }

  /** A left shift in sixteen bits. */
  function Shl(b: nat, k: nat): word {
    b * Pow2(k) % 65536
  }

  /** A bitwise or, where no bit is set in both. */
  function Or(b: nat, o: byte): nat
    requires b % 256 == 0
  {
    b + o
  }

  lemma HoldsShl(b: word, x: seq<bool>, k: nat)
    requires Holds(b, x) && k <= |x|
    ensures Holds(Shl(b, k), x[k..])
  {
    hide BitsOf, Pow2;
    var q, r := b * Pow2(k) / 65536, Shl(b, k);
    assert Pow2(16) == 65536 by { Pow2Values(); }
    BitsOfConcat(b, 16, 0, k);
    BitsOfZero(k);
    BitsOfConcat(q, k, r, 16);
    assert q * 65536 + r == b * Pow2(k) + 0;
    Shifted(BitsOf(q, k), BitsOf(r, 16), x);
  }

  lemma Shifted(high: seq<bool>, low: seq<bool>, x: seq<bool>)
    requires |low| == 16 && |high| <= |x| <= 16 && high + low == x + Zeros(16 - |x|) + Zeros(|high|)
    ensures low == x[|high|..] + Zeros(16 - |x| + |high|)
  {
    assert low == (high + low)[|high|..];
  }

  lemma HoldsOr(b: word, x: seq<bool>, o: byte)
    requires Holds(b, x) && |x| == 8
    ensures b % 256 == 0 && Or(b, o) < 65536 && Holds(Or(b, o), x + BitsOf(o, 8))
  {
    hide BitsOf, Pow2, ValueOf;
    assert Pow2(8) == 256 && Pow2(16) == 65536 by { Pow2Values(); }
    var v := ValueOf(x);
    BitsOfZero(8);
    ValueOfBits(b, 16);
    ValueOfBits(0, 8);
    ValueOfConcat(x, Zeros(8));
    BitsOfConcat(v, 8, o, 8);
    BitsOfValue(x);
    HoldsAll(b + o, x + BitsOf(o, 8));
  }

  /** A right shift takes the top bits. */
  lemma HoldsTop(b: word, x: seq<bool>, n: nat)
    requires Holds(b, x) && n <= |x|
    ensures b / Pow2(16 - n) == ValueOf(x[..n])
  {
    hide BitsOf, Pow2, ValueOf;
    var low := BitsOf(b, 16)[n..];
    ValueOfBits(b, 16) by { Pow2Values(); }
    assert BitsOf(b, 16) == x[..n] + low;
    ValueOfConcat(x[..n], low);
    DivideBack(ValueOf(x[..n]), Pow2(16 - n), ValueOf(low));
  }

  /** Filling up the eight lower bits and shifting on leaves the bits behind the first `k`. */
  lemma HoldsRefill(b: word, x: seq<bool>, c: byte, k: nat)
    requires Holds(b, x) && 8 <= |x| <= 16 && |x| - 8 <= k <= 8
    ensures Shl(b, |x| - 8) % 256 == 0 && Or(Shl(b, |x| - 8), c) < 65536
    ensures Holds(Shl(Or(Shl(b, |x| - 8), c), k - (|x| - 8)), (x + BitsOf(c, 8))[k..])
  {
    hide Holds, Shl, Or, BitsOf;
    var l := |x| - 8;
    HoldsShl(b, x, l);
    HoldsOr(Shl(b, l), x[l..], c);
    HoldsShl(Or(Shl(b, l), c), x[l..] + BitsOf(c, 8), k - l);
    assert (x[l..] + BitsOf(c, 8))[k - l..] == (x + BitsOf(c, 8))[k..];
  }

  lemma DropFront(a: seq<bool>, b: seq<bool>, k: nat)
    requires k <= |a|
    ensures Drop(Canon(a + b), k) == Canon(a[k..] + b)
    ensures Take(Canon(a + b), k) == a[..k]
  {
    CanonDrop(a + b, k);
    assert Drop(a + b, k) == a[k..] + b;
    assert a[..k] + (a[k..] + b) == a + b;
    TakeConcat(a[..k], a[k..] + b);
  }

  /** The two bytes of a number of sixteen bits, put together again. */
  lemma HoldsBytes(high: word, low: word, x: seq<bool>, y: seq<bool>)
    requires Holds(high, x) && Holds(low, y) && |x| >= 8 && |y| >= 8
    ensures Holds(high / 256 * 256 + low / 256, x[..8] + y[..8])
  {
    hide Holds, BitsOf, ValueOf, Pow2;
    HoldsTop(high, x, 8);
    HoldsTop(low, y, 8);
    assert Pow2(8) == 256 by { Pow2Values(); }
    BitsOfConcat(ValueOf(x[..8]), 8, ValueOf(y[..8]), 8);
    BitsOfValue(x[..8]);
    BitsOfValue(y[..8]);
    HoldsAll(high / 256 * 256 + low / 256, x[..8] + y[..8]);
  }

  lemma HoldsAll(b: word, x: seq<bool>)
    requires |x| == 16 && BitsOf(b, 16) == x
    ensures Holds(b, x)
  {
    assert x + Zeros(0) == x;
  }

  /** The buffered bytes, and those that the callback still has. */
  function Window(buf: seq<byte>, ofs: nat, left: nat, source: seq<byte>): seq<byte>
    requires ofs + left <= |buf|
  {
    buf[ofs..ofs + left] + source
  }

  lemma WindowEmpty(buf: seq<byte>, ofs: nat, source: seq<byte>)
    requires ofs <= |buf|
    ensures Window(buf, ofs, 0, source) == source
  {
  }

  lemma TakeFirst(buf: seq<byte>, ofs: nat, left: nat, source: seq<byte>)
    requires 0 < left && ofs + left <= |buf| == 256
    ensures Window(buf, ofs, left, source) == [buf[ofs]] + Window(buf, (ofs + 1) % 256, left - 1, source)
  {
    assert buf[ofs..ofs + left] == [buf[ofs]] + buf[ofs + 1..ofs + left];
    Associative([buf[ofs]], buf[ofs + 1..ofs + left], source);
    if ofs == 255 { assert buf[256..256] == buf[0..0]; }
  }

  lemma PutFirst(buf: seq<byte>, ofs: nat, left: nat, source: seq<byte>, c: byte)
    requires |buf| == 256 && ofs < 256 && ofs + left <= 256 && (ofs == 0 ==> left == 0)
    ensures var ofs' := (ofs - 1) % 256; Window(buf[ofs' := c], ofs', left + 1, source) == [c] + Window(buf, ofs, left, source)
  {
    var ofs' := (ofs - 1) % 256;
    assert buf[ofs' := c][ofs'..ofs' + left + 1] == [c] + buf[ofs..ofs + left];
    Associative([c], buf[ofs..ofs + left], source);
  }

  lemma ByteMoves(b: word)
    ensures b * 256 % 65536 / 256 == b % 256 && b * 256 % 65536 % 256 == 0
  {
  }

  lemma ByteOrMoves(b: word, c: byte)
    requires b % 256 == 0
    ensures Or(b, c) * 256 % 65536 / 256 == c && Or(b, c) * 256 % 65536 % 256 == 0
  {
    ByteMoves(Or(b, c));
  }

  lemma FirstOf(a: seq<byte>, b: seq<byte>)
    requires |a| == 1
    ensures (a + b)[0] == a[0] && (a + b)[1..] == b
  {
  }

  lemma TwoInFront(bytes: seq<byte>)
    ensures ([0, 0] + bytes)[1..] == [0] + bytes && ([0] + bytes)[1..] == bytes
  {
  }

  class Reader {
    const inBuf: array<byte>
    var inBufOfs: byte
    var inBufLeft: byte
    var temFlag: byte
    var bitBuf: word
    var bitsLeft: nat

    /** What the callback has not handed out. */
    var source: seq<byte>

    ghost predicate BufferOk()
      reads `inBufOfs, `inBufLeft
    {
      inBuf.Length == 256 && inBufOfs + inBufLeft <= 256 && (inBufOfs == 0 ==> inBufLeft == 0)
    }

    /** The bytes in front of the reader. */
    ghost function Raw(): seq<byte>
      requires BufferOk()
      reads `inBufOfs, `inBufLeft, `source, inBuf
    {
      Window(inBuf[..], inBufOfs, inBufLeft, source)
    }

    /** How many bytes fit in front of the buffered ones: offset 256 has wrapped to zero. */
    ghost function Room(): nat
      reads `inBufOfs
    {
      if inBufOfs == 0 then 256 else inBufOfs
    }

    /** At the end of the input the reader makes up 0xFF and 0xD9 in turn; it does so once, because
        it then puts them back as a marker. */
    ghost predicate BytesOk()
      reads `inBufOfs, `inBufLeft, `source, `temFlag, inBuf
    {
      BufferOk() && Room() >= 2 && (temFlag == 0 || (|Raw()| >= 2 && Raw()[0] == 0xFF && Raw()[1] != 0))
    }

    ghost function Data(): seq<byte>
      requires BytesOk()
      reads `inBufOfs, `inBufLeft, `source, `temFlag, inBuf
    {
      Unstuff(Raw())
    }

    ghost predicate Valid()
      reads this, inBuf
    {
      BytesOk() && bitsLeft <= 8 && Holds(bitBuf, BitsOf(bitBuf, 16)[..8 + bitsLeft])
    }

    ghost function Buffered(): (x: seq<bool>)
      requires bitsLeft <= 8
      reads this
      ensures |x| == 8 + bitsLeft
    {
      BitsOf(bitBuf, 16)[..8 + bitsLeft]
    }

    /** The bits in front of the reader. */
    ghost function Stream(): seq<bool>
      requires Valid()
      reads this, inBuf
    {
      Canon(Buffered() + ByteBits(Data()))
    }

    /** `init`: the registers are set, and the first byte is read. Behind it and in front of the next call of
        `fixInBuffer` the reader stands on whole bytes. */
    constructor (bytes: seq<byte>)
      ensures fresh(inBuf) && BufferOk() && Room() >= 4 && OnBytes()
      ensures bytes != [] ==> temFlag == 0 && PutBack() + Raw() == bytes
    {
      hide Window;
      inBuf := new byte[256];
      inBufOfs, inBufLeft, temFlag := 0, 0, 0;
      bitBuf, bitsLeft := 0, 8;
      source := bytes;
      new;
      WindowEmpty(inBuf[..], 0, bytes);
      TwoInFront(bytes);
      ghost var all := PutBack() + Raw();
      assert all == [0, 0] + bytes;
      var _ := GetByte();
      hide Raw, PutBack;
      assert PutBack() + Raw() == all[1..];
      var _ := GetByte();
    }

    /** The register holds one byte, or two of which none is read. */
    ghost predicate OnBytes()
      reads this
    {
      bitsLeft == 8 || (bitsLeft == 0 && bitBuf % 256 == 0)
    }

    /** `getBits` for eight bits with `FFCheck` clear, on whole bytes. */
    method GetByte() returns (r: byte)
      requires BufferOk() && Room() >= 4 && OnBytes()
      modifies this, inBuf
      ensures BufferOk() && Room() >= 4 && OnBytes() && bitsLeft == 0
      ensures var all := old(PutBack() + Raw());
        r == all[0] && (|all| > 1 ==> temFlag == old(temFlag) && PutBack() + Raw() == all[1..])
    {
      hide Window, Raw, Or;
      r := bitBuf / 256;
      ByteMoves(bitBuf);
      if bitsLeft < 8 {
        ghost var high := bitBuf / 256;
        var c := GetChar();
        ByteOrMoves(bitBuf, c);
        bitBuf := Or(bitBuf, c) * 256 % 65536;
        FirstOf([high], [c] + Raw());
      } else {
        FirstOf([bitBuf / 256], [bitBuf % 256] + Raw());
        assert PutBack() == [bitBuf / 256] + [bitBuf % 256];
        Associative([bitBuf / 256], [bitBuf % 256], Raw());
        bitsLeft := 0;
        bitBuf := bitBuf * 256 % 65536;
      }
    }

    /** The callback hands out any positive number of bytes while it has some. */
    method FillInBuf()
      requires inBuf.Length == 256 && inBufLeft == 0
      modifies this`inBufOfs, this`inBufLeft, this`source, inBuf
      ensures BufferOk() && inBufOfs == 4
      ensures Raw() == old(source)
      ensures inBufLeft == 0 ==> source == []
    {
      inBufOfs := 4;
      var n: nat :| n <= 252 && n <= |source| && (source == [] || n > 0) by {
        var few := if source == [] then 0 else 1;
        assert few <= |source|;
      }
      for i := 0 to n
        modifies inBuf
        invariant inBuf[4..4 + i] == source[..i]
      {
        inBuf[4 + i] := source[i];
      }
      inBufLeft := n;
      source := source[n..];
    }

    method GetChar() returns (c: byte)
      requires BufferOk() && Room() >= 2
      modifies this`inBufOfs, this`inBufLeft, this`source, this`temFlag, inBuf
      ensures BufferOk() && (Room() >= 4 || Room() == old(Room()) + 1)
      ensures old(Raw()) != [] ==> temFlag == old(temFlag) && old(Raw()) == [c] + Raw()
      ensures old(Raw()) == [] ==> temFlag == 0xFF - old(temFlag) && Raw() == [] && c == if temFlag != 0 then 0xFF else 0xD9
    {
      hide Window;
      if inBufLeft == 0 {
        WindowEmpty(inBuf[..], inBufOfs, source);
        FillInBuf();
        if inBufLeft == 0 {
          WindowEmpty(inBuf[..], inBufOfs, source);
          temFlag := 0xFF - temFlag;
          return if temFlag != 0 then 0xFF else 0xD9;
        }
      }
      TakeFirst(inBuf[..], inBufOfs, inBufLeft, source);
      inBufLeft := inBufLeft - 1;
      c := inBuf[inBufOfs];
      inBufOfs := (inBufOfs + 1) % 256;
    }

    method StuffChar(c: byte)
      requires BufferOk() && Room() >= 2
      modifies this`inBufOfs, this`inBufLeft, inBuf
      ensures BufferOk() && Room() == old(Room()) - 1
      ensures Raw() == [c] + old(Raw())
    {
      hide Window;
      PutFirst(inBuf[..], inBufOfs, inBufLeft, source, c);
      inBufOfs := (inBufOfs - 1) % 256;
      ghost var buf := inBuf[..];
      inBuf[inBufOfs] := c;
      assert inBuf[..] == buf[inBufOfs := c];
      inBufLeft := inBufLeft + 1;
    }

    /** One byte of entropy-coded data (`getOctet` with `FFCheck` set). */
    method GetOctet() returns (c: byte)
      requires BytesOk()
      modifies this`inBufOfs, this`inBufLeft, this`source, this`temFlag, inBuf
      ensures BytesOk()
      ensures c == Head(old(Data())) && Data() == Tail(old(Data()))
    {
      hide Unstuff;
      ghost var raw := Raw();
      UnstuffStep(raw);
      c := GetChar();
      assert raw != [] ==> raw[1..] == Raw();
      if c == 0xFF {
        var n := GetChar();
        assert |raw| >= 2 ==> raw[2..] == Raw();
        if n != 0 {
          StuffChar(n);
          StuffChar(0xFF);
          UnstuffStep(Raw());
        }
      }
    }

    /** The register holds the bits `x` and the data behind it is `data`. */
    ghost predicate Front(x: seq<bool>, data: seq<byte>)
      reads this, inBuf
    {
      BytesOk() && bitsLeft <= 8 && |x| == 8 + bitsLeft && Holds(bitBuf, x) && data == Data()
    }

    lemma FrontStream(x: seq<bool>, data: seq<byte>)
      requires Front(x, data)
      ensures Valid() && Stream() == Canon(x + ByteBits(data))
    {
      assert BitsOf(bitBuf, 16)[..8 + bitsLeft] == x;
    }

    method GetBit() returns (bit: nat)
      requires Valid()
      modifies this, inBuf
      ensures Valid() && bit == Bit(old(Stream())) && Stream() == Drop(old(Stream()), 1)
    {
      hide BitsOf, Holds, Shl, Or, Canon, Drop, BitAt, Pow2, ValueOf, ByteBits, Unstuff, Window, Head, Tail;
      ghost var x, data := Buffered(), Data();
      TopBit(bitBuf, x);
      PopOne(x, ByteBits(data));
      bit := 0;
      if bitBuf >= 0x8000 {
        bit := 1;
      }
      if bitsLeft == 0 {
        var c := GetOctet();
        HoldsOr(bitBuf, x, c);
        bitBuf := Or(bitBuf, c);
        bitsLeft := bitsLeft + 8;
        HeadTail(x, data);
        x, data := x + BitsOf(c, 8), Tail(data);
      }
      HoldsShl(bitBuf, x, 1);
      DropFront(x, ByteBits(data), 1);
      bitsLeft := bitsLeft - 1;
      bitBuf := Shl(bitBuf, 1);
      FrontStream(x[1..], data);
    }

    /** The three statements of `getBits` that read a byte on the way: `k` bits are gone. */
    method ShiftIn(k: nat)
      requires Valid() && bitsLeft <= k <= 8
      modifies this`bitBuf, this`inBufOfs, this`inBufLeft, this`source, this`temFlag, inBuf
      ensures BytesOk() && Data() == Tail(old(Data()))
      ensures Holds(bitBuf, (old(Buffered()) + BitsOf(Head(old(Data())), 8))[k..])
      ensures k == 8 ==> Valid() && Stream() == Drop(old(Stream()), 8)
    {
      hide BitsOf, Holds, Shl, Or, Canon, Drop, Take, Pow2, ValueOf, ByteBits, Unstuff, Window, Head, Tail;
      ghost var x, data := Buffered(), Data();
      bitBuf := Shl(bitBuf, bitsLeft);
      var c := GetOctet();
      HoldsRefill(old(bitBuf), x, c, k);
      bitBuf := Or(bitBuf, c);
      bitBuf := Shl(bitBuf, k - bitsLeft);
      if k == 8 {
        HeadTail(x, data);
        DropFront(x + BitsOf(c, 8), ByteBits(Tail(data)), 8);
        FrontStream((x + BitsOf(c, 8))[8..], Tail(data));
      }
    }

    /** The second half of `getBits`: up to eight bits are dropped. */
    method Skip(n: nat)
      requires Valid() && n <= 8
      modifies this, inBuf
      ensures Valid() && Stream() == Drop(old(Stream()), n)
    {
      hide BitsOf, Holds, Shl, Or, Canon, Drop, Take, Pow2, ValueOf, ByteBits, Unstuff, Window, Head, Tail;
      ghost var x, data := Buffered(), Data();
      if bitsLeft < n {
        ShiftIn(n);
        HeadTail(x, data);
        x, data := x + BitsOf(Head(data), 8), Tail(data);
        bitsLeft := 8 - (n - bitsLeft);
      } else {
        bitsLeft := bitsLeft - n;
        HoldsShl(bitBuf, x, n);
        bitBuf := Shl(bitBuf, n);
      }
      DropFront(x, ByteBits(data), n);
      FrontStream(x[n..], data);
    }

    /** `getBits` with `FFCheck` set: the next `numBits` bits as a number. */
    method GetBits(numBits: nat) returns (r: nat)
      requires Valid() && 1 <= numBits <= 16
      modifies this, inBuf
      ensures Valid() && r == ValueOf(Take(old(Stream()), numBits)) && Stream() == Drop(old(Stream()), numBits)
    {
      hide BitsOf, Holds, Shl, Or, Canon, Drop, Take, Pow2, ValueOf, ByteBits, Unstuff, Window, Head, Tail;
      ghost var s := Stream();
      Peek();
      var n: nat := numBits;
      var ret: nat := bitBuf;
      if n > 8 {
        n := n - 8;
        ShiftIn(8);
        Peek();
        TwoBytes(ret, bitBuf, s, 8 + bitsLeft);
        ret := ret / 256 * 256 + bitBuf / 256;
        DropDrop(s, 8, n);
      }
      TopOf(ret, s, if numBits > 8 then 16 else 8 + bitsLeft, numBits);
      Skip(n);
      r := ret / Pow2(16 - numBits);
    }

    /** `fixInBuffer`: one or two bytes that were read as plain bytes are put back, so that they are
        read again as entropy-coded data. The header is read in whole bytes. */
    method FixInBuffer()
      requires BufferOk() && Room() >= 4 && temFlag == 0 && (bitsLeft == 0 || bitsLeft == 8)
      modifies this, inBuf
      ensures Valid()
      ensures Stream() == Canon(ByteBits(Unstuff(old(PutBack() + Raw()))))
    {
      PutBackBytes();
      DropRegister(BitsOf(bitBuf, 16), ByteBits(Data()));
      var _ := GetBits(8);
      var _ := GetBits(8);
    }

    method PutBackBytes()
      requires BufferOk() && Room() >= 4 && temFlag == 0 && (bitsLeft == 0 || bitsLeft == 8)
      modifies this, inBuf
      ensures Valid() && Data() == Unstuff(old(PutBack() + Raw()))
      ensures Stream() == Canon(BitsOf(bitBuf, 16) + ByteBits(Data()))
    {
      hide BitsOf, Holds, Shl, Or, Canon, Drop, Take, ValueOf, ByteBits, Unstuff, Window, Head, Tail, Raw;
      ghost var high, low, raw: seq<byte> := [bitBuf / 256], [bitBuf % 256], Raw();
      Associative(high, low, raw);
      assert high + low == [bitBuf / 256, bitBuf % 256];
      if bitsLeft > 0 {
        StuffChar(bitBuf % 256);
      }
      StuffChar(bitBuf / 256);
      assert Raw() == old(PutBack()) + raw;
      bitsLeft := 8;
      HoldsAll(bitBuf, BitsOf(bitBuf, 16));
      FrontStream(BitsOf(bitBuf, 16), Data());
    }

    /** The bytes in the register. */
    ghost function PutBack(): seq<byte>
      reads this
    {
      if bitsLeft > 0 then [bitBuf / 256, bitBuf % 256] else [bitBuf / 256]
    }

    method HuffDecode(t: HuffTable, huffVal: seq<byte>, ghost bits: seq<byte>) returns (v: byte)
      requires Valid() && t.Valid() && Apart(t)
      requires Fits(bits) && IsTable(t.View(), bits) && |huffVal| >= Ptr(bits, 16)
      modifies this, inBuf
      ensures Valid() && t.View() == old(t.View())
      ensures (v, Stream()) == DecodeValue(t.View(), huffVal, old(Stream()))
    {
      hide BitsOf, Holds, Canon, Drop, Fits, First, Ptr, ByteBits, Unstuff, Window, Raw, Data, BytesOk, Buffered;
      hide Valid, Stream, Walk, Decode, IsTable;
      ghost var table, s := t.View(), Stream();
      FirstInRange(table, bits, s);
      var i: nat := 0;
      var code: nat := GetBit();
      WalkStarts(table, s);
      while true
        invariant Valid() && t.View() == table && i <= 16 && code < 65536
        invariant Walk(table, Stream(), i, code) == Decode(table, s)
        decreases 16 - i
      {
        WalkStep(table, Stream(), i, code);
        if i == 16 {
          return 0;
        }
        var maxCode := t.maxCode[i];
        if code <= maxCode && maxCode != 0xFFFF {
          break;
        }
        i := i + 1;
        code := code * 2 % 65536;
        var bit := GetBit();
        code := code + bit;
      }
      var j: int := t.valPtr[i];
      j := (j + (code - t.minCode[i])) % 256;
      return huffVal[j];
    }

    /** The tables are not the input buffer. */
    ghost predicate Apart(t: HuffTable) {
      inBuf as object !in {t.minCode as object, t.maxCode as object, t.valPtr as object}
    }

    /** The register holds the first bits of the stream. */
    lemma Peek()
      requires Valid()
      ensures Holds(bitBuf, Take(Stream(), 8 + bitsLeft))
    {
      DropFront(Buffered(), ByteBits(Data()), 8 + bitsLeft);
      assert Buffered()[..8 + bitsLeft] == Buffered();
    }
  }

  lemma TopOf(b: word, s: seq<bool>, m: nat, n: nat)
    requires n <= m && Holds(b, Take(s, m))
    ensures b / Pow2(16 - n) == ValueOf(Take(s, n))
  {
    HoldsTop(b, Take(s, m), n);
    assert Take(s, m)[..n] == Take(s, n);
  }

  lemma TwoBytes(high: word, low: word, s: seq<bool>, m: nat)
    requires m >= 8 && Holds(high, Take(s, m)) && Holds(low, Take(Drop(s, 8), m))
    ensures Holds(high / 256 * 256 + low / 256, Take(s, 16))
  {
    HoldsBytes(high, low, Take(s, m), Take(Drop(s, 8), m));
    assert Take(s, m)[..8] + Take(Drop(s, 8), m)[..8] == Take(s, 16);
  }

  lemma DropDrop(s: seq<bool>, m: nat, n: nat)
    ensures Drop(Drop(s, m), n) == Drop(s, m + n)
  {
  }

  lemma TopBit(b: word, x: seq<bool>)
    requires Holds(b, x) && x != []
    ensures b >= 0x8000 <==> x[0]
  {
    HoldsTop(b, x, 1);
    Pow2Values();
    assert x[..1][..0] == [];
  }

  /** The value of the next code, and the bits behind it; zero when the walk finds nothing. */
  function DecodeValue(t: Table, huffVal: seq<byte>, s: seq<bool>): (byte, seq<bool>)
    requires Formed(t)
  {
    var (found, rest) := Decode(t, s);
    (if found.Some? && found.value < |huffVal| then huffVal[found.value] else 0, rest)
  }

  lemma FirstInRange(t: Table, bits: seq<byte>, s: seq<bool>)
    requires Fits(bits) && IsTable(t, bits)
    ensures Decode(t, s).0.Some? ==> Decode(t, s).0.value < Ptr(bits, 16)
  {
    Pow2Values();
    WalkInRange(t, bits, Drop(s, 1), 0, Bit(s));
  }

  lemma WalkStarts(t: Table, s: seq<bool>)
    requires Formed(t)
    ensures Decode(t, s) == Walk(t, Drop(s, 1), 0, Bit(s))
  {
  }

  lemma WalkStep(t: Table, s: seq<bool>, i: nat, code: word)
    requires Formed(t) && i <= 16
    ensures i == 16 ==> Walk(t, s, i, code) == (None, s)
    ensures i < 16 && code <= t.maxCode[i] && t.maxCode[i] != 0xFFFF
      ==> Walk(t, s, i, code) == (Some((t.valPtr[i] + code - t.minCode[i]) % 256), s)
    ensures i < 16 && !(code <= t.maxCode[i] && t.maxCode[i] != 0xFFFF)
      ==> Walk(t, s, i, code) == Walk(t, Drop(s, 1), i + 1, code * 2 % 65536 + Bit(s))
  {
  }

  lemma DropRegister(x: seq<bool>, b: seq<bool>)
    requires |x| == 16
    ensures Drop(Drop(Canon(x + b), 8), 8) == Canon(b)
  {
    DropFront(x, b, 16);
    DropDrop(Canon(x + b), 8, 8);
    assert x[16..] + b == b;
  }
}

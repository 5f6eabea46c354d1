/** Blending RGB565 pictures (image_op.c): three channels in one 32-bit number at a time. */
module ImageBlend {

  import opened Division

  type pixel = x: int | 0 <= x < 0x10000

  const WIDTH := 0x1_0000_0000

  function Red(x: pixel): nat {
    x / 0x800
  }

  function Green(x: pixel): nat {
    x / 0x20 % 0x40
  }

  function Blue(x: pixel): nat {
    x % 0x20
  }

  function Pack(r: nat, g: nat, b: nat): pixel
    requires r < 0x20 && g < 0x40 && b < 0x20
  {
    r * 0x800 + g * 0x20 + b
  }

  /** `v & 0x7E0F81F`: the bits 21 to 26, 11 to 15, and 0 to 4. */
  function Mask(v: nat): (r: nat)
    ensures r < 0x800_0000
  {
    v / 0x20_0000 % 0x40 * 0x20_0000 + v / 0x800 % 0x20 * 0x800 + v % 0x20
  }

  /** `fast_blender_alpha`: the green bits are moved up to make room between the channels; the
      arithmetic is that of 32-bit unsigned numbers. */
  function FastBlenderAlpha(x0: pixel, y0: pixel, alpha: nat): pixel {
    var x := Mask(x0 + x0 * 0x10000);
    var y := Mask(y0 + y0 * 0x10000);
    var result := Mask(((x - y) % WIDTH * alpha % WIDTH / 0x20 + y) % WIDTH);
    (result % 0x10000 + result / 0x10000) % 0x10000
  }

  function MixChannel(x: nat, y: nat, alpha: nat): nat
    requires alpha <= 32
  {
    (alpha * x + (32 - alpha) * y) / 32
  }

  lemma Channels(x: pixel)
    ensures x == Red(x) * 0x800 + Green(x) * 0x20 + Blue(x) && Red(x) < 0x20 && Green(x) < 0x40 && Blue(x) < 0x20
  {
  }

  /** A number made of fields, masked. `e`, `d` and `c` are the bits between and above them. */
  lemma MaskFields(e: nat, g: nat, d: nat, r: nat, c: nat, b: nat)
    requires g < 0x40 && d < 0x20 && r < 0x20 && c < 0x40 && b < 0x20
    ensures Mask(e * 0x800_0000 + g * 0x20_0000 + d * 0x10000 + r * 0x800 + c * 0x20 + b) == g * 0x20_0000 + r * 0x800 + b
  {
    var v := e * 0x800_0000 + g * 0x20_0000 + d * 0x10000 + r * 0x800 + c * 0x20 + b;
    Quotient(v, e * 0x40 + g, d * 0x10000 + r * 0x800 + c * 0x20 + b, 0x20_0000);
    Quotient(e * 0x40 + g, e, g, 0x40);
    Quotient(v, e * 0x1_0000 + g * 0x400 + d * 0x20 + r, c * 0x20 + b, 0x800);
    Quotient(e * 0x1_0000 + g * 0x400 + d * 0x20 + r, e * 0x800 + g * 0x20 + d, r, 0x20);
    Quotient(v, e * 0x40_0000 + g * 0x1_0000 + d * 0x800 + r * 0x40 + c, b, 0x20);
  }

  lemma SpreadIs(x: pixel)
    ensures Mask(x + x * 0x10000) == Green(x) * 0x20_0000 + Red(x) * 0x800 + Blue(x)
  {
    Channels(x);
    hide Mask, Red, Green, Blue;
    MaskFields(Red(x), Green(x), Blue(x), Red(x), Green(x), Blue(x));
  }

  /** The product of a difference, wrapped around and shifted right, plus what was subtracted: the
      fields neither carry nor borrow, up to a bit above them. The `d` are differences times alpha. */
  lemma NoCarry(dg: int, dr: int, db: int, yg: nat, yr: nat, yb: nat) returns (e: nat)
    requires 0 <= dg + 32 * yg <= 63 * 32 && 0 <= dr + 32 * yr <= 31 * 32 && 0 <= db + 32 * yb <= 31 * 32
    requires yg < 64 && yr < 32 && yb < 32
    ensures var t := dg * 0x20_0000 + dr * 0x800 + db;
      var y := yg * 0x20_0000 + yr * 0x800 + yb;
      var s := (dg + 32 * yg) * 0x10000 + (dr + 32 * yr) * 0x40 + (db + 32 * yb) / 32;
      (t % WIDTH / 0x20 + y) % WIDTH == s + e * 0x800_0000
  {
    var t := dg * 0x20_0000 + dr * 0x800 + db;
    var y := yg * 0x20_0000 + yr * 0x800 + yb;
    e := if t < 0 then 1 else 0;
    var b := db / 32;
    DivMod(db, 32);
    Quotient(t, if t < 0 then -1 else 0, t + e * WIDTH, WIDTH);
    Quotient(t + e * WIDTH, e * 0x800_0000 + dg * 0x10000 + dr * 0x40 + b, db % 32, 32);
    Quotient(db + 32 * yb, b + yb, db % 32, 32);
    var s := (dg + 32 * yg) * 0x10000 + (dr + 32 * yr) * 0x40 + (b + yb);
    Quotient(s + e * 0x800_0000, 0, s + e * 0x800_0000, WIDTH);
  }

  lemma Fold(g: nat, r: nat, b: nat)
    requires g < 64 && r < 32 && b < 32
    ensures var v := g * 0x20_0000 + r * 0x800 + b;
      (v % 0x10000 + v / 0x10000) % 0x10000 == Pack(r, g, b)
  {
    var v := g * 0x20_0000 + r * 0x800 + b;
    Quotient(v, g * 0x20, r * 0x800 + b, 0x10000);
    Quotient(r * 0x800 + b + g * 0x20, 0, r * 0x800 + b + g * 0x20, 0x10000);
  }

  /** The masked sum, and the pixel made of it. */
  lemma MeansPacked(cg: nat, cr: nat, cb: nat, e: nat)
    requires cg <= 63 * 32 && cr <= 31 * 32 && cb <= 31
    ensures var v := Mask(cg * 0x10000 + cr * 0x40 + cb + e * 0x800_0000);
      (v % 0x10000 + v / 0x10000) % 0x10000 == Pack(cr / 32, cg / 32, cb)
  {
    hide Mask;
    DivMod(cg, 32);
    DivMod(cr, 32);
    MaskFields(e, cg / 32, cg % 32, cr / 32, cr % 32 * 2, cb);
    Fold(cg / 32, cr / 32, cb);
  }

  /** 32 times the weighted mean of two channels. */
  function Weighted(x: nat, y: nat, alpha: nat): nat
    requires alpha <= 32
  {
    alpha * x + (32 - alpha) * y
  }

  function Scaled(d: int, alpha: nat): int {
    d * alpha
  }

  lemma Channel(x: nat, y: nat, alpha: nat, top: nat)
    requires x <= top && y <= top && alpha <= 32
    ensures Scaled(x - y, alpha) + 32 * y == Weighted(x, y, alpha) <= 32 * top
    ensures Weighted(x, y, alpha) / 32 == MixChannel(x, y, alpha) <= top
  {
    var beta := 32 - alpha;
    Distribute(x, y, alpha, beta);
    Share(alpha, x, top);
    Share(beta, y, top);
    assert alpha * top + beta * top == (alpha + beta) * top;
  }

  lemma Distribute(x: int, y: int, alpha: int, beta: int)
    ensures (x - y) * alpha + (alpha + beta) * y == alpha * x + beta * y
  {
  }

  lemma Share(a: nat, x: nat, top: nat)
    requires x <= top
    ensures 0 <= a * x <= a * top
  {
  }

  lemma Product(xg: nat, xr: nat, xb: nat, yg: nat, yr: nat, yb: nat, alpha: nat)
    ensures var x, y := xg * 0x20_0000 + xr * 0x800 + xb, yg * 0x20_0000 + yr * 0x800 + yb;
      Scaled(x - y, alpha) == Scaled(xg - yg, alpha) * 0x20_0000 + Scaled(xr - yr, alpha) * 0x800 + Scaled(xb - yb, alpha)
  {
  }

  /** Reducing the difference before multiplying makes no difference. */
  lemma WrapTwice(d: int, alpha: nat)
    ensures d % WIDTH * alpha % WIDTH == Scaled(d, alpha) % WIDTH
  {
    var q := d / WIDTH;
    DivMod(d, WIDTH);
    DivMod(d * alpha, WIDTH);
    var r := d * alpha / WIDTH;
    assert d % WIDTH * alpha == d * alpha - q * WIDTH * alpha;
    assert q * WIDTH * alpha == q * alpha * WIDTH;
    assert d % WIDTH * alpha == (r - q * alpha) * WIDTH + d * alpha % WIDTH;
    Quotient(d % WIDTH * alpha, r - q * alpha, d * alpha % WIDTH, WIDTH);
  }

  lemma FastIs(x: pixel, y: pixel, alpha: nat)
    ensures var x', y' := Mask(x + x * 0x10000), Mask(y + y * 0x10000);
      var v := Mask((Scaled(x' - y', alpha) % WIDTH / 0x20 + y') % WIDTH);
      FastBlenderAlpha(x, y, alpha) == (v % 0x10000 + v / 0x10000) % 0x10000
  {
    hide Mask, Scaled;
    WrapTwice(Mask(x + x * 0x10000) - Mask(y + y * 0x10000), alpha);
  }

  /** Each channel of the result is the weighted mean of the channels, rounded down. */
  lemma BlendIsExact(x: pixel, y: pixel, alpha: nat)
    requires alpha <= 32
    ensures MixChannel(Red(x), Red(y), alpha) < 0x20 && MixChannel(Green(x), Green(y), alpha) < 0x40 && MixChannel(Blue(x), Blue(y), alpha) < 0x20
    ensures FastBlenderAlpha(x, y, alpha)
         == Pack(MixChannel(Red(x), Red(y), alpha), MixChannel(Green(x), Green(y), alpha), MixChannel(Blue(x), Blue(y), alpha))
  {
    Channels(x);
    Channels(y);
    SpreadIs(x);
    SpreadIs(y);
    hide Mask, Red, Green, Blue, Scaled, Weighted, MixChannel, Pack, FastBlenderAlpha;
    var xg: int, xr: int, xb: int := Green(x), Red(x), Blue(x);
    var yg: int, yr: int, yb: int := Green(y), Red(y), Blue(y);
    Channel(xg, yg, alpha, 63);
    Channel(xr, yr, alpha, 31);
    Channel(xb, yb, alpha, 31);
    Product(xg, xr, xb, yg, yr, yb, alpha);
    FastIs(x, y, alpha);
    var e := NoCarry(Scaled(xg - yg, alpha), Scaled(xr - yr, alpha), Scaled(xb - yb, alpha), yg, yr, yb);
    MeansPacked(Weighted(xg, yg, alpha), Weighted(xr, yr, alpha), MixChannel(xb, yb, alpha), e);
  }

  // ----- pictures -----

  /** The window of a picture that is mixed into another one. */
  datatype Window = Window(dx: nat, dy: nat, dw: nat, dh: nat)

  predicate Inside(win: Window, row: nat, col: nat) {
    win.dy <= row < win.dy + win.dh && win.dx <= col < win.dx + win.dw
  }

  /** The window lies in a picture `sw` wide and `sh` high. */
  predicate Within(sw: nat, sh: nat, win: Window) {
    win.dx + win.dw <= sw && win.dy + win.dh <= sh
  }

  /** The test both methods make; the picture has the offset `sx`, `sy`. */
  predicate Tested(sx: nat, sy: nat, sw: nat, sh: nat, win: Window) {
    win.dx + win.dw <= sw + sx && win.dh + win.dy <= sh + sy
  }

  predicate SixteenBits(win: Window) {
    win.dx < 0x10000 && win.dy < 0x10000 && win.dw < 0x10000 && win.dh < 0x10000
  }

  /** The test lets only windows through that lie in the picture exactly when the picture has no offset. */
  lemma TestGuaranteesIff(sx: nat, sy: nat, sw: nat, sh: nat)
    requires sx < 0x10000 && sy < 0x10000 && sw < 0x10000 && sh < 0x10000
    ensures (forall win :: SixteenBits(win) && Tested(sx, sy, sw, sh, win) ==> Within(sw, sh, win)) <==> sx == 0 && sy == 0
  {
    var wide, high := Window(sw, 0, sx, 0), Window(0, sh, 0, sy);
    assert SixteenBits(wide) && Tested(sx, sy, sw, sh, wide);
    assert SixteenBits(high) && Tested(sx, sy, sw, sh, high);
  }

  /** What the loops ask for: the counters have sixteen bits, and the places they reach lie in memory; `img` and
      `dst` are the numbers of pixels there. */
  predicate Reaches(img: nat, sw: nat, win: Window, dst: nat) {
    && win.dy + win.dh < 0x10000 && win.dx + win.dw < 0x10000 && win.dw * win.dh <= dst
    && (win.dw == 0 || win.dh == 0 || (win.dy + win.dh - 1) * sw + win.dx + win.dw <= img)
  }

  function DstIndex(win: Window, row: nat, col: nat): (k: nat)
    requires Inside(win, row, col)
    ensures k < win.dw * win.dh
  {
    Place(row - win.dy, col - win.dx, win.dw, win.dh);
    (row - win.dy) * win.dw + (col - win.dx)
  }

  /** What becomes of the pixel in row `row` and column `col`. */
  function MixedAt(x: pixel, row: nat, col: nat, win: Window, dst: seq<pixel>, alpha: nat, delWhite: bool): pixel
    requires win.dw * win.dh <= |dst|
  {
    if !Inside(win, row, col) then x
    else
      var y := dst[DstIndex(win, row, col)];
      if delWhite && y == 0xFFFF then x else FastBlenderAlpha(x, y, alpha / 8)
  }

  predicate Image(src: seq<pixel>, sw: nat, sh: nat) {
    sw > 0 && |src| == sw * sh
  }

  function Mixed(src: seq<pixel>, sw: nat, sh: nat, win: Window, dst: seq<pixel>, alpha: nat, delWhite: bool): seq<pixel>
    requires Image(src, sw, sh) && win.dw * win.dh <= |dst|
  {
    seq(|src|, k requires 0 <= k < |src| => MixedAt(src[k], Row(k, sw), Column(k, sw), win, dst, alpha, delWhite))
  }

  /** The pixels in front of row `i` and column `j` are done. */
  predicate Done(sw: nat, k: nat, i: nat, j: nat)
    requires sw > 0
  {
    Row(k, sw) < i || (Row(k, sw) == i && Column(k, sw) < j)
  }

  ghost predicate MixedUpTo(now: seq<pixel>, src: seq<pixel>, sw: nat, sh: nat, win: Window, dst: seq<pixel>, alpha: nat, delWhite: bool, i: nat, j: nat) {
    && |now| == |src| && Image(src, sw, sh) && Within(sw, sh, win) && win.dw * win.dh <= |dst|
    && forall k :: 0 <= k < |src| ==>
      now[k] == if Done(sw, k, i, j) then MixedAt(src[k], Row(k, sw), Column(k, sw), win, dst, alpha, delWhite) else src[k]
  }

  lemma SamePlace(sw: nat, k: nat, l: nat)
    requires sw > 0 && Row(k, sw) == Row(l, sw) && Column(k, sw) == Column(l, sw)
    ensures k == l
  {
    Replace(k, sw);
    Replace(l, sw);
  }

  /** One pixel further. */
  lemma OneMixed(now: seq<pixel>, src: seq<pixel>, sw: nat, sh: nat, win: Window, dst: seq<pixel>, alpha: nat, delWhite: bool, i: nat, j: nat)
    requires MixedUpTo(now, src, sw, sh, win, dst, alpha, delWhite, i, j) && Inside(win, i, j)
    ensures var k := i * sw + j;
      && 0 <= k < |src| && now[k] == src[k]
      && MixedUpTo(now[k := MixedAt(now[k], i, j, win, dst, alpha, delWhite)], src, sw, sh, win, dst, alpha, delWhite, i, j + 1)
  {
    hide FastBlenderAlpha, DstIndex, MixedAt, Row, Column;
    var k := i * sw + j;
    Place(i, j, sw, sh);
    forall l: nat | l < |src| && Row(l, sw) == i && Column(l, sw) == j ensures l == k { SamePlace(sw, l, k); }
  }

  /** Columns to the left and to the right of the window, and rows above it, stay. */
  lemma NothingMixed(now: seq<pixel>, src: seq<pixel>, sw: nat, sh: nat, win: Window, dst: seq<pixel>, alpha: nat, delWhite: bool, i: nat, j: nat, i': nat, j': nat)
    requires MixedUpTo(now, src, sw, sh, win, dst, alpha, delWhite, i, j)
    requires (i' == i && j == 0 && j' == win.dx) || (i' == i + 1 && j == win.dx + win.dw && j' == 0)
    ensures MixedUpTo(now, src, sw, sh, win, dst, alpha, delWhite, i', j')
  {
    hide FastBlenderAlpha, DstIndex, Row, Column;
  }

  lemma StartMixed(src: seq<pixel>, sw: nat, sh: nat, win: Window, dst: seq<pixel>, alpha: nat, delWhite: bool)
    requires Image(src, sw, sh) && Within(sw, sh, win) && win.dw * win.dh <= |dst|
    ensures MixedUpTo(src, src, sw, sh, win, dst, alpha, delWhite, win.dy, 0)
  {
    hide FastBlenderAlpha, DstIndex, Row, Column;
  }

  lemma AllMixed(now: seq<pixel>, src: seq<pixel>, sw: nat, sh: nat, win: Window, dst: seq<pixel>, alpha: nat, delWhite: bool, j: nat)
    requires MixedUpTo(now, src, sw, sh, win, dst, alpha, delWhite, win.dy + win.dh, j)
    ensures now == Mixed(src, sw, sh, win, dst, alpha, delWhite)
  {
    hide FastBlenderAlpha, DstIndex, Row, Column;
  }

  /** The place the loops compute for row `i` and column `j`; a column behind the last one lies in a later row. */
  function At(sw: nat, i: nat, j: nat): nat {
    i * sw + j
  }

  lemma Reached(img: nat, sw: nat, win: Window, dst: nat, i: nat, j: nat)
    requires Reaches(img, sw, win, dst) && Inside(win, i, j)
    ensures At(sw, i, j) < img
  {
    Monotone(i, win.dy + win.dh - 1, sw);
  }

  lemma Supplied(img: nat, sw: nat, win: Window, dst: nat)
    requires Reaches(img, sw, win, dst)
    ensures win.dw * win.dh <= dst
  {
  }

  /** The two loops from row `i` and column `j` on. */
  function MixFrom(img: seq<pixel>, sw: nat, win: Window, dst: seq<pixel>, alpha: nat, delWhite: bool, i: nat, j: nat): (r: seq<pixel>)
    requires Reaches(|img|, sw, win, |dst|) && win.dy <= i <= win.dy + win.dh && win.dx <= j <= win.dx + win.dw
    ensures |r| == |img|
    decreases win.dy + win.dh - i, win.dx + win.dw - j
  {
    if i == win.dy + win.dh then img
    else if j == win.dx + win.dw then MixFrom(img, sw, win, dst, alpha, delWhite, i + 1, win.dx)
    else
      Reached(|img|, sw, win, |dst|, i, j);
      var k := At(sw, i, j);
      MixFrom(img[k := MixedAt(img[k], i, j, win, dst, alpha, delWhite)], sw, win, dst, alpha, delWhite, i, j + 1)
  }

  function MixAll(img: seq<pixel>, sw: nat, win: Window, dst: seq<pixel>, alpha: nat, delWhite: bool): (r: seq<pixel>)
    requires Reaches(|img|, sw, win, |dst|)
    ensures |r| == |img|
  {
    MixFrom(img, sw, win, dst, alpha, delWhite, win.dy, win.dx)
  }

  lemma {:induction false} MixFromIsMixed(now: seq<pixel>, src: seq<pixel>, sw: nat, sh: nat, win: Window, dst: seq<pixel>, alpha: nat, delWhite: bool, i: nat, j: nat)
    requires Reaches(|now|, sw, win, |dst|) && win.dy <= i <= win.dy + win.dh && win.dx <= j <= win.dx + win.dw
    requires MixedUpTo(now, src, sw, sh, win, dst, alpha, delWhite, i, j)
    ensures MixFrom(now, sw, win, dst, alpha, delWhite, i, j) == Mixed(src, sw, sh, win, dst, alpha, delWhite)
    decreases win.dy + win.dh - i, win.dx + win.dw - j
  {
    hide Mixed, MixedUpTo, MixedAt, Reaches;
    if i == win.dy + win.dh {
      AllMixed(now, src, sw, sh, win, dst, alpha, delWhite, j);
    } else if j == win.dx + win.dw {
      NothingMixed(now, src, sw, sh, win, dst, alpha, delWhite, i, j, i + 1, 0);
      NothingMixed(now, src, sw, sh, win, dst, alpha, delWhite, i + 1, 0, i + 1, win.dx);
      MixFromIsMixed(now, src, sw, sh, win, dst, alpha, delWhite, i + 1, win.dx);
    } else {
      OneMixed(now, src, sw, sh, win, dst, alpha, delWhite, i, j);
      var k := At(sw, i, j);
      Reached(|now|, sw, win, |dst|, i, j);
      Supplied(|now|, sw, win, |dst|);
      MixFromIsMixed(now[k := MixedAt(now[k], i, j, win, dst, alpha, delWhite)], src, sw, sh, win, dst, alpha, delWhite, i, j + 1);
    }
  }

  /** A window that lies in the picture is mixed pixel by pixel, and nothing else changes. */
  lemma MixedWithin(src: seq<pixel>, sw: nat, sh: nat, win: Window, dst: seq<pixel>, alpha: nat, delWhite: bool)
    requires Image(src, sw, sh) && Within(sw, sh, win) && Reaches(|src|, sw, win, |dst|)
    ensures MixAll(src, sw, win, dst, alpha, delWhite) == Mixed(src, sw, sh, win, dst, alpha, delWhite)
  {
    hide MixedUpTo, Mixed, MixFrom;
    StartMixed(src, sw, sh, win, dst, alpha, delWhite);
    NothingMixed(src, src, sw, sh, win, dst, alpha, delWhite, win.dy, 0, win.dy, win.dx);
    MixFromIsMixed(src, src, sw, sh, win, dst, alpha, delWhite, win.dy, win.dx);
  }

  lemma OneFurther(img: seq<pixel>, sw: nat, win: Window, dst: seq<pixel>, alpha: nat, delWhite: bool, i: nat, j: nat)
    requires Reaches(|img|, sw, win, |dst|) && Inside(win, i, j)
    ensures var k := At(sw, i, j);
      && k < |img| && win.dw * win.dh <= |dst|
      && MixFrom(img, sw, win, dst, alpha, delWhite, i, j)
         == MixFrom(img[k := MixedAt(img[k], i, j, win, dst, alpha, delWhite)], sw, win, dst, alpha, delWhite, i, j + 1)
  {
    hide MixedAt, Reaches, At;
    Reached(|img|, sw, win, |dst|, i, j);
    Supplied(|img|, sw, win, |dst|);
  }

  lemma NextRow(img: seq<pixel>, sw: nat, win: Window, dst: seq<pixel>, alpha: nat, delWhite: bool, i: nat)
    requires Reaches(|img|, sw, win, |dst|) && win.dy <= i < win.dy + win.dh
    ensures MixFrom(img, sw, win, dst, alpha, delWhite, i, win.dx + win.dw) == MixFrom(img, sw, win, dst, alpha, delWhite, i + 1, win.dx)
  {
    hide Reaches;
  }

  lemma NoRowLeft(img: seq<pixel>, sw: nat, win: Window, dst: seq<pixel>, alpha: nat, delWhite: bool)
    requires Reaches(|img|, sw, win, |dst|)
    ensures MixFrom(img, sw, win, dst, alpha, delWhite, win.dy + win.dh, win.dx) == img
  {
  }

  /** Row `p` and column `q` come at row `i` and column `j` or later. */
  predicate Later(p: nat, q: nat, i: nat, j: nat) {
    p > i || (p == i && q >= j)
  }

  lemma Apart(sw: nat, win: Window, i: nat, j: nat, p: nat, q: nat)
    requires win.dw <= sw && Inside(win, i, j) && Inside(win, p, q) && (i != p || j != q)
    ensures At(sw, i, j) != At(sw, p, q)
  {
    if i < p {
      Monotone(i + 1, p, sw);
    } else if p < i {
      Monotone(p + 1, i, sw);
    }
  }

  /** From row `i` and column `j` on, the place of a later row and column gets its pixel mixed once. */
  lemma {:induction false} MixedOnce(img: seq<pixel>, sw: nat, win: Window, dst: seq<pixel>, alpha: nat, delWhite: bool, i: nat, j: nat, p: nat, q: nat)
    requires Reaches(|img|, sw, win, |dst|) && win.dy <= i <= win.dy + win.dh && win.dx <= j <= win.dx + win.dw
    requires win.dw <= sw && Inside(win, p, q)
    ensures At(sw, p, q) < |img|
    ensures MixFrom(img, sw, win, dst, alpha, delWhite, i, j)[At(sw, p, q)]
         == var x := img[At(sw, p, q)]; if Later(p, q, i, j) then MixedAt(x, p, q, win, dst, alpha, delWhite) else x
    decreases win.dy + win.dh - i, win.dx + win.dw - j
  {
    hide MixedAt, Reaches, At;
    Reached(|img|, sw, win, |dst|, p, q);
    Supplied(|img|, sw, win, |dst|);
    if i == win.dy + win.dh {
    } else if j == win.dx + win.dw {
      MixedOnce(img, sw, win, dst, alpha, delWhite, i + 1, win.dx, p, q);
    } else {
      Reached(|img|, sw, win, |dst|, i, j);
      var k := At(sw, i, j);
      MixedOnce(img[k := MixedAt(img[k], i, j, win, dst, alpha, delWhite)], sw, win, dst, alpha, delWhite, i, j + 1, p, q);
      if i != p || j != q { Apart(sw, win, i, j, p, q); }
    }
  }

  /** A place that belongs to no row and column of the window is left alone. */
  lemma {:induction false} MixedNowhere(img: seq<pixel>, sw: nat, win: Window, dst: seq<pixel>, alpha: nat, delWhite: bool, i: nat, j: nat, k: nat)
    requires Reaches(|img|, sw, win, |dst|) && win.dy <= i <= win.dy + win.dh && win.dx <= j <= win.dx + win.dw
    requires k < |img| && forall p: nat, q: nat :: Inside(win, p, q) ==> At(sw, p, q) != k
    ensures MixFrom(img, sw, win, dst, alpha, delWhite, i, j)[k] == img[k]
    decreases win.dy + win.dh - i, win.dx + win.dw - j
  {
    hide MixedAt, Reaches, At;
    Supplied(|img|, sw, win, |dst|);
    if i == win.dy + win.dh {
    } else if j == win.dx + win.dw {
      MixedNowhere(img, sw, win, dst, alpha, delWhite, i + 1, win.dx, k);
    } else {
      Reached(|img|, sw, win, |dst|, i, j);
      var l := At(sw, i, j);
      assert Inside(win, i, j);
      MixedNowhere(img[l := MixedAt(img[l], i, j, win, dst, alpha, delWhite)], sw, win, dst, alpha, delWhite, i, j + 1, k);
    }
  }

  /** A window no wider than the picture, wherever it lies: each of its pixels is mixed once, into the pixel that many
      places behind the start of its row, so that columns behind the last one go on in the next row. */
  lemma EachOnce(img: seq<pixel>, sw: nat, win: Window, dst: seq<pixel>, alpha: nat, delWhite: bool, k: nat)
    requires Reaches(|img|, sw, win, |dst|) && win.dw <= sw && k < |img|
    ensures forall i: nat, j: nat :: Inside(win, i, j) && At(sw, i, j) == k ==>
      MixAll(img, sw, win, dst, alpha, delWhite)[k] == MixedAt(img[k], i, j, win, dst, alpha, delWhite)
    ensures (forall i: nat, j: nat :: Inside(win, i, j) ==> At(sw, i, j) != k) ==>
      MixAll(img, sw, win, dst, alpha, delWhite)[k] == img[k]
  {
    hide MixedAt, MixFrom, At;
    forall i: nat, j: nat | Inside(win, i, j) && At(sw, i, j) == k
      ensures MixAll(img, sw, win, dst, alpha, delWhite)[k] == MixedAt(img[k], i, j, win, dst, alpha, delWhite)
    {
      MixedOnce(img, sw, win, dst, alpha, delWhite, win.dy, win.dx, i, j);
    }
    if forall i: nat, j: nat :: Inside(win, i, j) ==> At(sw, i, j) != k {
      MixedNowhere(img, sw, win, dst, alpha, delWhite, win.dy, win.dx, k);
    }
  }

  /** `image_rgb565_mix_pic_with_alpha`. The test of the program compares with the size of the picture
      plus its offset; behind it the program relies on the places of the window being in memory. */
  method MixPicWithAlpha(img: array<pixel>, sx: nat, sy: nat, sw: nat, sh: nat, win: Window, dst: seq<pixel>, alpha: nat, delWhite: bool)
    requires Tested(sx, sy, sw, sh, win) ==> Reaches(img.Length, sw, win, |dst|)
    modifies img
    ensures img[..] ==
      if !Tested(sx, sy, sw, sh, win) then old(img[..])
      else MixAll(old(img[..]), sw, win, dst, alpha, delWhite)
  {
    if win.dx + win.dw > sw + sx || win.dh + win.dy > sh + sy {
      return;
    }
    hide MixFrom, MixedAt, FastBlenderAlpha, DstIndex, Reaches;
    for i := win.dy to win.dy + win.dh
      invariant MixFrom(img[..], sw, win, dst, alpha, delWhite, i, win.dx) == MixAll(old(img[..]), sw, win, dst, alpha, delWhite)
    {
      for j := win.dx to win.dx + win.dw
        invariant MixFrom(img[..], sw, win, dst, alpha, delWhite, i, j) == MixAll(old(img[..]), sw, win, dst, alpha, delWhite)
      {
        ghost var before, k := img[..], i * sw + j;
        OneFurther(before, sw, win, dst, alpha, delWhite, i, j);
        MixedIs(img[k], i, j, win, dst, alpha, delWhite);
        var y := dst[DstIndex(win, i, j)];
        if delWhite && y == 0xFFFF {
          assert before[k := before[k]] == before;
        } else {
          img[i * sw + j] := FastBlenderAlpha(img[i * sw + j], y, alpha / 8);
          assert img[..] == before[k := img[k]];
        }
      }
      NextRow(img[..], sw, win, dst, alpha, delWhite, i);
    }
    NoRowLeft(img[..], sw, win, dst, alpha, delWhite);
  }

  lemma MixedIs(x: pixel, row: nat, col: nat, win: Window, dst: seq<pixel>, alpha: nat, delWhite: bool)
    requires win.dw * win.dh <= |dst| && Inside(win, row, col)
    ensures DstIndex(win, row, col) < |dst|
    ensures MixedAt(x, row, col, win, dst, alpha, delWhite)
         == var y := dst[DstIndex(win, row, col)]; if delWhite && y == 0xFFFF then x else FastBlenderAlpha(x, y, alpha / 8)
  {
    hide DstIndex, FastBlenderAlpha;
  }

  /** `image_rgb565_mix_pic_with_alpha_lessmem`: the picture comes from the flash, one row at a time,
      and `del_white` is not looked at. `flash` is what the flash holds from the address on. */
  method MixPicWithAlphaLessMem(img: array<pixel>, sx: nat, sy: nat, sw: nat, sh: nat, win: Window, flash: seq<pixel>, alpha: nat, delWhite: bool)
    requires Tested(sx, sy, sw, sh, win) ==> Reaches(img.Length, sw, win, |flash|)
    modifies img
    ensures img[..] ==
      if !Tested(sx, sy, sw, sh, win) then old(img[..])
      else MixAll(old(img[..]), sw, win, flash, alpha, false)
  {
    if win.dx + win.dw > sw + sx || win.dh + win.dy > sh + sy {
      return;
    }
    hide MixFrom, MixedAt, FastBlenderAlpha, DstIndex, Reaches;
    for i := win.dy to win.dy + win.dh
      invariant MixFrom(img[..], sw, win, flash, alpha, false, i, win.dx) == MixAll(old(img[..]), sw, win, flash, alpha, false)
    {
      Supplied(img.Length, sw, win, |flash|);
      RowInside(win, i - win.dy, |flash|);
      var start := (i - win.dy) * win.dw;
      var row := flash[start..start + win.dw];
      for j := win.dx to win.dx + win.dw
        invariant MixFrom(img[..], sw, win, flash, alpha, false, i, j) == MixAll(old(img[..]), sw, win, flash, alpha, false)
      {
        ghost var before, k := img[..], i * sw + j;
        OneFurther(before, sw, win, flash, alpha, false, i, j);
        MixedIs(img[k], i, j, win, flash, alpha, false);
        assert DstIndex(win, i, j) == start + (j - win.dx) by { IndexInRow(win, i, j); }
        img[i * sw + j] := FastBlenderAlpha(img[i * sw + j], row[j - win.dx], alpha / 8);
        assert img[..] == before[k := img[k]];
      }
      NextRow(img[..], sw, win, flash, alpha, false, i);
    }
    NoRowLeft(img[..], sw, win, flash, alpha, false);
  }

  lemma RowInside(win: Window, r: nat, n: nat)
    requires r < win.dh && win.dw * win.dh <= n
    ensures 0 <= r * win.dw && r * win.dw + win.dw <= n
  {
    Monotone(r + 1, win.dh, win.dw);
  }

  lemma IndexInRow(win: Window, i: nat, j: nat)
    requires Inside(win, i, j)
    ensures DstIndex(win, i, j) == (i - win.dy) * win.dw + (j - win.dx)
  {
  }

  predicate White(y: pixel) {
    Red(y) == 0x1F && Green(y) == 0x3F && Blue(y) == 0x1F
  }

  lemma WhiteIs(y: pixel)
    ensures White(y) <==> y == 0xFFFF
  {
    Channels(y);
  }

  /** Pixels outside the window stay; inside, each channel is the exact weighted mean with the pixel in the same place of
      the window, which counts its rows from its own corner; with `delWhite` a white pixel there leaves the picture's. */
  lemma MixedPixel(src: seq<pixel>, sw: nat, sh: nat, win: Window, dst: seq<pixel>, alpha: nat, delWhite: bool, row: nat, col: nat)
    requires Image(src, sw, sh) && Within(sw, sh, win) && win.dw * win.dh <= |dst| && row < sh && col < sw && alpha < 264
    ensures var k := row * sw + col;
      && 0 <= k < |src|
      && var r := Mixed(src, sw, sh, win, dst, alpha, delWhite)[k];
      && (!Inside(win, row, col) ==> r == src[k])
      && (Inside(win, row, col) ==>
        var l := (row - win.dy) * win.dw + (col - win.dx);
        && 0 <= l < |dst|
        && var y := dst[l];
        if delWhite && White(y) then r == src[k]
        else
          && Red(r) == MixChannel(Red(src[k]), Red(y), alpha / 8)
          && Green(r) == MixChannel(Green(src[k]), Green(y), alpha / 8)
          && Blue(r) == MixChannel(Blue(src[k]), Blue(y), alpha / 8))
  {
    hide FastBlenderAlpha, MixChannel, Row, Column, Red, Green, Blue, Pack, White;
    Place(row, col, sw, sh);
    if Inside(win, row, col) {
      Place(row - win.dy, col - win.dx, win.dw, win.dh);
      var k, y := row * sw + col, dst[DstIndex(win, row, col)];
      WhiteIs(y);
      BlendIsExact(src[k], y, alpha / 8);
      Unpack(MixChannel(Red(src[k]), Red(y), alpha / 8), MixChannel(Green(src[k]), Green(y), alpha / 8), MixChannel(Blue(src[k]), Blue(y), alpha / 8));
    }
  }

  lemma Unpack(r: nat, g: nat, b: nat)
    requires r < 0x20 && g < 0x40 && b < 0x20
    ensures Red(Pack(r, g, b)) == r && Green(Pack(r, g, b)) == g && Blue(Pack(r, g, b)) == b
  {
    var x := Pack(r, g, b);
    Quotient(x, r, g * 0x20 + b, 0x800);
    Quotient(x, r * 0x40 + g, b, 0x20);
    Quotient(r * 0x40 + g, r, g, 0x40);
  }
}

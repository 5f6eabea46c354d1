/** The rotation of a picture by 90 degrees to the right (image_op.c), with a second buffer and in place.
    In place, two cycles of the permutation are walked, two steps at a time. */
module ImageRotate {

  import opened Division
  import opened ImageBlend

  datatype Size = Size(w: nat, h: nat)

  predicate Known(s: Size) {
    0 < s.w < 0x10000 && 0 < s.h < 0x10000
  }

  function Pixels(s: Size): nat {
    s.w * s.h
  }

  /** Where the pixel of place `i` goes: `h - 1 - i / w + (i % w) * h`. */
  function Next(s: Size, i: nat): (n: nat)
    requires Known(s) && i < Pixels(s)
    ensures n < Pixels(s)
    ensures Row(n, s.h) == Column(i, s.w) && Column(n, s.h) == s.h - 1 - Row(i, s.w)
  {
    RowBelow(i, s.w, s.h);
    Place(Column(i, s.w), s.h - 1 - Row(i, s.w), s.h, s.w);
    s.h - 1 - Row(i, s.w) + Column(i, s.w) * s.h
  }

  lemma RowBelow(i: nat, w: nat, h: nat)
    requires w > 0 && i < w * h
    ensures Row(i, w) < h
  {
    Replace(i, w);
    if Row(i, w) >= h { Monotone(h, Row(i, w), w); }
  }

  function Prev(s: Size, n: nat): (i: nat)
    requires Known(s) && n < Pixels(s)
    ensures i < Pixels(s)
    ensures Row(i, s.w) == s.h - 1 - Column(n, s.h) && Column(i, s.w) == Row(n, s.h)
  {
    RowBelow(n, s.h, s.w);
    Place(s.h - 1 - Column(n, s.h), Row(n, s.h), s.w, s.h);
    (s.h - 1 - Column(n, s.h)) * s.w + Row(n, s.h)
  }

  lemma SamePixel(a: nat, b: nat, w: nat)
    requires w > 0 && Row(a, w) == Row(b, w) && Column(a, w) == Column(b, w)
    ensures a == b
  {
    Replace(a, w);
    Replace(b, w);
  }

  lemma PrevNext(s: Size, i: nat)
    requires Known(s) && i < Pixels(s)
    ensures Prev(s, Next(s, i)) == i && Next(s, Prev(s, i)) == i
  {
    hide Row, Column, Next, Prev;
    SamePixel(Prev(s, Next(s, i)), i, s.w);
    SamePixel(Next(s, Prev(s, i)), i, s.h);
  }

  /** Places counted from one, a step multiplies by the height modulo one more than their number. */
  lemma NextIsMultiplication(s: Size, i: nat)
    requires Known(s) && i < Pixels(s)
    ensures Next(s, i) + 1 == (i + 1) * s.h % (Pixels(s) + 1)
  {
    var r, c := Row(i, s.w), Column(i, s.w);
    Replace(i, s.w);
    hide Row, Column;
    Expand(r, c, s.w, s.h);
    Quotient((i + 1) * s.h, r, Next(s, i) + 1, Pixels(s) + 1);
  }

  lemma Expand(r: nat, c: nat, w: nat, h: nat)
    ensures (r * w + c + 1) * h == r * (w * h + 1) + (h - 1 - r + c * h + 1)
  {
    assert (r * w + c + 1) * h == r * w * h + c * h + h;
    assert r * w * h == r * (w * h);
  }

  // ----- the rotated picture -----

  predicate Picture(s: Size, buf: seq<pixel>) {
    Known(s) && |buf| == Pixels(s)
  }

  function Rotated(s: Size, buf: seq<pixel>): (r: seq<pixel>)
    requires Picture(s, buf)
    ensures Picture(s, r)
  {
    seq(Pixels(s), k requires 0 <= k < Pixels(s) => buf[Prev(s, k)])
  }

  /** Row `j` from below of column `i` becomes column `j` of row `i`. */
  lemma RotatedAt(s: Size, buf: seq<pixel>, i: nat, j: nat)
    requires Picture(s, buf) && i < s.w && j < s.h
    ensures 0 <= i * s.h + j < Pixels(s) && 0 <= (s.h - 1 - j) * s.w + i < Pixels(s)
    ensures Rotated(s, buf)[i * s.h + j] == buf[(s.h - 1 - j) * s.w + i]
  {
    hide Row, Column;
    Place(i, j, s.h, s.w);
    Place(s.h - 1 - j, i, s.w, s.h);
    SamePixel(Prev(s, i * s.h + j), (s.h - 1 - j) * s.w + i, s.w);
  }

  /** `image_rgb565_roate_right90`: the inner loop writes two pixels; the height must be even. */
  method RotateRight90(s: Size, out: array<pixel>, src: seq<pixel>)
    requires Picture(s, src) && out.Length == Pixels(s) && s.h % 2 == 0
    modifies out
    ensures out[..] == Rotated(s, src)
  {
    hide Row, Column, Rotated, Prev;
    for i := 0 to s.w
      invariant forall k: nat :: k < Pixels(s) && Row(k, s.h) < i ==> out[k] == Rotated(s, src)[k]
    {
      for j := 0 to s.h / 2
        invariant forall k: nat :: k < Pixels(s) && Row(k, s.h) < i ==> out[k] == Rotated(s, src)[k]
        invariant forall k: nat :: k < Pixels(s) && Row(k, s.h) == i && Column(k, s.h) < 2 * j ==> out[k] == Rotated(s, src)[k]
      {
        RotatedAt(s, src, i, 2 * j);
        RotatedAt(s, src, i, 2 * j + 1);
        Place(i, 2 * j, s.h, s.w);
        Place(i, 2 * j + 1, s.h, s.w);
        out[i * s.h + (j * 2 + 0)] := src[(s.h - 1 - (j * 2 + 0)) * s.w + i];
        out[i * s.h + (j * 2 + 1)] := src[(s.h - 1 - (j * 2 + 1)) * s.w + i];
        forall k: nat | k < Pixels(s) && Row(k, s.h) == i && 2 * j <= Column(k, s.h) < 2 * j + 2
          ensures k == i * s.h + 2 * j || k == i * s.h + 2 * j + 1
        {
          Replace(k, s.h);
        }
      }
    }
    forall k: nat | k < Pixels(s) ensures Row(k, s.h) < s.w { RowBelow(k, s.h, s.w); }
  }
}

/** The two zigzag tables: the encoder maps a coefficient of the 8x8 block to its place in the scan,
    the decoder maps a place in the scan back (Figure A.6 of ITU-T T.81). */
module JpegZigZag {

  /** `s_jpeg_ZigZag` of jpeg_encode.c. */
  function ZigZag(i: nat): (r: nat)
    requires i < 64
    ensures r < 64
  {
    match i
    case 0 => 0 case 1 => 1 case 2 => 5 case 3 => 6
    case 4 => 14 case 5 => 15 case 6 => 27 case 7 => 28
    case 8 => 2 case 9 => 4 case 10 => 7 case 11 => 13
    case 12 => 16 case 13 => 26 case 14 => 29 case 15 => 42
    case 16 => 3 case 17 => 8 case 18 => 12 case 19 => 17
    case 20 => 25 case 21 => 30 case 22 => 41 case 23 => 43
    case 24 => 9 case 25 => 11 case 26 => 18 case 27 => 24
    case 28 => 31 case 29 => 40 case 30 => 44 case 31 => 53
    case 32 => 10 case 33 => 19 case 34 => 23 case 35 => 32
    case 36 => 39 case 37 => 45 case 38 => 52 case 39 => 54
    case 40 => 20 case 41 => 22 case 42 => 33 case 43 => 38
    case 44 => 46 case 45 => 51 case 46 => 55 case 47 => 60
    case 48 => 21 case 49 => 34 case 50 => 37 case 51 => 47
    case 52 => 50 case 53 => 56 case 54 => 59 case 55 => 61
    case 56 => 35 case 57 => 36 case 58 => 48 case 59 => 49
    case 60 => 57 case 61 => 58 case 62 => 62
    case _ => 63
  }

  /** `ZAG` of picojpeg.c. */
  function Zag(i: nat): (r: nat)
    requires i < 64
    ensures r < 64
  {
    match i
    case 0 => 0 case 1 => 1 case 2 => 8 case 3 => 16
    case 4 => 9 case 5 => 2 case 6 => 3 case 7 => 10
    case 8 => 17 case 9 => 24 case 10 => 32 case 11 => 25
    case 12 => 18 case 13 => 11 case 14 => 4 case 15 => 5
    case 16 => 12 case 17 => 19 case 18 => 26 case 19 => 33
    case 20 => 40 case 21 => 48 case 22 => 41 case 23 => 34
    case 24 => 27 case 25 => 20 case 26 => 13 case 27 => 6
    case 28 => 7 case 29 => 14 case 30 => 21 case 31 => 28
    case 32 => 35 case 33 => 42 case 34 => 49 case 35 => 56
    case 36 => 57 case 37 => 50 case 38 => 43 case 39 => 36
    case 40 => 29 case 41 => 22 case 42 => 15 case 43 => 23
    case 44 => 30 case 45 => 37 case 46 => 44 case 47 => 51
    case 48 => 58 case 49 => 59 case 50 => 52 case 51 => 45
    case 52 => 38 case 53 => 31 case 54 => 39 case 55 => 46
    case 56 => 53 case 57 => 60 case 58 => 61 case 59 => 54
    case 60 => 47 case 61 => 55 case 62 => 62
    case _ => 63
  }

  lemma ZagZigZagBelow24(i: nat)
    requires i < 24
    ensures Zag(ZigZag(i)) == i
  {
  }

  lemma ZagZigZagBelow44(i: nat)
    requires 24 <= i < 44
    ensures Zag(ZigZag(i)) == i
  {
  }

  lemma ZagZigZagBelow64(i: nat)
    requires 44 <= i < 64
    ensures Zag(ZigZag(i)) == i
  {
  }

  lemma ZigZagZagBelow24(i: nat)
    requires i < 24
    ensures ZigZag(Zag(i)) == i
  {
  }

  lemma ZigZagZagBelow44(i: nat)
    requires 24 <= i < 44
    ensures ZigZag(Zag(i)) == i
  {
  }

  lemma ZigZagZagBelow64(i: nat)
    requires 44 <= i < 64
    ensures ZigZag(Zag(i)) == i
  {
  }

  /** The tables were written down separately, and they are inverse to each other. */
  lemma ZigZagInverse(i: nat)
    requires i < 64
    ensures Zag(ZigZag(i)) == i && ZigZag(Zag(i)) == i
  {
    hide Zag, ZigZag;
    if i < 24 {
      ZagZigZagBelow24(i);
      ZigZagZagBelow24(i);
    } else if i < 44 {
      ZagZigZagBelow44(i);
      ZigZagZagBelow44(i);
    } else {
      ZagZigZagBelow64(i);
      ZigZagZagBelow64(i);
    }
  }

  // ----- the path of Figure A.6 -----

  /** A row and a column of the block. */
  datatype Square = Square(row: nat, column: nat)

  predicate OnBoard(s: Square) {
    s.row < 8 && s.column < 8
  }

  /** One step along the diagonals: upwards to the right where row and column make an even sum, downwards to the left
      where they make an odd one, and along the edge where the diagonal ends. */
  function Onward(s: Square): Square {
    var r, c := s.row, s.column;
    if (r + c) % 2 == 0 then
      if c == 7 then Square(r + 1, c) else if r == 0 then Square(r, c + 1) else Square(r - 1, c + 1)
    else
      if r == 7 then Square(r, c + 1) else if c == 0 then Square(r + 1, c) else Square(r + 1, c - 1)
  }

  /** Where the path is after `k` steps from the corner. */
  function OnPath(k: nat): Square {
    if k == 0 then Square(0, 0) else Onward(OnPath(k - 1))
  }

  /** The place of the block, row by row. */
  function PathPlace(k: nat): (place: nat)
    requires k < 64
    ensures place < 64
  {
    TablesFollowPath(k);
    8 * OnPath(k).row + OnPath(k).column
  }

  function SquareOf(place: nat): Square {
    Square(place / 8, place % 8)
  }

  lemma StepOfPathBelow16(k: nat)
    requires k < 16
    ensures OnBoard(SquareOf(Zag(k))) && SquareOf(Zag(k + 1)) == Onward(SquareOf(Zag(k)))
  {
  }

  lemma StepOfPathBelow32(k: nat)
    requires 16 <= k < 32
    ensures OnBoard(SquareOf(Zag(k))) && SquareOf(Zag(k + 1)) == Onward(SquareOf(Zag(k)))
  {
  }

  lemma StepOfPathBelow48(k: nat)
    requires 32 <= k < 48
    ensures OnBoard(SquareOf(Zag(k))) && SquareOf(Zag(k + 1)) == Onward(SquareOf(Zag(k)))
  {
  }

  lemma StepOfPathBelow64(k: nat)
    requires 48 <= k < 63
    ensures OnBoard(SquareOf(Zag(k))) && SquareOf(Zag(k + 1)) == Onward(SquareOf(Zag(k)))
  {
  }

  /** The decoder's table goes along the path. */
  lemma StepOfPath(k: nat)
    requires k < 63
    ensures OnBoard(SquareOf(Zag(k))) && SquareOf(Zag(k + 1)) == Onward(SquareOf(Zag(k)))
  {
    hide Zag, Onward, SquareOf, OnBoard;
    if k < 16 { StepOfPathBelow16(k); } else if k < 32 { StepOfPathBelow32(k); } else if k < 48 { StepOfPathBelow48(k); } else { StepOfPathBelow64(k); }
  }

  /** Both tables, by the path alone. */
  lemma {:induction false} TablesFollowPath(k: nat)
    requires k < 64
    ensures var s := OnPath(k);
      s.row < 8 && s.column < 8 && Zag(k) == 8 * s.row + s.column && ZigZag(8 * s.row + s.column) == k
  {
    PathIsZag(k);
    hide Zag, ZigZag, OnPath;
    ZigZagInverse(k);
  }

  lemma {:induction false} PathIsZag(k: nat)
    requires k < 64
    ensures OnPath(k) == SquareOf(Zag(k))
  {
    hide Onward;
    if k > 0 {
      PathIsZag(k - 1);
      StepOfPath(k - 1);
    }
  }
}

/** The in-place rotation (image_op.c): it walks the cycles of the places 0 and 10. Exactly when they
    can be walked two steps at a time, are different, and leave out no place that moves, the result is
    the rotated picture for every picture. */
module ImageInPlace {

  import opened Division
  import opened ImageBlend
  import opened ImageRotate
  import opened ImageCycles

  /** The buffer, the pixel in hand, and the place it comes from. */
  datatype Walker = Walker(buf: seq<pixel>, t: pixel, i: nat)

  predicate Walking(s: Size, v: Walker) {
    Picture(s, v.buf) && v.i < Pixels(s)
  }

  /** `LOOP_UNIT`. */
  function Step(s: Size, v: Walker): (r: Walker)
    requires Walking(s, v)
    ensures Walking(s, r)
  {
    var next := Next(s, v.i);
    Walker(v.buf[next := v.t], v.buf[next], next)
  }

  function Steps(s: Size, v: Walker, n: nat): (r: Walker)
    requires Walking(s, v)
    ensures Walking(s, r)
  {
    if n == 0 then v else Step(s, Steps(s, v, n - 1))
  }

  function Start(s: Size, buf: seq<pixel>, x: nat): (v: Walker)
    requires Picture(s, buf) && x < Pixels(s)
    ensures Walking(s, v)
  {
    Walker(buf, buf[x], x)
  }

  /** The first even number of steps that ends where the walk began. */
  ghost function Total(s: Size, x: nat): (n: nat)
    requires IsPlace(s, x)
    ensures n > 0 && n % 2 == 0
  {
    var l := Period(s, x);
    if l % 2 == 0 then l else 2 * l
  }

  ghost function Walk(s: Size, buf: seq<pixel>, x: nat): (r: seq<pixel>)
    requires Picture(s, buf) && x < Pixels(s)
    ensures Picture(s, r)
  {
    Steps(s, Start(s, buf, x), Total(s, x)).buf
  }

  lemma {:induction false} StepsPlace(s: Size, v: Walker, n: nat)
    requires Walking(s, v)
    ensures Steps(s, v, n).i == Iter(s, v.i, n)
  {
    if n > 0 { StepsPlace(s, v, n - 1); }
  }

  lemma TwoSteps(s: Size, v: Walker, n: nat)
    requires Walking(s, v)
    ensures Steps(s, v, 0) == v && Steps(s, v, n + 2) == Step(s, Step(s, Steps(s, v, n)))
  {
    assert Steps(s, v, n + 1) == Step(s, Steps(s, v, n));
  }

  /** The walk is not back before `Total` steps if only even numbers of steps are looked at. */
  lemma BackOnlyAtTotal(s: Size, x: nat, n: nat)
    requires IsPlace(s, x) && 0 < n < Total(s, x) && n % 2 == 0
    ensures Iter(s, x, n) != x
  {
    hide Iter, Period;
    var l := Period(s, x);
    if n < l {
      NotYet(s, x, l, n);
    } else {
      assert 0 < n - l < l;
      NotYet(s, x, l, n - l);
      Round(s, x, n - l);
    }
  }

  lemma BackAtTotal(s: Size, x: nat)
    requires IsPlace(s, x)
    ensures Iter(s, x, Total(s, x)) == x
  {
    hide Iter, Period;
    Round(s, x, Period(s, x));
  }

  /** `I_UNIT`. */
  method WalkCycle(s: Size, buf: array<pixel>, x: nat)
    requires Picture(s, buf[..]) && x < Pixels(s)
    modifies buf
    ensures buf[..] == Walk(s, old(buf[..]), x)
  {
    hide Iter, Period, Step, Steps, Row, Column, Total;
    ghost var start := Start(s, buf[..], x);
    ghost var n: nat := 2;
    var i: nat, t: pixel := x, buf[x];
    TwoSteps(s, start, 0);
    i, t := LoopUnit(s, buf, i, t);
    i, t := LoopUnit(s, buf, i, t);
    StepsPlace(s, start, 2);
    while i != x
      invariant Picture(s, buf[..]) && i < Pixels(s)
      invariant 0 < n <= Total(s, x) && n % 2 == 0
      invariant Walker(buf[..], t, i) == Steps(s, start, n) && i == Iter(s, x, n)
      decreases Total(s, x) - n
    {
      BackAtTotal(s, x);
      TwoSteps(s, start, n);
      i, t := LoopUnit(s, buf, i, t);
      i, t := LoopUnit(s, buf, i, t);
      n := n + 2;
      StepsPlace(s, start, n);
    }
    if n < Total(s, x) { BackOnlyAtTotal(s, x, n); }
  }

  method LoopUnit(s: Size, buf: array<pixel>, i0: nat, t0: pixel) returns (i: nat, t: pixel)
    requires Walking(s, Walker(buf[..], t0, i0))
    modifies buf
    ensures Walker(buf[..], t, i) == Step(s, old(Walker(buf[..], t0, i0)))
  {
    var next := s.h - 1 - i0 / s.w + i0 % s.w * s.h;
    assert next == Next(s, i0);
    ghost var before := buf[..];
    var tmp := buf[next];
    buf[next] := t0;
    t := tmp;
    i := next;
    assert buf[..] == before[next := t0];
  }

  // ----- one round -----

  predicate NotMet(s: Size, x: nat, p: nat, n: nat)
    requires IsPlace(s, x)
  {
    forall j :: 1 <= j <= n ==> Iter(s, x, j) != p
  }

  /** After `n` steps of the first round every place that was met has the pixel of the place before. */
  predicate Moved(s: Size, buf: seq<pixel>, x: nat, n: nat, b: seq<pixel>)
    requires Picture(s, buf) && IsPlace(s, x)
  {
    && Picture(s, b)
    && (forall k :: 1 <= k <= n ==> b[Iter(s, x, k)] == buf[Iter(s, x, k - 1)])
    && (forall p :: 0 <= p < Pixels(s) && NotMet(s, x, p, n) ==> b[p] == buf[p])
  }

  lemma {:induction false} FirstRound(s: Size, buf: seq<pixel>, x: nat, n: nat)
    requires Picture(s, buf) && IsPlace(s, x) && n <= Period(s, x)
    ensures var v := Steps(s, Start(s, buf, x), n);
      v.i == Iter(s, x, n) && v.t == buf[Iter(s, x, n)] && Moved(s, buf, x, n, v.buf)
  {
    hide Next, Row, Column, Period;
    if n > 0 {
      FirstRound(s, buf, x, n - 1);
      var v := Steps(s, Start(s, buf, x), n - 1);
      var next := Iter(s, x, n);
      forall j | 1 <= j < n ensures Iter(s, x, j) != next { DifferentLater(s, x, j, n); }
      forall p | 0 <= p < Pixels(s) && NotMet(s, x, p, n) ensures NotMet(s, x, p, n - 1) && p != next {
      }
    }
  }

  lemma DifferentLater(s: Size, x: nat, i: nat, j: nat)
    requires IsPlace(s, x) && 1 <= i < j <= Period(s, x)
    ensures Iter(s, x, i) != Iter(s, x, j)
  {
    hide Iter, Period, Next;
    if j == Period(s, x) {
      NotYet(s, x, j, i);
    } else {
      AllDifferent(s, x, Period(s, x), i, j);
    }
  }

  // ----- a walk that works -----

  /** The pixels of the cycle of `x` are where they belong, and all others where they were. */
  ghost predicate Turned(s: Size, buf: seq<pixel>, x: nat, b: seq<pixel>)
    requires Picture(s, buf) && IsPlace(s, x)
  {
    && Picture(s, b)
    && (forall p: nat :: p < Pixels(s) && InOrbit(s, x, p) ==> b[Next(s, p)] == buf[p])
    && (forall p: nat :: p < Pixels(s) && !InOrbit(s, x, p) ==> b[p] == buf[p])
  }

  lemma RoundTurns(s: Size, buf: seq<pixel>, x: nat, b: seq<pixel>)
    requires Picture(s, buf) && IsPlace(s, x) && Moved(s, buf, x, Period(s, x), b)
    ensures Turned(s, buf, x, b)
  {
    hide Period, Next;
    var l := Period(s, x);
    forall p: nat | p < Pixels(s) && InOrbit(s, x, p) ensures b[Next(s, p)] == buf[p] {
      var k: nat :| k < l && p == Iter(s, x, k);
      assert b[Iter(s, x, k + 1)] == buf[Iter(s, x, k + 1 - 1)];
    }
    forall p: nat | p < Pixels(s) && !InOrbit(s, x, p) ensures NotMet(s, x, p, l) {
      forall j | 1 <= j <= l ensures Iter(s, x, j) != p { IterInOrbit(s, x, j); }
    }
  }

  predicate Walkable(l: nat) {
    l % 2 == 0 || l == 1
  }

  lemma {:induction false} StepsAdd(s: Size, v: Walker, m: nat, n: nat)
    requires Walking(s, v)
    ensures Steps(s, Steps(s, v, m), n) == Steps(s, v, m + n)
  {
    hide Step;
    if n > 0 { StepsAdd(s, v, m, n - 1); }
  }

  lemma WalkTurns(s: Size, buf: seq<pixel>, x: nat)
    requires Picture(s, buf) && IsPlace(s, x) && Walkable(Period(s, x))
    ensures Turned(s, buf, x, Walk(s, buf, x))
  {
    hide Period, Next, Iter, Steps, Turned, Moved;
    var l := Period(s, x);
    FirstRound(s, buf, x, l);
    var v := Steps(s, Start(s, buf, x), l);
    RoundTurns(s, buf, x, v.buf);
    if l == 1 {
      NothingMoves(s, buf, x, v.buf);
      StepsAdd(s, Start(s, buf, x), 1, 1);
    }
  }

  lemma NothingMoves(s: Size, buf: seq<pixel>, x: nat, b: seq<pixel>)
    requires Picture(s, buf) && IsPlace(s, x) && Period(s, x) == 1 && Turned(s, buf, x, b)
    ensures b == buf
  {
    hide Period, Next;
    assert Iter(s, x, 1) == x && Next(s, Iter(s, x, 0)) == x;
    forall p: nat | p < Pixels(s) ensures b[p] == buf[p] {
      if InOrbit(s, x, p) {
        var k: nat :| k < 1 && p == Iter(s, x, k);
      }
    }
  }

  // ----- a walk that does not: the second round of an odd cycle -----

  /** The state `k` steps into the second round. */
  predicate Lost(s: Size, buf: seq<pixel>, x: nat, k: nat, v: Walker)
    requires Picture(s, buf) && IsPlace(s, x)
  {
    && Walking(s, v) && k >= 1 && v.i == Iter(s, x, k) && v.t == buf[Iter(s, x, k - 1)] && v.buf[Iter(s, x, 1)] == buf[x]
    && (forall j :: 2 <= j <= k ==> v.buf[Iter(s, x, j)] == buf[Iter(s, x, j - 2)])
  }

  ghost predicate Kept(s: Size, buf: seq<pixel>, x: nat, k: nat, v: Walker)
    requires Picture(s, buf) && IsPlace(s, x)
  {
    && Walking(s, v)
    && (forall j :: k < j <= Period(s, x) ==> v.buf[Iter(s, x, j)] == buf[Iter(s, x, j - 1)])
    && (forall p :: 0 <= p < Pixels(s) && NotMet(s, x, p, Period(s, x)) ==> v.buf[p] == buf[p])
  }

  lemma SecondRoundBegins(s: Size, buf: seq<pixel>, x: nat, v: Walker)
    requires Picture(s, buf) && IsPlace(s, x) && Walking(s, v)
    requires v.i == x && v.t == buf[x] && Moved(s, buf, x, Period(s, x), v.buf)
    ensures Lost(s, buf, x, 1, Step(s, v)) && Kept(s, buf, x, 1, Step(s, v))
  {
    hide Next, Row, Column, Period;
    var l := Period(s, x);
    assert Iter(s, x, 1) == Next(s, x);
    assert v.buf[Iter(s, x, 1)] == buf[Iter(s, x, 1 - 1)];
    forall j | 1 < j <= l ensures Iter(s, x, j) != Iter(s, x, 1) { DifferentLater(s, x, 1, j); }
  }

  lemma SecondRoundGoesOn(s: Size, buf: seq<pixel>, x: nat, k: nat, v: Walker)
    requires Picture(s, buf) && IsPlace(s, x) && 1 < k <= Period(s, x)
    requires Lost(s, buf, x, k - 1, v) && Kept(s, buf, x, k - 1, v)
    ensures Lost(s, buf, x, k, Step(s, v)) && Kept(s, buf, x, k, Step(s, v))
  {
    hide Next, Row, Column, Period;
    var l := Period(s, x);
    var next := Iter(s, x, k);
    assert v.buf[next] == buf[Iter(s, x, k - 1)];
    forall j | 1 <= j <= l && j != k ensures Iter(s, x, j) != next {
      if j < k { DifferentLater(s, x, j, k); } else { DifferentLater(s, x, k, j); }
    }
    var w := Step(s, v);
    assert w.i == next && w.buf == v.buf[next := v.t];
    hide Iter, Step;
  }

  lemma {:induction false} SecondRound(s: Size, buf: seq<pixel>, x: nat, k: nat)
    requires Picture(s, buf) && IsPlace(s, x) && 1 <= k <= Period(s, x)
    ensures var v := Steps(s, Start(s, buf, x), Period(s, x) + k); Lost(s, buf, x, k, v) && Kept(s, buf, x, k, v)
  {
    hide Next, Period, Iter, Lost, Kept, Moved, Step;
    var l := Period(s, x);
    var start := Start(s, buf, x);
    if k == 1 {
      FirstRound(s, buf, x, l);
      SecondRoundBegins(s, buf, x, Steps(s, start, l));
      assert Steps(s, start, l + 1) == Step(s, Steps(s, start, l));
    } else {
      SecondRound(s, buf, x, k - 1);
      SecondRoundGoesOn(s, buf, x, k, Steps(s, start, l + (k - 1)));
      assert Steps(s, start, l + k) == Step(s, Steps(s, start, l + (k - 1)));
    }
  }

  function Single(s: Size, q: nat): (r: seq<pixel>)
    requires IsPlace(s, q)
    ensures Picture(s, r)
  {
    seq(Pixels(s), p => if p == q then 1 else 0)
  }

  function Black(s: Size): (r: seq<pixel>)
    requires Known(s)
    ensures Picture(s, r)
  {
    seq(Pixels(s), _ => 0)
  }

  lemma LostPixel(s: Size, x: nat, j: nat, v: Walker)
    requires IsPlace(s, x) && !Walkable(Period(s, x)) && 1 <= j <= Period(s, x)
    requires Lost(s, Single(s, Iter(s, x, Period(s, x) - 1)), x, Period(s, x), v)
    ensures v.buf[Iter(s, x, j)] == 0
  {
    hide Period, Iter, Next;
    var l := Period(s, x);
    if j == 1 {
      NotYet(s, x, l, l - 1);
    } else {
      AllDifferent(s, x, l, j - 2, l - 1);
    }
  }

  /** The pixel in front of the beginning of an odd cycle is lost. */
  lemma OddCycleLoses(s: Size, x: nat)
    requires IsPlace(s, x) && !Walkable(Period(s, x))
    ensures Walk(s, Single(s, Iter(s, x, Period(s, x) - 1)), x) == Black(s)
  {
    hide Next, Period, Iter, Lost, Steps, Step;
    var l := Period(s, x);
    var q := Iter(s, x, l - 1);
    var buf := Single(s, q);
    SecondRound(s, buf, x, l);
    var v := Steps(s, Start(s, buf, x), l + l);
    forall p: nat | p < Pixels(s) ensures v.buf[p] == 0 {
      if NotMet(s, x, p, l) {
        assert p != q;
      } else {
        var j :| 1 <= j <= l && Iter(s, x, j) == p;
        LostPixel(s, x, j, v);
      }
    }
    assert v.buf == Black(s);
  }

  // ----- both walks -----

  /** `image_rgb565_roate_right90_lessmem` walks from these two places. */
  const FIRST := 0
  const SECOND := 10

  ghost function InPlace(s: Size, buf: seq<pixel>): (r: seq<pixel>)
    requires Picture(s, buf) && Pixels(s) > SECOND
    ensures Picture(s, r)
  {
    Walk(s, Walk(s, buf, FIRST), SECOND)
  }

  method RotateRight90LessMem(s: Size, buf: array<pixel>)
    requires Picture(s, buf[..]) && Pixels(s) > SECOND
    modifies buf
    ensures buf[..] == InPlace(s, old(buf[..]))
  {
    WalkCycle(s, buf, FIRST);
    WalkCycle(s, buf, SECOND);
  }

  /** The two cycles can be walked, are different, and leave out only places that stay. */
  ghost predicate TwoCycles(s: Size)
    requires Known(s) && Pixels(s) > SECOND
  {
    && Walkable(Period(s, FIRST)) && Walkable(Period(s, SECOND)) && !InOrbit(s, FIRST, SECOND)
    && forall p: nat :: p < Pixels(s) && Next(s, p) != p ==> InOrbit(s, FIRST, p) || InOrbit(s, SECOND, p)
  }

  lemma PixelComesFrom(s: Size, buf: seq<pixel>, p: nat)
    requires Picture(s, buf) && p < Pixels(s)
    ensures Rotated(s, buf)[Next(s, p)] == buf[p]
  {
    hide Next, Prev;
    PrevNext(s, p);
  }

  /** Both cycles turned, the picture is rotated. */
  lemma TwoCyclesRotate(s: Size, buf: seq<pixel>)
    requires Picture(s, buf) && Pixels(s) > SECOND && TwoCycles(s)
    ensures InPlace(s, buf) == Rotated(s, buf)
  {
    hide Next, Prev, Period, Walk, Rotated, InOrbit;
    var a := Walk(s, buf, FIRST);
    var b := Walk(s, a, SECOND);
    WalkTurns(s, buf, FIRST);
    WalkTurns(s, a, SECOND);
    forall k: nat | k < Pixels(s) ensures b[k] == Rotated(s, buf)[k] {
      var p := Prev(s, k);
      PrevNext(s, k);
      PixelComesFrom(s, buf, p);
      if InOrbit(s, FIRST, p) {
        OrbitClosed(s, FIRST, p);
        NotInBoth(s, FIRST, SECOND, k);
      } else if InOrbit(s, SECOND, p) {
      } else {
      }
    }
  }

  lemma NotInBoth(s: Size, x: nat, y: nat, p: nat)
    requires IsPlace(s, x) && IsPlace(s, y) && !InOrbit(s, x, y) && InOrbit(s, x, p)
    ensures !InOrbit(s, y, p)
  {
    hide InOrbit;
    if InOrbit(s, y, p) { OrbitsMeet(s, x, y, p); }
  }

  // ----- why both conditions are needed -----

  lemma {:induction false} WalkBlack(s: Size, x: nat)
    requires IsPlace(s, x)
    ensures Walk(s, Black(s), x) == Black(s)
  {
    StepsBlack(s, x, Total(s, x));
  }

  lemma {:induction false} StepsBlack(s: Size, x: nat, n: nat)
    requires IsPlace(s, x)
    ensures var v := Steps(s, Start(s, Black(s), x), n); v.buf == Black(s) && v.t == 0
  {
    hide Next;
    if n > 0 { StepsBlack(s, x, n - 1); }
  }

  /** A walk changes nothing outside its cycle, whatever it does inside. */
  lemma {:induction false} StepsOutside(s: Size, buf: seq<pixel>, x: nat, n: nat, p: nat)
    requires Picture(s, buf) && IsPlace(s, x) && p < Pixels(s) && !InOrbit(s, x, p)
    ensures Steps(s, Start(s, buf, x), n).buf[p] == buf[p]
  {
    hide Next, InOrbit;
    if n > 0 {
      StepsOutside(s, buf, x, n - 1, p);
      StepsPlace(s, Start(s, buf, x), n - 1);
      IterInOrbit(s, x, n);
    }
  }

  /** In a cycle that holds only black pixels a walk changes nothing. */
  lemma {:induction false} StepsInBlack(s: Size, buf: seq<pixel>, x: nat, n: nat)
    requires Picture(s, buf) && IsPlace(s, x) && forall p: nat :: p < Pixels(s) && InOrbit(s, x, p) ==> buf[p] == 0
    ensures var v := Steps(s, Start(s, buf, x), n); v.buf == buf && v.t == 0
  {
    hide Next, InOrbit;
    IterInOrbit(s, x, n);
    if n > 0 {
      StepsInBlack(s, buf, x, n - 1);
      StepsPlace(s, Start(s, buf, x), n - 1);
    } else {
      IterInOrbit(s, x, 0);
    }
  }

  /** If the condition does not hold, a picture with one white pixel comes out wrong. */
  lemma SomePictureFails(s: Size) returns (q: nat)
    requires Known(s) && Pixels(s) > SECOND && !TwoCycles(s)
    ensures q < Pixels(s) && InPlace(s, Single(s, q)) != Rotated(s, Single(s, q))
  {
    hide Next, Prev, Period, Walk, Rotated, InOrbit, Single, Iter;
    if !Walkable(Period(s, FIRST)) {
      q := OddFails(s, FIRST);
      OddCycleLoses(s, FIRST);
      WalkBlack(s, SECOND);
    } else if InOrbit(s, FIRST, SECOND) {
      q := FIRST;
      SameCycleFails(s);
    } else if !Walkable(Period(s, SECOND)) {
      q := OddFails(s, SECOND);
      OddCycleLoses(s, SECOND);
      OtherCycleKeeps(s, q);
    } else {
      q :| q < Pixels(s) && Next(s, q) != q && !InOrbit(s, FIRST, q) && !InOrbit(s, SECOND, q);
      LeftOutFails(s, q);
    }
  }

  lemma OddFails(s: Size, x: nat) returns (q: nat)
    requires IsPlace(s, x)
    ensures q == Iter(s, x, Period(s, x) - 1) && InOrbit(s, x, q)
    ensures Black(s) != Rotated(s, Single(s, q))
  {
    hide Next, Prev, Period, Rotated;
    q := Iter(s, x, Period(s, x) - 1);
    PixelComesFrom(s, Single(s, q), q);
    assert Black(s)[Next(s, q)] == 0;
  }

  lemma OtherCycleKeeps(s: Size, q: nat)
    requires Known(s) && Pixels(s) > SECOND && !InOrbit(s, FIRST, SECOND) && IsPlace(s, q) && InOrbit(s, SECOND, q)
    ensures Walk(s, Single(s, q), FIRST) == Single(s, q)
  {
    hide Next, Prev, Period, InOrbit;
    forall p: nat | p < Pixels(s) && InOrbit(s, FIRST, p) ensures Single(s, q)[p] == 0 { NotInBoth(s, FIRST, SECOND, p); }
    StepsInBlack(s, Single(s, q), FIRST, Total(s, FIRST));
  }

  lemma LeftOutFails(s: Size, q: nat)
    requires Known(s) && Pixels(s) > SECOND && IsPlace(s, q) && Next(s, q) != q && !InOrbit(s, FIRST, q) && !InOrbit(s, SECOND, q)
    ensures InPlace(s, Single(s, q)) != Rotated(s, Single(s, q))
  {
    hide Next, Prev, Period, InOrbit, Rotated, Steps;
    var buf := Single(s, q);
    StepsOutside(s, buf, FIRST, Total(s, FIRST), q);
    StepsOutside(s, Walk(s, buf, FIRST), SECOND, Total(s, SECOND), q);
    PrevNext(s, q);
    PixelComesFrom(s, buf, Prev(s, q));
    assert Prev(s, q) != q;
  }

  lemma SameCycleFails(s: Size)
    requires Known(s) && Pixels(s) > SECOND && Walkable(Period(s, FIRST)) && InOrbit(s, FIRST, SECOND)
    ensures InPlace(s, Single(s, FIRST)) != Rotated(s, Single(s, FIRST))
  {
    hide Prev, Period, InOrbit, Rotated, Walk, Next, Iter, Turned, Single, InPlace, Walkable;
    var buf := Single(s, FIRST);
    var a := Walk(s, buf, FIRST);
    SamePeriod(s, FIRST, SECOND);
    WalkTurns(s, buf, FIRST);
    WalkTurns(s, a, SECOND);
    LongCycle(s);
    var one := Next(s, FIRST);
    BeginsOrbit(s, FIRST);
    OrbitClosed(s, FIRST, FIRST);
    InOther(s, one);
    TurnedAt(s, buf, FIRST, a, FIRST);
    TurnedAt(s, a, SECOND, Walk(s, a, SECOND), one);
    PixelComesFrom(s, buf, one);
    SingleAt(s, FIRST, one);
    InPlaceIs(s, buf);
  }

  lemma BeginsOrbit(s: Size, x: nat)
    requires IsPlace(s, x)
    ensures InOrbit(s, x, x)
  {
    hide InOrbit;
    IterInOrbit(s, x, 0);
  }

  lemma TurnedAt(s: Size, buf: seq<pixel>, x: nat, b: seq<pixel>, p: nat)
    requires Picture(s, buf) && IsPlace(s, x) && IsPlace(s, p) && Turned(s, buf, x, b) && InOrbit(s, x, p)
    ensures Picture(s, b) && b[Next(s, p)] == buf[p]
  {
  }

  lemma SingleAt(s: Size, q: nat, p: nat)
    requires IsPlace(s, q) && IsPlace(s, p)
    ensures Single(s, q)[q] == 1 && (p != q ==> Single(s, q)[p] == 0)
  {
  }

  lemma InPlaceIs(s: Size, buf: seq<pixel>)
    requires Picture(s, buf) && Pixels(s) > SECOND
    ensures InPlace(s, buf) == Walk(s, Walk(s, buf, FIRST), SECOND)
  {
  }

  lemma InOther(s: Size, p: nat)
    requires Known(s) && Pixels(s) > SECOND && InOrbit(s, FIRST, SECOND) && IsPlace(s, p) && InOrbit(s, FIRST, p)
    ensures InOrbit(s, SECOND, p)
  {
    hide Period, Next, Iter;
    var a: nat :| a < Period(s, FIRST) && SECOND == Iter(s, FIRST, a);
    var b: nat :| b < Period(s, FIRST) && p == Iter(s, FIRST, b);
    IterAdd(s, FIRST, a, Period(s, FIRST) - a + b);
    IterAdd(s, FIRST, Period(s, FIRST), b);
    IterInOrbit(s, SECOND, Period(s, FIRST) - a + b);
  }

  lemma LongCycle(s: Size)
    requires Known(s) && Pixels(s) > SECOND && InOrbit(s, FIRST, SECOND)
    ensures Next(s, FIRST) != FIRST
  {
    hide Period, Next;
    var a: nat :| a < Period(s, FIRST) && SECOND == Iter(s, FIRST, a);
    assert Iter(s, FIRST, 0) == FIRST && Iter(s, FIRST, 1) == Next(s, FIRST);
    NotYet(s, FIRST, Period(s, FIRST), 1);
  }

  /** The in-place rotation is right for every picture exactly when the condition holds. */
  lemma RotatesInPlaceIff(s: Size)
    requires Known(s) && Pixels(s) > SECOND
    ensures (forall buf :: Picture(s, buf) ==> InPlace(s, buf) == Rotated(s, buf)) <==> TwoCycles(s)
  {
    hide InPlace, Rotated, TwoCycles;
    if TwoCycles(s) {
      forall buf | Picture(s, buf) ensures InPlace(s, buf) == Rotated(s, buf) { TwoCyclesRotate(s, buf); }
    } else {
      var q := SomePictureFails(s);
      assert Picture(s, Single(s, q));
    }
  }
}

/** The cycles of the rotation, and what a walk around one does to a picture. */
module ImageCycles {

  import opened Division
  import opened ImageBlend
  import opened ImageRotate

  predicate IsPlace(s: Size, x: nat) {
    Known(s) && x < Pixels(s)
  }

  function Iter(s: Size, x: nat, n: nat): (y: nat)
    requires IsPlace(s, x)
    ensures IsPlace(s, y)
  {
    if n == 0 then x else Next(s, Iter(s, x, n - 1))
  }

  lemma {:induction false} IterAdd(s: Size, x: nat, m: nat, n: nat)
    requires IsPlace(s, x)
    ensures Iter(s, Iter(s, x, m), n) == Iter(s, x, m + n)
  {
    if n > 0 { IterAdd(s, x, m, n - 1); }
  }

  lemma NextInjective(s: Size, a: nat, b: nat)
    requires IsPlace(s, a) && IsPlace(s, b) && Next(s, a) == Next(s, b)
    ensures a == b
  {
    PrevNext(s, a);
    PrevNext(s, b);
  }

  /** Steps can be taken back. */
  lemma {:induction false} IterInjective(s: Size, a: nat, b: nat, n: nat)
    requires IsPlace(s, a) && IsPlace(s, b) && Iter(s, a, n) == Iter(s, b, n)
    ensures a == b
  {
    if n > 0 {
      NextInjective(s, Iter(s, a, n - 1), Iter(s, b, n - 1));
      IterInjective(s, a, b, n - 1);
    }
  }

  // ----- the length of a cycle -----

  predicate NotBack(s: Size, x: nat, n: nat)
    requires IsPlace(s, x)
  {
    forall j :: 0 < j < n ==> Iter(s, x, j) != x
  }

  /** Before the walk is back, it meets no place twice. */
  lemma AllDifferent(s: Size, x: nat, n: nat, i: nat, j: nat)
    requires IsPlace(s, x) && NotBack(s, x, n) && i < j < n
    ensures Iter(s, x, i) != Iter(s, x, j)
  {
    hide Iter;
    IterAdd(s, x, j - i, i);
    if Iter(s, x, i) == Iter(s, x, j) { IterInjective(s, x, Iter(s, x, j - i), i); }
  }

  ghost function Met(s: Size, x: nat, n: nat): set<nat>
    requires IsPlace(s, x)
  {
    set j: nat | j < n :: Iter(s, x, j)
  }

  lemma {:induction false} MetSize(s: Size, x: nat, n: nat)
    requires IsPlace(s, x) && NotBack(s, x, n)
    ensures |Met(s, x, n)| == n
  {
    hide Iter;
    if n > 0 {
      MetSize(s, x, n - 1);
      var last := Iter(s, x, n - 1);
      forall j: nat | j < n - 1 ensures Iter(s, x, j) != last { AllDifferent(s, x, n, j, n - 1); }
      assert Met(s, x, n) == Met(s, x, n - 1) + {last};
    }
  }

  ghost function Below(n: nat): (b: set<nat>)
    ensures forall y: nat :: y in b <==> y < n
    ensures |b| == n
  {
    if n == 0 then {} else Below(n - 1) + {n - 1}
  }

  lemma SubsetSize(a: set<nat>, b: set<nat>)
    requires a <= b
    ensures |a| <= |b|
    ensures |a| == |b| ==> a == b
  {
    assert b == a + (b - a);
    assert |b| == |a| + |b - a|;
    if |a| == |b| { assert b - a == {}; }
  }

  lemma NotBackShort(s: Size, x: nat, n: nat)
    requires IsPlace(s, x) && NotBack(s, x, n)
    ensures n <= Pixels(s)
  {
    MetSize(s, x, n);
    SubsetSize(Met(s, x, n), Below(Pixels(s)));
  }

  /** How many steps it takes to get back to `x`. */
  ghost function Period(s: Size, x: nat): (l: nat)
    requires IsPlace(s, x)
    ensures l > 0 && Iter(s, x, l) == x && NotBack(s, x, l)
  {
    PeriodFrom(s, x, 1)
  }

  ghost function PeriodFrom(s: Size, x: nat, n: nat): (l: nat)
    requires IsPlace(s, x) && n > 0 && NotBack(s, x, n)
    ensures l > 0 && Iter(s, x, l) == x && NotBack(s, x, l)
    decreases Pixels(s) + 1 - n
  {
    NotBackShort(s, x, n);
    if Iter(s, x, n) == x then n else PeriodFrom(s, x, n + 1)
  }

  lemma PeriodIs(s: Size, x: nat, l: nat)
    requires IsPlace(s, x) && l > 0 && Iter(s, x, l) == x && NotBack(s, x, l)
    ensures Period(s, x) == l
  {
    hide NotBack, Period, Iter;
    var p := Period(s, x);
    if p < l { NotYet(s, x, l, p); }
    if l < p { NotYet(s, x, p, l); }
  }

  lemma NotYet(s: Size, x: nat, n: nat, j: nat)
    requires IsPlace(s, x) && NotBack(s, x, n) && 0 < j < n
    ensures Iter(s, x, j) != x
  {
  }

  /** Whole rounds do not count. */
  lemma {:induction false} Round(s: Size, x: nat, n: nat)
    requires IsPlace(s, x)
    ensures Iter(s, x, n + Period(s, x)) == Iter(s, x, n)
  {
    IterAdd(s, x, Period(s, x), n);
  }

  lemma {:induction false} Rounds(s: Size, x: nat, n: nat)
    requires IsPlace(s, x)
    ensures Iter(s, x, n) == Iter(s, x, n % Period(s, x))
    decreases n
  {
    hide Iter;
    var l := Period(s, x);
    if n >= l {
      Round(s, x, n - l);
      Rounds(s, x, n - l);
      OneLess(n, l);
    } else {
      Quotient(n, 0, n, l);
    }
  }

  lemma OneLess(n: nat, l: nat)
    requires 0 < l <= n
    ensures n % l == (n - l) % l
  {
    DivMod(n - l, l);
    Quotient(n, (n - l) / l + 1, (n - l) % l, l);
  }

  ghost predicate InOrbit(s: Size, x: nat, p: nat)
    requires IsPlace(s, x)
  {
    exists k: nat :: k < Period(s, x) && p == Iter(s, x, k)
  }

  lemma IterInOrbit(s: Size, x: nat, n: nat)
    requires IsPlace(s, x)
    ensures InOrbit(s, x, Iter(s, x, n))
  {
    Rounds(s, x, n);
  }

  lemma OrbitClosed(s: Size, x: nat, p: nat)
    requires IsPlace(s, x) && InOrbit(s, x, p)
    ensures IsPlace(s, p) && InOrbit(s, x, Next(s, p))
  {
    var k: nat :| k < Period(s, x) && p == Iter(s, x, k);
    IterInOrbit(s, x, k + 1);
  }

  /** Two cycles with a common place have the same places. */
  lemma OrbitsMeet(s: Size, x: nat, y: nat, p: nat)
    requires IsPlace(s, x) && IsPlace(s, y) && InOrbit(s, x, p) && InOrbit(s, y, p)
    ensures InOrbit(s, x, y)
  {
    hide Iter, Period;
    var a: nat :| a < Period(s, x) && p == Iter(s, x, a);
    var b: nat :| b < Period(s, y) && p == Iter(s, y, b);
    IterAdd(s, y, b, Period(s, y) - b);
    IterAdd(s, x, a, Period(s, y) - b);
    IterInOrbit(s, x, a + (Period(s, y) - b));
  }

  lemma SamePeriod(s: Size, x: nat, y: nat)
    requires IsPlace(s, x) && IsPlace(s, y) && InOrbit(s, x, y)
    ensures Period(s, y) == Period(s, x)
  {
    hide Iter, Period;
    var a: nat :| a < Period(s, x) && y == Iter(s, x, a);
    PeriodThere(s, x, a);
  }

  lemma PeriodThere(s: Size, x: nat, a: nat)
    requires IsPlace(s, x)
    ensures Period(s, Iter(s, x, a)) == Period(s, x)
  {
    hide Iter, Period;
    var l := Period(s, x);
    IterAdd(s, x, a, l);
    Round(s, x, a);
    forall j | 0 < j < l ensures Iter(s, Iter(s, x, a), j) != Iter(s, x, a) { NotBackThere(s, x, a, j); }
    PeriodIs(s, Iter(s, x, a), l);
  }

  lemma NotBackThere(s: Size, x: nat, a: nat, j: nat)
    requires IsPlace(s, x) && 0 < j < Period(s, x)
    ensures Iter(s, Iter(s, x, a), j) != Iter(s, x, a)
  {
    hide Iter;
    IterAdd(s, x, a, j);
    IterAdd(s, x, j, a);
    NotYet(s, x, Period(s, x), j);
    if Iter(s, Iter(s, x, j), a) == Iter(s, x, a) { IterInjective(s, Iter(s, x, j), x, a); }
  }
}

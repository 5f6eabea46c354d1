/** The in-place rotation at the resolution of the camera: 320 by 240 pixels. Places counted from one
    are the numbers below the prime 76801; the two cycles are the powers of 240 and eleven times these. */
module ImageQvga {

  import opened Division
  import opened ImageBlend
  import opened ImageRotate
  import opened ImageCycles
  import opened ImageInPlace

  const M: nat := 76801
  const ORDER: nat := 38400

  function Qvga(): Size {
    Size(320, 240)
  }

  // ----- powers -----

  function Times(a: nat, b: nat): (p: nat)
    ensures p < M
  {
    a * b % M
  }

  lemma TimesMod(a: nat, b: nat)
    ensures a % M * b % M == a * b % M
  {
    DivMod(a, M);
    DivMod(a * b, M);
    var q, t := a / M, a * b / M;
    assert a % M * b == a * b - q * M * b;
    assert q * M * b == q * b * M;
    Quotient(a % M * b, t - q * b, a * b % M, M);
  }

  lemma TimesAssociative(a: nat, b: nat, c: nat)
    ensures Times(Times(a, b), c) == Times(a, Times(b, c))
  {
    TimesMod(a * b, c);
    TimesMod(b * c, a);
    assert a * b * c == b * c * a;
    assert a * (b * c % M) == b * c % M * a;
  }

  lemma TimesCommutative(a: nat, b: nat)
    ensures Times(a, b) == Times(b, a)
  {
    assert a * b == b * a;
  }

  lemma TimesOne(a: nat)
    requires a < M
    ensures Times(1, a) == a && Times(a, 1) == a
  {
    Quotient(a, 0, a, M);
  }

  function Power(b: nat, n: nat): (p: nat)
    ensures p < M
  {
    if n == 0 then 1 else Times(b, Power(b, n - 1))
  }

  lemma {:induction false} PowerAdd(b: nat, m: nat, n: nat)
    ensures Power(b, m + n) == Times(Power(b, m), Power(b, n))
  {
    hide Times;
    if m == 0 {
      TimesOne(Power(b, n));
    } else {
      PowerAdd(b, m - 1, n);
      TimesAssociative(b, Power(b, m - 1), Power(b, n));
      assert m + n - 1 == m - 1 + n;
    }
  }

  lemma {:induction false} PowerOfPower(b: nat, k: nat, n: nat)
    ensures Power(Power(b, k), n) == Power(b, k * n)
  {
    hide Times;
    if n > 0 {
      PowerOfPower(b, k, n - 1);
      PowerAdd(b, k, k * (n - 1));
      assert k * n == k + k * (n - 1);
    } else {
      assert k * n == 0;
    }
  }

  lemma {:induction false} PowerOfOne(n: nat)
    ensures Power(1, n) == 1
  {
    if n > 0 { PowerOfOne(n - 1); }
  }

  lemma PowerOne(b: nat)
    requires b < M
    ensures Power(b, 1) == b
  {
    hide Times;
    assert Power(b, 0) == 1;
    TimesOne(b);
  }

  /** One step of repeated squaring; the quotients are given. */
  lemma Squared(b: nat, n: nat, v: nat, q: nat, w: nat)
    requires Power(b, n) == v && v * v == q * M + w && w < M
    ensures Power(b, 2 * n) == w
  {
    hide Power;
    PowerAdd(b, n, n);
    Quotient(v * v, q, w, M);
  }

  lemma SquaredMore(b: nat, n: nat, v: nat, q: nat, u: nat, r: nat, w: nat)
    requires b < M && Power(b, n) == v && v * v == q * M + u && u < M && u * b == r * M + w && w < M
    ensures Power(b, 2 * n + 1) == w
  {
    hide Power;
    Squared(b, n, v, q, u);
    PowerAdd(b, 2 * n, 1);
    PowerOne(b);
    Quotient(u * b, r, w, M);
  }

  lemma HeightPowers()
    ensures Power(240, 19200) == 76800
    ensures Power(240, 38400) == 1
  {
    hide Power;
    PowerOne(240);
    Squared(240, 1, 240, 0, 57600);
    Squared(240, 2, 57600, 43199, 33601);
    SquaredMore(240, 4, 33601, 14700, 52501, 164, 4876);
    Squared(240, 9, 4876, 309, 43867);
    SquaredMore(240, 18, 43867, 25055, 64634, 201, 75159);
    SquaredMore(240, 37, 75159, 73552, 8129, 25, 30935);
    Squared(240, 75, 30935, 12460, 33765);
    Squared(240, 150, 33765, 14844, 41181);
    Squared(240, 300, 41181, 22081, 31880);
    Squared(240, 600, 31880, 13233, 26767);
    Squared(240, 1200, 26767, 9328, 72561);
    Squared(240, 2400, 72561, 68555, 6166);
    Squared(240, 4800, 6166, 495, 3061);
    Squared(240, 9600, 3061, 121, 76800);
    Squared(240, 19200, 76800, 76799, 1);
  }

  lemma HeightPowerThird()
    ensures Power(240, 12800) == 38160
  {
    hide Power;
    PowerOne(240);
    SquaredMore(240, 1, 240, 0, 57600, 179, 76621);
    Squared(240, 3, 76621, 76441, 32400);
    Squared(240, 6, 32400, 13668, 43932);
    SquaredMore(240, 12, 43932, 25130, 11494, 35, 70525);
    Squared(240, 25, 70525, 64761, 66064);
    Squared(240, 50, 66064, 56828, 4868);
    Squared(240, 100, 4868, 308, 42716);
    Squared(240, 200, 42716, 23758, 18498);
    Squared(240, 400, 18498, 4455, 27549);
    Squared(240, 800, 27549, 9881, 76720);
    Squared(240, 1600, 76720, 76639, 6561);
    Squared(240, 3200, 6561, 560, 38161);
    Squared(240, 6400, 38161, 18961, 38160);
  }

  lemma HeightPowerFifth()
    ensures Power(240, 7680) == 75553
  {
    hide Power;
    PowerOne(240);
    SquaredMore(240, 1, 240, 0, 57600, 179, 76621);
    SquaredMore(240, 3, 76621, 76441, 32400, 101, 19099);
    SquaredMore(240, 7, 19099, 4749, 43852, 137, 2743);
    Squared(240, 15, 2743, 97, 74352);
    Squared(240, 30, 74352, 71981, 7123);
    Squared(240, 60, 7123, 660, 48469);
    Squared(240, 120, 48469, 30588, 54973);
    Squared(240, 240, 54973, 39348, 64981);
    Squared(240, 480, 64981, 54980, 11381);
    Squared(240, 960, 11381, 1686, 40675);
    Squared(240, 1920, 40675, 21542, 8483);
    Squared(240, 3840, 8483, 936, 75553);
  }

  lemma ElevenPower()
    ensures Power(11, 38400) == 76800
  {
    hide Power;
    PowerOne(11);
    Squared(11, 1, 11, 0, 121);
    Squared(11, 2, 121, 0, 14641);
    SquaredMore(11, 4, 14641, 2791, 7290, 1, 3389);
    Squared(11, 9, 3389, 149, 41972);
    SquaredMore(11, 18, 41972, 22937, 64247, 9, 15508);
    SquaredMore(11, 37, 15508, 3131, 34133, 4, 68259);
    Squared(11, 75, 68259, 60667, 4814);
    Squared(11, 150, 4814, 301, 57495);
    Squared(11, 300, 57495, 43042, 6383);
    Squared(11, 600, 6383, 530, 38159);
    Squared(11, 1200, 38159, 18959, 39122);
    Squared(11, 2400, 39122, 19928, 40556);
    Squared(11, 4800, 40556, 21416, 18920);
    Squared(11, 9600, 18920, 4660, 73740);
    Squared(11, 19200, 73740, 70800, 76800);
  }

  // ----- places are powers -----

  lemma {:induction false} IterIsPower(x: nat, n: nat)
    requires x < 76800
    ensures IsPlace(Qvga(), x) && Iter(Qvga(), x, n) + 1 == Times(x + 1, Power(240, n))
  {
    hide Next, Times;
    if n > 0 {
      IterIsPower(x, n - 1);
      var p := Power(240, n - 1);
      StepIsTimes(Iter(Qvga(), x, n - 1));
      TimesAssociative(x + 1, p, 240);
      TimesCommutative(p, 240);
    } else {
      TimesOne(x + 1);
    }
  }

  lemma StepIsTimes(i: nat)
    requires i < 76800
    ensures IsPlace(Qvga(), i) && Next(Qvga(), i) + 1 == Times(i + 1, 240)
  {
    hide Next;
    NextIsMultiplication(Qvga(), i);
  }

  lemma OrbitOfFirst(n: nat)
    ensures IsPlace(Qvga(), FIRST) && Iter(Qvga(), FIRST, n) + 1 == Power(240, n)
  {
    hide Power, Times, Iter;
    IterIsPower(FIRST, n);
    TimesOne(Power(240, n));
  }

  /** 11 has an inverse. */
  lemma OrbitOfSecond(n: nat)
    ensures IsPlace(Qvga(), SECOND) && (Iter(Qvga(), SECOND, n) == SECOND <==> Power(240, n) == 1)
  {
    hide Power, Times, Iter;
    IterIsPower(SECOND, n);
    var p := Power(240, n);
    TimesCommutative(11, p);
    TimesAssociative(p, 11, 6982);
    assert Times(11, 6982) == 1 by { ElevenInverse(); }
    TimesOne(p);
    TimesOne(11);
  }

  lemma ElevenInverse()
    ensures Times(11, 6982) == 1
  {
  }

  // ----- the order of 240 is 2^9 * 3 * 5^2 -----

  lemma ProductMod(l: nat, e: nat, p: nat)
    requires p > 0
    ensures l * e % p == (l % p) * (e % p) % p
  {
    var a, b, c, d := l / p, l % p, e / p, e % p;
    DivMod(l, p);
    DivMod(e, p);
    DivMod(b * d, p);
    Multiplied(a, b, c, d, p);
    SumTimes(a * c * p + a * d + b * c, b * d / p, p);
    Quotient(l * e, a * c * p + a * d + b * c + b * d / p, b * d % p, p);
  }

  lemma Multiplied(a: int, b: int, c: int, d: int, p: int)
    ensures (a * p + b) * (c * p + d) == (a * c * p + a * d + b * c) * p + b * d
  {
    assert (a * p + b) * (c * p + d) == a * p * (c * p) + a * p * d + b * (c * p) + b * d;
    assert a * p * (c * p) == a * c * p * p && a * p * d == a * d * p && b * (c * p) == b * c * p;
  }

  lemma SumTimes(x: int, y: int, p: int)
    ensures (x + y) * p == x * p + y * p
  {
  }

  /** A prime that divides a product but not `e` divides the other factor. */
  lemma Strip(l: nat, e: nat, k: nat, p: nat)
    requires (p == 2 || p == 3 || p == 5) && l * e == k * p && e % p != 0
    ensures l % p == 0 && l / p * e == k
  {
    ProductMod(l, e, p);
    Quotient(k * p, k, 0, p);
    DivMod(l, p);
    DivMod(e, p);
    NoZero(l % p, e % p, p);
    Cancel(l / p * e, k, p);
  }

  lemma NoZero(b: nat, d: nat, p: nat)
    requires (p == 2 || p == 3 || p == 5) && b < p && 0 < d < p && b * d % p == 0
    ensures b == 0
  {
    if p == 5 {
      assert b == 1 ==> b * d == d;
      assert b == 2 ==> b * d == 2 * d;
      assert b == 3 ==> b * d == 3 * d;
      assert b == 4 ==> b * d == 4 * d;
    }
  }

  lemma Cancel(a: nat, b: nat, p: nat)
    requires p > 0 && a * p == b * p
    ensures a == b
  {
  }

  lemma NoOtherDivisor(l: nat, e: nat)
    requires l * e == ORDER && e % 2 != 0 && e % 3 != 0 && e % 5 != 0
    ensures e == 1
  {
    var a := StripAll(l, e, 75, 9);
    Strip(a, e, 25, 3);
    Strip(a / 3, e, 5, 5);
    Strip(a / 3 / 5, e, 1, 5);
    OneFactor(a / 3 / 5 / 5, e);
  }

  lemma {:induction false} StripAll(l: nat, e: nat, k: nat, n: nat) returns (a: nat)
    requires l * e == k * Two(n) && e % 2 != 0
    ensures a * e == k
  {
    if n == 0 {
      a := l;
    } else {
      assert k * Two(n) == k * Two(n - 1) * 2;
      Strip(l, e, k * Two(n - 1), 2);
      a := StripAll(l / 2, e, k, n - 1);
    }
  }

  function Two(n: nat): nat {
    if n == 0 then 1 else 2 * Two(n - 1)
  }

  lemma OneFactor(a: nat, e: nat)
    requires a * e == 1
    ensures e == 1
  {
    assert a > 0 && e > 0;
    assert e > 1 ==> a * e > 1;
  }

  lemma PeriodDivides(n: nat)
    requires Power(240, n) == 1
    ensures IsPlace(Qvga(), FIRST) && n % Period(Qvga(), FIRST) == 0
  {
    hide Power, Period, Iter;
    OrbitOfFirst(n);
    var l := Period(Qvga(), FIRST);
    Rounds(Qvga(), FIRST, n);
    assert NotBack(Qvga(), FIRST, l) && 0 <= n % l < l;
  }

  lemma PowerOfMultiple(l: nat, k: nat)
    requires Power(240, l) == 1
    ensures Power(240, l * k) == 1
  {
    PowerOfPower(240, l, k);
    PowerOfOne(k);
  }

  /** `l` divides what is left of the order when the prime `p` is taken out. */
  lemma PrimeOut(l: nat, e: nat, p: nat)
    requires p > 0 && l * e == ORDER && e % p == 0 && ORDER % p == 0
    ensures l * (e / p) == ORDER / p
  {
    DivMod(e, p);
    var k := e / p;
    assert l * (k * p) == l * k * p;
    Quotient(ORDER, l * k, 0, p);
  }

  /** 240 is a primitive root of the squares. */
  lemma PeriodOfFirst()
    ensures IsPlace(Qvga(), FIRST) && Period(Qvga(), FIRST) == ORDER
  {
    hide Power, Period, Iter;
    HeightPowers();
    HeightPowerThird();
    HeightPowerFifth();
    PeriodDivides(ORDER);
    var l := Period(Qvga(), FIRST);
    OrbitOfFirst(l);
    DivMod(ORDER, l);
    var e := ORDER / l;
    assert l * e == ORDER;
    if e % 2 == 0 { PrimeOut(l, e, 2); PowerOfMultiple(l, e / 2); }
    if e % 3 == 0 { PrimeOut(l, e, 3); PowerOfMultiple(l, e / 3); }
    if e % 5 == 0 { PrimeOut(l, e, 5); PowerOfMultiple(l, e / 5); }
    NoOtherDivisor(l, e);
  }

  lemma PeriodOfSecond()
    ensures IsPlace(Qvga(), SECOND) && Period(Qvga(), SECOND) == ORDER
  {
    hide Power, Period, Iter;
    PeriodOfFirst();
    HeightPowers();
    OrbitOfSecond(ORDER);
    forall j | 0 < j < ORDER ensures Iter(Qvga(), SECOND, j) != SECOND {
      OrbitOfSecond(j);
      OrbitOfFirst(j);
      NotYet(Qvga(), FIRST, ORDER, j);
    }
    PeriodIs(Qvga(), SECOND, ORDER);
  }

  /** 11 is no power of 240: its power with the order is minus one. */
  lemma SecondIsElsewhere()
    ensures IsPlace(Qvga(), FIRST) && !InOrbit(Qvga(), FIRST, SECOND)
  {
    hide Power, Period, Iter;
    OrbitOfFirst(0);
    if InOrbit(Qvga(), FIRST, SECOND) {
      var k: nat :| k < Period(Qvga(), FIRST) && SECOND == Iter(Qvga(), FIRST, k);
      OrbitOfFirst(k);
      PowerOfPower(240, k, ORDER);
      HeightPowers();
      PowerOfMultiple(ORDER, k);
      ElevenPower();
    }
  }

  /** Two cycles of 38400 places leave nothing out. */
  lemma NothingLeftOut(p: nat)
    requires p < 76800
    ensures IsPlace(Qvga(), p) && (InOrbit(Qvga(), FIRST, p) || InOrbit(Qvga(), SECOND, p))
  {
    hide Power, Period, Iter, Next;
    var s := Qvga();
    PeriodOfFirst();
    PeriodOfSecond();
    SecondIsElsewhere();
    var a, b := Met(s, FIRST, ORDER), Met(s, SECOND, ORDER);
    MetSize(s, FIRST, ORDER);
    MetSize(s, SECOND, ORDER);
    forall y: nat | y in a ensures y !in b { MetOnce(y); }
    MetInside(s, FIRST, ORDER);
    MetInside(s, SECOND, ORDER);
    FullHouse(a, b, 76800, p);
    if p in a { MetInOrbit(s, FIRST, p); } else { MetInOrbit(s, SECOND, p); }
  }

  lemma MetInside(s: Size, x: nat, n: nat)
    requires IsPlace(s, x)
    ensures Met(s, x, n) <= Below(Pixels(s))
  {
  }

  lemma MetInOrbit(s: Size, x: nat, p: nat)
    requires IsPlace(s, x) && p in Met(s, x, Period(s, x))
    ensures InOrbit(s, x, p)
  {
  }

  lemma FullHouse(a: set<nat>, b: set<nat>, n: nat, p: nat)
    requires a <= Below(n) && b <= Below(n) && |a| + |b| == n && p < n && forall y :: y in a ==> y !in b
    ensures p in a || p in b
  {
    assert a * b == {};
    assert |a + b| == |a| + |b|;
    SubsetSize(a + b, Below(n));
  }

  lemma MetOnce(y: nat)
    requires IsPlace(Qvga(), FIRST) && IsPlace(Qvga(), SECOND) && Period(Qvga(), FIRST) == Period(Qvga(), SECOND) == ORDER
    requires y in Met(Qvga(), FIRST, ORDER)
    ensures y !in Met(Qvga(), SECOND, ORDER)
  {
    hide Power, Period, Iter, Next;
    SecondIsElsewhere();
    assert InOrbit(Qvga(), FIRST, y);
    NotInBoth(Qvga(), FIRST, SECOND, y);
  }

  /** At 320 by 240 pixels the in-place rotation is right for every picture. */
  lemma QvgaRotates(buf: seq<pixel>)
    requires Picture(Qvga(), buf)
    ensures InPlace(Qvga(), buf) == Rotated(Qvga(), buf)
  {
    hide Power, Period, Iter, Next, InPlace, Rotated;
    PeriodOfFirst();
    PeriodOfSecond();
    SecondIsElsewhere();
    forall p: nat | p < 76800 ensures InOrbit(Qvga(), FIRST, p) || InOrbit(Qvga(), SECOND, p) { NothingLeftOut(p); }
    TwoCyclesRotate(Qvga(), buf);
  }
}

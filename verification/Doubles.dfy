/** The `double`s that are not negative, as exact numbers: 53 significant bits, and an exponent without bounds. */
module Doubles {

  // ---------- whole numbers ----------

  /** To the nearest whole number, and halfway between two of them to the even one. */
  function Round(x: real): nat
    requires x >= 0.0
  {
    var below := x.Floor;
    var part := x - below as real;
    if part < 0.5 || (part == 0.5 && below % 2 == 0) then below else below + 1
  }

  function Distance(x: real, y: real): real {
    if x >= y then x - y else y - x
  }

  /** No other whole number is nearer, and of two equally near ones the even one is taken. */
  lemma RoundIsNearest(x: real, n: int)
    requires x >= 0.0
    ensures Distance(Round(x) as real, x) <= Distance(n as real, x)
    ensures Distance(Round(x) as real, x) == Distance(n as real, x) && n != Round(x) ==> Round(x) % 2 == 0
  {
    var below := x.Floor;
    if n < below {
      assert Distance(n as real, x) >= 1.0;
    } else if n > below {
      assert Distance(n as real, x) >= below as real + 1.0 - x;
    }
  }

  lemma RoundWhole(n: nat)
    ensures Round(n as real) == n
  {
  }

  /** A number no further from `n` than one that is rounded to `n` is rounded to `n` too. */
  lemma RoundNearer(x: real, y: real, n: nat)
    requires x >= 0.0 && y >= 0.0 && Round(x) == n && Distance(y, n as real) <= Distance(x, n as real)
    ensures Round(y) == n
  {
    if y < n as real {
      assert y.Floor == n || y.Floor == n - 1;
    } else {
      assert y.Floor == n || y == n as real + 0.5;
    }
  }

  // ---------- doubles ----------

  /** 2 to the power 52: from here to its double, the doubles are the whole numbers. */
  const SCALE := 4503599627370496.0

  /** How often at most a number must be doubled or halved to come between `SCALE` and its double. */
  function Scalings(x: real): nat
    requires x >= 0.0
  {
    if x == 0.0 then 0
    else if x < SCALE then
      QuotientPositive(x);
      (SCALE / x).Floor
    else if x >= 2.0 * SCALE then x.Floor
    else 0
  }

  lemma QuotientPositive(x: real)
    requires 0.0 < x < SCALE
    ensures SCALE / x > 1.0
  {
    var q := SCALE / x;
    assert q * x == SCALE;
    if q <= 1.0 {
      SmallerProduct(q, x);
    }
  }

  lemma SmallerProduct(q: real, x: real)
    requires q <= 1.0 && x > 0.0
    ensures q * x <= x
  {
    assert (1.0 - q) * x >= 0.0;
  }

  lemma HalfQuotient(x: real)
    requires x > 0.0
    ensures SCALE / (2.0 * x) == SCALE / x / 2.0
  {
    var q := SCALE / x;
    assert q * x == SCALE;
    assert q / 2.0 * (2.0 * x) == SCALE;
  }

  lemma DoublingHelps(x: real)
    requires 0.0 < x < SCALE
    ensures Scalings(2.0 * x) < Scalings(x)
  {
    QuotientPositive(x);
    HalfQuotient(x);
  }

  /** The double nearest to `x`, and of two equally near ones the one whose last bit is 0. */
  function Nearest(x: real): (d: real)
    requires x >= 0.0
    ensures d >= 0.0
    decreases Scalings(x)
  {
    if x == 0.0 then 0.0
    else if x < SCALE then
      DoublingHelps(x);
      Nearest(2.0 * x) / 2.0
    else if x >= 2.0 * SCALE then 2.0 * Nearest(x / 2.0)
    else Round(x) as real
  }

  predicate IsDouble(d: real) {
    d >= 0.0 && Nearest(d) == d
  }

  type Double = d: real | d >= 0.0 && IsDouble(d) witness 0.0

  lemma NearestOfTwice(x: real)
    requires x >= 0.0
    ensures Nearest(2.0 * x) == 2.0 * Nearest(x)
  {
  }

  /** Doubles may be doubled and halved. */
  lemma TwiceIsDouble(d: real)
    requires d >= 0.0
    ensures IsDouble(2.0 * d) <==> IsDouble(d)
  {
    NearestOfTwice(d);
  }

  lemma {:induction false} NearestIsDouble(x: real)
    requires x >= 0.0
    ensures IsDouble(Nearest(x))
    decreases Scalings(x)
  {
    if x == 0.0 {
    } else if x < SCALE {
      DoublingHelps(x);
      NearestIsDouble(2.0 * x);
      TwiceIsDouble(Nearest(x));
    } else if x >= 2.0 * SCALE {
      NearestIsDouble(x / 2.0);
      TwiceIsDouble(Nearest(x / 2.0));
    } else {
      RoundWhole(Round(x));
      NearestOfTwice(SCALE);
      RoundWhole(4503599627370496);
    }
  }

  predicate IsWhole(x: real) {
    x == x.Floor as real
  }

  lemma {:induction false} LargeIsWhole(d: real)
    requires IsDouble(d) && d >= SCALE
    ensures IsWhole(d)
    decreases Scalings(d)
  {
    if d >= 2.0 * SCALE {
      TwiceIsDouble(d / 2.0);
      LargeIsWhole(d / 2.0);
      assert d == (2 * (d / 2.0).Floor) as real;
    }
  }

  /** No double is nearer. */
  lemma {:induction false} NoneNearer(x: real, d: real)
    requires x >= 0.0 && IsDouble(d)
    ensures Distance(Nearest(x), x) <= Distance(d, x)
    decreases Scalings(x)
  {
    if x == 0.0 {
    } else if x < SCALE {
      DoublingHelps(x);
      TwiceIsDouble(d);
      NoneNearer(2.0 * x, 2.0 * d);
    } else if x >= 2.0 * SCALE {
      TwiceIsDouble(d / 2.0);
      NoneNearer(x / 2.0, d / 2.0);
    } else if d >= SCALE {
      LargeIsWhole(d);
      RoundIsNearest(x, d.Floor);
    } else {
      RoundIsNearest(x, 4503599627370496);
    }
  }

  /** Whole numbers of up to 53 bits are doubles. */
  lemma {:induction false} WholeIsDouble(n: nat)
    requires n as real <= 2.0 * SCALE
    ensures IsDouble(n as real)
    decreases 9007199254740992 - n
  {
    if n == 0 {
    } else if n as real < SCALE {
      WholeIsDouble(2 * n);
      TwiceIsDouble(n as real);
    } else if n as real == 2.0 * SCALE {
      RoundWhole(4503599627370496);
      NearestOfTwice(SCALE);
    } else {
      RoundWhole(n);
    }
  }

  lemma WholeAndHalvesAreDoubles(n: nat)
    requires n as real <= 2.0 * SCALE
    ensures IsDouble(n as real / 128.0)
  {
    WholeIsDouble(n);
    TwiceIsDouble(n as real / 2.0);
    TwiceIsDouble(n as real / 4.0);
    TwiceIsDouble(n as real / 8.0);
    TwiceIsDouble(n as real / 16.0);
    TwiceIsDouble(n as real / 32.0);
    TwiceIsDouble(n as real / 64.0);
    TwiceIsDouble(n as real / 128.0);
  }

  lemma SixtyFourTimes(d: real)
    requires IsDouble(d)
    ensures IsDouble(64.0 * d)
  {
    TwiceIsDouble(d);
    TwiceIsDouble(2.0 * d);
    TwiceIsDouble(4.0 * d);
    TwiceIsDouble(8.0 * d);
    TwiceIsDouble(16.0 * d);
    TwiceIsDouble(32.0 * d);
  }

  /** `m` doubled `k` times. */
  function Doubled(m: nat, k: nat): real {
    if k == 0 then m as real else 2.0 * Doubled(m, k - 1)
  }

  /** `m` halved `k` times. */
  function Halved(m: nat, k: nat): real {
    if k == 0 then m as real else Halved(m, k - 1) / 2.0
  }

  /** A whole number of up to 53 bits, times or by a power of two. */
  ghost predicate HasForm(d: real) {
    exists m: nat, k: nat :: m as real <= 2.0 * SCALE && (d == Doubled(m, k) || d == Halved(m, k))
  }

  lemma {:induction false} DoubledIsDouble(m: nat, k: nat)
    requires m as real <= 2.0 * SCALE
    ensures IsDouble(Doubled(m, k))
  {
    if k == 0 {
      WholeIsDouble(m);
    } else {
      DoubledIsDouble(m, k - 1);
      TwiceIsDouble(Doubled(m, k - 1));
    }
  }

  lemma {:induction false} HalvedIsDouble(m: nat, k: nat)
    requires m as real <= 2.0 * SCALE
    ensures IsDouble(Halved(m, k))
  {
    if k == 0 {
      WholeIsDouble(m);
    } else {
      HalvedIsDouble(m, k - 1);
      TwiceIsDouble(Halved(m, k));
    }
  }

  lemma FormOfHalf(d: real)
    requires HasForm(d)
    ensures HasForm(d / 2.0)
  {
    var m: nat, k: nat :| m as real <= 2.0 * SCALE && (d == Doubled(m, k) || d == Halved(m, k));
    if d == Halved(m, k) {
      assert d / 2.0 == Halved(m, k + 1);
    } else {
      assert d / 2.0 == Doubled(m, k - 1);
    }
  }

  lemma FormOfTwice(d: real)
    requires HasForm(d)
    ensures HasForm(2.0 * d)
  {
    var m: nat, k: nat :| m as real <= 2.0 * SCALE && (d == Doubled(m, k) || d == Halved(m, k));
    if d == Doubled(m, k) {
      assert 2.0 * d == Doubled(m, k + 1);
    } else {
      assert 2.0 * d == Halved(m, k - 1);
    }
  }

  lemma {:induction false} NearestHasForm(x: real)
    requires x >= 0.0
    ensures HasForm(Nearest(x))
    decreases Scalings(x)
  {
    if x == 0.0 {
      assert Nearest(x) == Doubled(0, 0);
    } else if x < SCALE {
      DoublingHelps(x);
      NearestHasForm(2.0 * x);
      FormOfHalf(Nearest(2.0 * x));
    } else if x >= 2.0 * SCALE {
      NearestHasForm(x / 2.0);
      FormOfTwice(Nearest(x / 2.0));
    } else {
      assert Nearest(x) == Doubled(Round(x), 0);
    }
  }

  /** The doubles are exactly the numbers of that form. */
  lemma DoublesHaveForm(d: real)
    requires d >= 0.0
    ensures IsDouble(d) <==> HasForm(d)
  {
    NearestHasForm(d);
    if m: nat, k: nat :| m as real <= 2.0 * SCALE && (d == Doubled(m, k) || d == Halved(m, k)) {
      DoubledIsDouble(m, k);
      HalvedIsDouble(m, k);
    }
  }

  // ---------- amounts in cents ----------

  /** The amount as `fixed << setprecision(2)` prints it, in cents. */
  function ToCents(d: real): nat
    requires d >= 0.0
  {
    Round(100.0 * d)
  }

  /** The amount that is read from that many cents. */
  function FromCents(n: nat): (d: Double) {
    NearestIsDouble(n as real / 100.0);
    Nearest(n as real / 100.0)
  }

  lemma HundredTimes(a: real, b: real, x: real, n: nat)
    requires x == n as real / 100.0 && Distance(a, x) <= Distance(b, x)
    ensures Distance(100.0 * a, n as real) <= Distance(100.0 * b, n as real)
  {
  }

  /** Reading back moves the amount no further from its printed form than it was before. */
  lemma ReadBackIsNearer(d: Double, n: nat)
    ensures Distance(100.0 * FromCents(n), n as real) <= Distance(100.0 * d, n as real)
  {
    var x := n as real / 100.0;
    NoneNearer(x, d);
    HundredTimes(Nearest(x), d, x, n);
  }

  /** Printing what has been read back gives the same text, for every double. */
  lemma PrintedAgain(d: Double, n: nat)
    requires n == ToCents(d)
    ensures ToCents(FromCents(n)) == n
  {
    ReadBackIsNearer(d, n);
    RoundNearer(100.0 * d, 100.0 * FromCents(n), n);
  }

  /** The double nearest to some whole number of cents. */
  ghost predicate IsWholeCents(d: real) {
    exists n: nat :: d == FromCents(n)
  }

  /** Below 2 to the power 46 doubles lie closer than half a cent to every amount. */
  lemma FineBelow(x: real)
    requires 0.0 <= x < SCALE / 64.0
    ensures Distance(Nearest(x), x) < 0.005
  {
    var m := Round(128.0 * x);
    RoundIsNearest(128.0 * x, (128.0 * x).Floor);
    assert m as real <= 2.0 * SCALE by {
      RoundIsNearest(128.0 * x, 9007199254740992);
    }
    WholeAndHalvesAreDoubles(m);
    NoneNearer(x, m as real / 128.0);
  }

  /** From there on they lie further than a cent from each other. */
  lemma CoarseAbove(d: real, e: real)
    requires IsDouble(d) && IsDouble(e) && d >= SCALE / 64.0 && e >= SCALE / 64.0 && Distance(d, e) <= 0.01
    ensures d == e
  {
    SixtyFourTimes(d);
    SixtyFourTimes(e);
    LargeIsWhole(64.0 * d);
    LargeIsWhole(64.0 * e);
    WholeApart(64.0 * d, 64.0 * e, (64.0 * d).Floor, (64.0 * e).Floor);
  }

  lemma WholeApart(x: real, y: real, a: int, b: int)
    requires x == a as real && y == b as real && x - y < 1.0 && y - x < 1.0
    ensures x == y
  {
    assert (a - b) as real == x - y;
  }

  /** Two roundings of whole numbers of cents that far from each other leave only coarse doubles. */
  lemma FarIsCoarse(n: nat, d: Double)
    requires d == FromCents(n) && ToCents(d) != n
    ensures d >= SCALE / 64.0
  {
    var x := n as real / 100.0;
    RoundIsNearest(100.0 * d, n);
    assert Distance(100.0 * d, n as real) >= 0.5;
    assert Distance(d, x) >= 0.005;
    if x < SCALE / 64.0 {
      FineBelow(x);
      assert false;
    }
    WholeIsDouble(70368744177664);
    NoneNearer(x, 70368744177664.0);
  }

  lemma NearOwnCents(d: Double, k: nat)
    requires k == ToCents(d)
    ensures Distance(100.0 * d, k as real) <= 0.5
    ensures Distance(FromCents(k), d) <= 0.01
  {
    RoundIsNearest(100.0 * d, (100.0 * d).Floor);
    RoundIsNearest(100.0 * d, (100.0 * d).Floor + 1);
    ReadBackIsNearer(d, k);
  }

  lemma BoundaryKept(d: Double, k: nat)
    requires d == SCALE / 64.0 && k == ToCents(d)
    ensures FromCents(k) == d
  {
    RoundWhole(7036874417766400);
    WholeIsDouble(70368744177664);
  }

  lemma NextAbove(d: Double)
    requires d > SCALE / 64.0
    ensures d >= SCALE / 64.0 + 0.015625
  {
    SixtyFourTimes(d);
    LargeIsWhole(64.0 * d);
    assert (64.0 * d).Floor >= 4503599627370497;
  }

  /** From 2 to the power 46 on every double is read back unchanged. */
  lemma LargeKept(d: Double, k: nat)
    requires d >= SCALE / 64.0 && k == ToCents(d)
    ensures FromCents(k) == d
  {
    if d == SCALE / 64.0 {
      BoundaryKept(d, k);
    } else {
      NextAbove(d);
      NearOwnCents(d, k);
      CoarseAbove(d, FromCents(k));
    }
  }

  /** The double nearest to a whole number of cents is read back unchanged, however large it is. */
  lemma WholeCentsKept(n: nat, d: Double, k: nat)
    requires d == FromCents(n) && k == ToCents(d)
    ensures FromCents(k) == d
  {
    if k != n {
      FarIsCoarse(n, d);
      LargeKept(d, k);
    }
  }

  /** An amount survives printing and reading if and only if it is the double nearest to a whole number of cents. */
  lemma KeptIfWholeCents(d: Double)
    ensures FromCents(ToCents(d)) == d <==> IsWholeCents(d)
  {
    if n: nat :| d == FromCents(n) {
      WholeCentsKept(n, d, ToCents(d));
    }
  }

  // ---------- an amount that is not kept ----------

  /** 0.125 is a double. */
  function Eighth(): (d: Double)
    ensures d == 0.125
  {
    WholeAndHalvesAreDoubles(16);
    0.125
  }

  /** It is printed as 12 cents, and the double nearest to those is another one. */
  lemma EighthIsLost()
    ensures ToCents(Eighth()) == 12 && FromCents(12) != Eighth()
  {
    WholeAndHalvesAreDoubles(15);
    NoneNearer(12 as real / 100.0, 15 as real / 128.0);
  }
}

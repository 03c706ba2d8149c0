/**
 Exactly when the free-format search finds the fewest digits. Which decimals read back as a number is an interval around
 it. The search only tries the nearest decimal of each length; it misses a shorter one exactly if that is the next decimal
 above, which can read back when the nearest one below does not: only just at a power of two, where the interval reaches
 further up than down.
 */
module ShortestDigits {
  import opened Powers
  import opened Rounding
  import opened Limbs
  import opened Scaling
  import opened Binary64
  import opened DigitSearch
  import opened DoubleBits
  import opened RadixTables
  import opened NumberParsing
  import opened NumberPrinting
  import opened NumberRoundTrip

  // ----- which ratios round to a number -----

  /** The first mantissa of a binade, and the end of it. */
  const FIRST: nat := 0x10_0000_0000_0000
  const LAST: nat := 0x20_0000_0000_0000

  /** m * 2^w, in units, is a positive double, with the grid 2^w around it. */
  predicate DoubleAt(m: nat, w: nat) {
    0 < m < LAST && (w > 0 ==> m >= FIRST)
  }

  lemma GridRound(n: nat, g: nat, m: nat)
    requires g > 0
    ensures RoundDiv(n, g, NearestEven) == m <==> Near(m * g, n, g) && (Tie(m * g, n, g) ==> m % 2 == 0)
  {
    hide RoundDiv;
    RoundDivNear(n, g, NearestEven);
    if Near(m * g, n, g) && (Tie(m * g, n, g) ==> m % 2 == 0) {
      RoundDivUnique(n, g, m);
    }
  }

  /** Within a binade. */
  lemma InBinade(n: nat, d: nat, m: nat, w: nat)
    requires d > 0 && n < d * Pow(2, w) * LAST && (w > 0 ==> n >= d * Pow(2, w) * FIRST)
    ensures var g := d * Pow(2, w);
            g > 0 && (RoundDouble(n, d) == m * Pow(2, w) <==> Near(m * g, n, g) && (Tie(m * g, n, g) ==> m % 2 == 0))
  {
    hide Pow, RoundDiv, Spare, Near, Tie;
    var q, r := Divided(n, d);
    var p := Pow(2, w);
    SpareOf(n, d, q, p, w);
    MulLe(1, d, 1, p);
    GridRound(n, d * p, m);
    var k := RoundDiv(n, d * p, NearestEven);
    MulCompare(p, k, m);
    assert k * p == p * k && m * p == p * m;
  }

  lemma AboveBinade(n: nat, d: nat, w: nat)
    requires d > 0 && n >= d * Pow(2, w) * LAST
    ensures RoundDouble(n, d) >= LAST * Pow(2, w)
  {
    hide Pow, RoundDiv, Spare;
    TwoTo53();
    KeptBits(n, d);
    var w' := Spare(n, d);
    HigherGrid(n, d, w, w', LAST);
    TwicePower(w);
    PowMonotone(2, w + 1, if w' > w then w' else w + 1);
    MulLe(FIRST, RoundDiv(n, d * Pow(2, w'), NearestEven), 2 * Pow(2, w), Pow(2, w'));
  }

  lemma TwicePower(w: nat)
    ensures Pow(2, w + 1) == 2 * Pow(2, w)
  {
  }

  lemma HigherGrid(n: nat, d: nat, w: nat, w': nat, h: nat)
    requires n >= d * Pow(2, w) * h && n < d * Pow(2, w') * h
    ensures w' > w
  {
    hide Pow;
    if w' <= w {
      PowMonotone(2, w', w);
      MulLe(d, d, Pow(2, w'), Pow(2, w));
      MulLe(d * Pow(2, w'), d * Pow(2, w), h, h);
    }
  }

  lemma BelowBinade(n: nat, d: nat, w: nat)
    requires d > 0 && w > 0 && n < d * Pow(2, w) * FIRST
    ensures RoundDouble(n, d) <= FIRST * Pow(2, w)
  {
    hide Pow, RoundDiv, Spare;
    TwoTo53();
    KeptBits(n, d);
    var w' := Spare(n, d);
    if w' > 0 {
      HigherGrid(n, d, w', w, FIRST);
    }
    TwicePower(w - 1);
    PowMonotone(2, w', w - 1);
    MulLe(RoundDiv(n, d * Pow(2, w'), NearestEven), LAST, Pow(2, w'), Pow(2, w - 1));
  }

  /** n / d, not below m * 2^w = m * g / d, rounds to it. */
  predicate ReadsAbove(m: nat, g: nat, n: nat) {
    2 * (n - m * g) < g || (2 * (n - m * g) == g && m % 2 == 0)
  }

  /** n / d, below m * 2^w, rounds to it: at the start of a binade the grid below is finer. */
  predicate ReadsBelow(m: nat, w: nat, g: nat, n: nat) {
    if w > 0 && m == FIRST then 4 * (m * g - n) <= g
    else 2 * (m * g - n) < g || (2 * (m * g - n) == g && m % 2 == 0)
  }

  lemma GridPositive(d: nat, w: nat)
    requires d > 0
    ensures d * Pow(2, w) > 0
  {
    MulLe(1, d, 1, Pow(2, w));
  }

  lemma RoundsAbove(n: nat, d: nat, m: nat, w: nat)
    requires d > 0 && DoubleAt(m, w) && n >= m * (d * Pow(2, w))
    ensures RoundDouble(n, d) == m * Pow(2, w) <==> ReadsAbove(m, d * Pow(2, w), n)
  {
    hide Pow, RoundDouble;
    var g := d * Pow(2, w);
    GridPositive(d, w);
    MulLe(m + 1, LAST, g, g);
    MulSub(g, m + 1, 1);
    if w > 0 {
      MulLe(FIRST, m, g, g);
    }
    if n < g * LAST {
      InBinade(n, d, m, w);
    } else {
      AboveBinade(n, d, w);
      MulLe(m + 1, LAST, Pow(2, w), Pow(2, w));
      MulSub(Pow(2, w), m + 1, 1);
    }
  }

  lemma RoundsBelow(n: nat, d: nat, m: nat, w: nat)
    requires d > 0 && DoubleAt(m, w) && n < m * (d * Pow(2, w))
    ensures RoundDouble(n, d) == m * Pow(2, w) <==> ReadsBelow(m, w, d * Pow(2, w), n)
  {
    hide Pow, RoundDouble;
    var g := d * Pow(2, w);
    GridPositive(d, w);
    MulLe(m, LAST, g, g);
    if w > 0 && m == FIRST {
      RoundsBelowFirst(n, d, w);
    } else if w > 0 && n < g * FIRST {
      BelowBinade(n, d, w);
      MulLe(FIRST + 1, m, g, g);
      MulLe(FIRST + 1, m, Pow(2, w), Pow(2, w));
    } else {
      InBinade(n, d, m, w);
    }
  }

  /** Below the first number of a binade. */
  lemma RoundsBelowFirst(n: nat, d: nat, w: nat)
    requires d > 0 && w > 0 && n < FIRST * (d * Pow(2, w))
    ensures RoundDouble(n, d) == FIRST * Pow(2, w) <==> 4 * (FIRST * (d * Pow(2, w)) - n) <= d * Pow(2, w)
  {
    hide Pow, RoundDouble;
    TwicePower(w - 1);
    var p := Pow(2, w - 1);
    var g := d * p;
    GridPositive(d, w - 1);
    assert d * (2 * p) == 2 * g by { MulAssoc(d, 2, p); MulAssoc(2, d, p); }
    if n >= g * FIRST {
      InBinade(n, d, LAST, w - 1);
    } else if w - 1 > 0 {
      BelowBinade(n, d, w - 1);
    } else {
      SmallRatio(n, d);
    }
  }

  lemma SmallRatio(n: nat, d: nat)
    requires d > 0 && n < d * Pow(2, 0) * FIRST
    ensures RoundDouble(n, d) <= FIRST
  {
    hide RoundDiv;
    assert Pow(2, 0) == 1;
    var q, r := Divided(n, d);
    SpareOf(n, d, q, 1, 0);
    RoundAtMost(n, d, FIRST);
    var k := RoundDiv(n, d, NearestEven);
    assert k * 1 == k && d * 1 == d;
  }

  // ----- nearer ratios -----

  function Gap(a: int, b: int): nat {
    if a >= b then a - b else b - a
  }

  /** Only at the start of a binade, and across the number, a nearer ratio may not round to it. */
  lemma NearerReads(n: nat, n': nat, d: nat, m: nat, w: nat)
    requires d > 0 && DoubleAt(m, w) && RoundDouble(n', d) == m * Pow(2, w)
    requires var x := m * (d * Pow(2, w));
             Gap(n, x) <= Gap(n', x) && !(w > 0 && m == FIRST && n < x < n')
    ensures RoundDouble(n, d) == m * Pow(2, w)
  {
    hide Pow, RoundDouble;
    var g := d * Pow(2, w);
    GridPositive(d, w);
    if n >= m * g {
      RoundsAbove(n, d, m, w);
    } else {
      RoundsBelow(n, d, m, w);
    }
    if n' >= m * g {
      RoundsAbove(n', d, m, w);
    } else {
      RoundsBelow(n', d, m, w);
    }
  }

  // ----- the nearest decimal -----

  lemma GridNearest(x: nat, g: nat, j: nat)
    requires g > 0
    ensures Gap(RoundDiv(x, g, NearestEven) * g, x) <= Gap(j * g, x)
  {
    hide RoundDiv;
    RoundDivNear(x, g, NearestEven);
    var k := RoundDiv(x, g, NearestEven);
    if j > k {
      MulLe(k + 1, j, g, g);
      MulSub(g, k + 1, 1);
    } else if j < k {
      MulLe(j + 1, k, g, g);
      MulSub(g, j + 1, 1);
    }
  }

  /** A decimal on the grid that is finer by one digit, of as many digits. */
  lemma FinePoint(x: nat, g: nat, t: nat, k: nat, j: nat)
    requires g > 0 && t > 0 && k == RoundDiv(x, 10 * g, NearestEven) && k >= t
    requires RoundDiv(x, g, NearestEven) >= 10 * t && j < 10 * t
    ensures Gap(k * (10 * g), x) <= Gap(j * g, x)
  {
    hide RoundDiv;
    var top := t * (10 * g);
    assert top == (10 * t) * g by { MulAssoc(t, 10, g); assert t * 10 == 10 * t; }
    if x >= top {
      GridNearest(x, 10 * g, t);
      MulLe(j, 10 * t, g, g);
    } else {
      assert (10 * g) * t == top && g * (10 * t) == top;
      RoundAtMost(x, 10 * g, t);
      RoundAtMost(x, g, 10 * t);
      GridNearest(x, g, j);
    }
  }

  /** A decimal further down. */
  lemma LowPoint(x: nat, g: nat, t: nat, k: nat, y: nat)
    requires g > 0 && t > 0 && k == RoundDiv(x, 10 * g, NearestEven) && k >= t
    requires RoundDiv(x, g, NearestEven) >= 10 * t && y <= t * g
    ensures Gap(k * (10 * g), x) <= Gap(y, x)
  {
    hide RoundDiv;
    var j := 10 * t - 1;
    FinePoint(x, g, t, k, j);
    BelowRounded(x, g, 10 * t);
    MulLe(t, j, g, g);
  }

  lemma BelowRounded(x: nat, g: nat, h: nat)
    requires g > 0 && h > 0 && RoundDiv(x, g, NearestEven) >= h
    ensures x > (h - 1) * g
  {
    hide RoundDiv;
    var q, r := Divided(x, g);
    RoundDivIs(x, g, q, r, NearestEven);
    MulLe(h - 1, q, g, g);
    assert g * q == q * g;
    if q == h - 1 {
      assert r > 0;
    } else {
      MulLe(h, q, g, g);
      MulSub(g, h, 1);
    }
  }

  /** How the unit s of a decimal lies to the unit 10 u of the nearest one. */
  ghost predicate UnitKind(s: nat, u: nat) {
    s == u || 10 * s <= u || exists c: nat :: s == (10 * u) * c
  }

  /** k units s * p. */
  function Scaled(k: nat, s: nat, p: nat): nat {
    (k * s) * p
  }

  function Unit(s: nat, p: nat): nat {
    s * p
  }

  /**
   Of all decimals with digits below 10 t, the one that is rounded to is nearest to x. Its unit is 10 u p; with the unit
   u p the digits would reach 10 t.
   */
  lemma NearestDecimal(x: nat, p: nat, u: nat, t: nat, k: nat, k': nat, s: nat)
    requires p > 0 && u > 0 && t > 0 && k' < 10 * t && UnitKind(s, u)
    requires Unit(u, p) > 0 && Unit(10 * u, p) > 0 && k == RoundDiv(x, Unit(10 * u, p), NearestEven) && k >= t
    requires RoundDiv(x, Unit(u, p), NearestEven) >= 10 * t
    ensures Gap(Scaled(k, 10 * u, p), x) <= Gap(Scaled(k', s, p), x)
    ensures Scaled(k', s, p) > x > Scaled(k, 10 * u, p) ==> Scaled(k + 1, 10 * u, p) <= Scaled(k', s, p)
    ensures x > Scaled(k, 10 * u, p) ==> Scaled(k + 1, 10 * u, p) >= x
  {
    hide RoundDiv, NearestAt, Scaled;
    var g := Unit(u, p);
    assert Unit(10 * u, p) == 10 * g by { MulAssoc(10, u, p); }
    ScaledForm(k, u, p);
    ScaledForm(k + 1, u, p);
    NextPoint(x, 10 * g, k);
    if s == u {
      FineCase(x, g, t, k, k', s, p);
    } else if 10 * s <= u {
      SmallCase(x, g, t, k, k', s, u, p);
    } else {
      var c: nat :| s == (10 * u) * c;
      CoarseCase(x, g, k, k', s, u, c, p);
    }
    NearestMeans(x, g, k, Scaled(k', s, p));
  }

  /** k is nearest, with the unit 10 g, and y is not between it and the next point above it. */
  ghost predicate NearestAt(x: nat, g: nat, k: nat, y: nat) {
    Gap(k * (10 * g), x) <= Gap(y, x) && (y > x > k * (10 * g) ==> (k + 1) * (10 * g) <= y)
  }

  lemma NearestMeans(x: nat, g: nat, k: nat, y: nat)
    requires NearestAt(x, g, k, y)
    ensures Gap(k * (10 * g), x) <= Gap(y, x) && (y > x > k * (10 * g) ==> (k + 1) * (10 * g) <= y)
  {
  }

  lemma ScaledForm(k: nat, u: nat, p: nat)
    ensures Scaled(k, 10 * u, p) == k * (10 * Unit(u, p))
  {
    UnitProducts(k, u, p, Unit(u, p));
  }

  lemma FineCase(x: nat, g: nat, t: nat, k: nat, k': nat, s: nat, p: nat)
    requires g > 0 && t > 0 && k == RoundDiv(x, 10 * g, NearestEven) && k >= t && g == Unit(s, p)
    requires RoundDiv(x, g, NearestEven) >= 10 * t && k' < 10 * t
    ensures NearestAt(x, g, k, Scaled(k', s, p))
  {
    hide RoundDiv;
    MulAssoc(k', s, p);
    FinePoint(x, g, t, k, k');
    FineBelow(k', t, k, g);
  }

  lemma SmallCase(x: nat, g: nat, t: nat, k: nat, k': nat, s: nat, u: nat, p: nat)
    requires g > 0 && t > 0 && k == RoundDiv(x, 10 * g, NearestEven) && k >= t && g == Unit(u, p)
    requires RoundDiv(x, g, NearestEven) >= 10 * t && k' < 10 * t && 10 * s <= u
    ensures NearestAt(x, g, k, Scaled(k', s, p))
  {
    hide RoundDiv;
    SmallUnit(k', s, u, p, t, g);
    LowPoint(x, g, t, k, Scaled(k', s, p));
    MulLe(t, k, g, g);
    assert k * (10 * g) == 10 * (k * g) by { MulAssoc(k, 10, g); MulAssoc(10, k, g); assert k * 10 == 10 * k; }
  }

  lemma CoarseCase(x: nat, g: nat, k: nat, k': nat, s: nat, u: nat, c: nat, p: nat)
    requires g > 0 && k == RoundDiv(x, 10 * g, NearestEven) && g == Unit(u, p) && s == (10 * u) * c
    ensures NearestAt(x, g, k, Scaled(k', s, p))
  {
    hide RoundDiv;
    CoarseUnit(k', s, u, c, p, g);
    GridNearest(x, 10 * g, k' * c);
    GridOrder(k, k' * c, 10 * g);
  }

  lemma UnitProducts(k: nat, u: nat, p: nat, g: nat)
    requires g == u * p
    ensures (k * (10 * u)) * p == k * (10 * g)
  {
    MulAssoc(k, 10 * u, p);
    MulAssoc(10, u, p);
  }

  lemma NextPoint(x: nat, g: nat, k: nat)
    requires g > 0 && k == RoundDiv(x, g, NearestEven)
    ensures (k + 1) * g == k * g + g && (k + 1) * g >= x
  {
    hide RoundDiv;
    RoundDivNear(x, g, NearestEven);
    MulSub(g, k + 1, 1);
  }

  lemma FineBelow(k': nat, t: nat, k: nat, g: nat)
    requires k' < 10 * t && t <= k
    ensures k' * g <= k * (10 * g)
  {
    MulLe(k', 10 * k, g, g);
    MulAssoc(k, 10, g);
    assert k * 10 == 10 * k;
  }

  lemma SmallUnit(k': nat, s: nat, u: nat, p: nat, t: nat, g: nat)
    requires k' < 10 * t && 10 * s <= u && g == u * p
    ensures (k' * s) * p <= t * g
  {
    MulLe(k', 10 * t, s, s);
    assert (10 * t) * s == t * (10 * s) by { MulAssoc(t, 10, s); assert 10 * t == t * 10; }
    MulLe(t, t, 10 * s, u);
    MulLe(k' * s, t * u, p, p);
    MulAssoc(t, u, p);
  }

  lemma CoarseUnit(k': nat, s: nat, u: nat, c: nat, p: nat, g: nat)
    requires s == (10 * u) * c && g == u * p
    ensures (k' * s) * p == (k' * c) * (10 * g)
  {
    assert s * p == c * (10 * g) by {
      assert s == c * (10 * u);
      UnitProducts(c, u, p, g);
    }
    MulAssoc(k', s, p);
    MulAssoc(k', c, 10 * g);
  }

  lemma GridOrder(k: nat, j: nat, g: nat)
    requires g > 0
    ensures j * g > k * g ==> (k + 1) * g <= j * g
  {
    MulCompare(g, k, j);
    assert k * g == g * k && j * g == g * j;
    if j > k {
      MulLe(k + 1, j, g, g);
    }
  }

  // ----- decimals in units -----

  /** 10^h in units, as a ratio. */
  function TenUp(h: int): (p: nat)
    ensures p > 0
  {
    PowPositiveProduct(h);
    Pow(2, 1074) * Pow(10, Plus(h))
  }

  function TenDown(h: int): (q: nat)
    ensures q > 0
  {
    Pow(10, Plus(-h))
  }

  lemma PowPositiveProduct(h: int)
    ensures Pow(2, 1074) * Pow(10, Plus(h)) > 0
  {
    hide Pow;
    PowerPositive(1074);
    MulLe(1, Pow(2, 1074), 1, Pow(10, Plus(h)));
  }

  lemma DecimalRatio(k: nat, h: int)
    ensures NearestUnits(k, 10, h) == RoundDouble(k * TenUp(h), TenDown(h))
  {
    hide RoundDouble, Pow, Numerator, Denominator, Plus;
    ProductForm(k, 10, h);
  }

  lemma DecimalAt(k: nat, f: int, h: int)
    requires h <= f
    ensures NearestUnits(k, 10, f) == RoundDouble(Scaled(k, Pow(10, f - h), TenUp(h)), TenDown(h))
  {
    hide NearestUnits, RoundDouble, Pow, TenUp, TenDown;
    ScaleDigits(k, 10, h, f - h);
    DecimalRatio(k * Pow(10, f - h), h);
  }

  /** What the number is rounded from, in units. */
  lemma RoundedRatio(m: nat, e: int, r: nat, g: int)
    requires IsUnits(m, e, r)
    ensures RoundDiv(Numerator(m, e - 53, 10, -g), Denominator(e - 53, 10, -g), NearestEven)
         == RoundDiv(r * TenDown(g), TenUp(g), NearestEven)
  {
    hide RoundDiv, Numerator, Denominator, Pow, Plus, IsUnits;
    CrossScale(m, e, r, 1, -g);
    ProductForm(1, 10, g);
    var n, d := Numerator(m, e - 53, 10, -g), Denominator(e - 53, 10, -g);
    assert 1 * TenUp(g) == TenUp(g) && 1 * d == d;
    assert TenUp(g) * n == n * TenUp(g);
    RoundDivSameRatio(n, d, r * TenDown(g), TenUp(g), NearestEven);
  }

  /** The same, with the unit at a smaller exponent. */
  lemma RoundedRatioAt(r: nat, g: int, h: int)
    requires h <= g
    ensures Unit(Pow(10, g - h), TenUp(h)) > 0
    ensures RoundDiv(r * TenDown(g), TenUp(g), NearestEven) == RoundDiv(r * TenDown(h), Unit(Pow(10, g - h), TenUp(h)), NearestEven)
  {
    hide RoundDiv, Pow;
    var s := Pow(10, g - h);
    MulLe(1, s, 1, TenUp(h));
    PowAdd(10, g - h, Plus(h));
    PowAdd(10, g - h + Plus(h), Plus(-g));
    PowAdd(10, Plus(g), Plus(-h));
    assert g - h + Plus(h) + Plus(-g) == Plus(g) + Plus(-h);
    RatioProducts(r, Pow(2, 1074), s, Pow(10, Plus(h)), Pow(10, Plus(-g)), Pow(10, Plus(g)), Pow(10, Plus(-h)));
    RoundDivSameRatio(r * TenDown(g), TenUp(g), r * TenDown(h), s * TenUp(h), NearestEven);
  }

  lemma RatioProducts(r: nat, a: nat, s: nat, hu: nat, gd: nat, gu: nat, hd: nat)
    requires (s * hu) * gd == gu * hd
    ensures (r * gd) * (s * (a * hu)) == (r * hd) * (a * gu)
  {
    assert s * (a * hu) == a * (s * hu) by { MulAssoc(s, a, hu); MulAssoc(a, s, hu); assert s * a == a * s; }
    MulSwap(r, gd, a, s * hu);
    MulSwap(r, hd, a, gu);
    assert gd * (s * hu) == hd * gu;
  }

  // ----- the fewest digits -----

  /** Some decimal of at most q digits reads back as the number. */
  ghost predicate Reachable(r: nat, q: nat) {
    exists k: nat, f: int :: k < Pow(10, q) && NearestUnits(k, 10, f) == r
  }

  /** The mantissa is a power of two, and not in the lowest binade. */
  predicate Uneven(m: nat, e: int) {
    m == FIRST && e > -1021
  }

  lemma UnitsApart(g: int, f: int) returns (h: int, u: nat, s: nat)
    ensures h <= g - 1 && h <= f && u == Pow(10, g - 1 - h) && s == Pow(10, f - h) && 10 * u == Pow(10, g - h)
    ensures u > 0 && UnitKind(s, u)
  {
    h := if f < g - 1 then f else g - 1;
    u, s := Pow(10, g - 1 - h), Pow(10, f - h);
    assert g - h == (g - 1 - h) + 1;
    assert Pow(10, 0) == 1;
    if f >= g {
      var c := Pow(10, f - g);
      assert f - h == (f - g) + 1;
      assert s == (10 * u) * c;
    } else if f < g - 1 {
      assert u == 10 * Pow(10, g - 2 - h);
    }
  }

  /** The nearest decimal of q digits, or the one above it, reads back, if any decimal of q digits does. */
  lemma NearestOrNext(m: nat, e: int, r: nat, q: nat, E: int, k: nat, k': nat, f: int)
    requires Mantissa(m, e) && IsUnits(m, e, r) && RoundedTo(m, e, q, E, k)
    requires k' < Pow(10, q) && NearestUnits(k', 10, f) == r
    ensures NearestUnits(k, 10, E - q) == r || (NearestUnits(k + 1, 10, E - q) == r && Uneven(m, e))
  {
    hide RoundDouble, NearestUnits, Pow, Numerator, Denominator, RoundDiv, IsUnits, Mantissa, UnitKind, TenUp, TenDown, DoubleAt, Scaled, Unit;
    var g := E - q;
    var h, u, s := UnitsApart(g, f);
    RoundedRatio(m, e, r, g);
    RoundedRatio(m, e, r, g - 1);
    RoundedRatioAt(r, g, h);
    RoundedRatioAt(r, g - 1, h);
    TenTimes(q);
    DecimalAt(k, g, h);
    DecimalAt(k + 1, g, h);
    DecimalAt(k', f, h);
    var m', w := DoubleForm(m, e, r);
    IsDoubleAt(m', w);
    NearestOrNextAt(r, m', w, TenUp(h), TenDown(h), u, Pow(10, q - 1), k, k', s);
  }

  /** The same with all decimals in one unit p / d. */
  lemma NearestOrNextAt(r: nat, m: nat, w: nat, p: nat, d: nat, u: nat, t: nat, k: nat, k': nat, s: nat)
    requires DoubleAt(m, w) && r == m * Pow(2, w) && p > 0 && d > 0 && u > 0 && t > 0 && k' < 10 * t && UnitKind(s, u)
    requires Unit(u, p) > 0 && Unit(10 * u, p) > 0 && k == RoundDiv(r * d, Unit(10 * u, p), NearestEven) && k >= t
    requires RoundDiv(r * d, Unit(u, p), NearestEven) >= 10 * t && RoundDouble(Scaled(k', s, p), d) == r
    ensures RoundDouble(Scaled(k, 10 * u, p), d) == r
            || (RoundDouble(Scaled(k + 1, 10 * u, p), d) == r && w > 0 && m == FIRST)
  {
    hide RoundDouble, Pow, RoundDiv, UnitKind, DoubleAt, Scaled, Unit;
    NearestDecimal(r * d, p, u, t, k, k', s);
    var n, n', n2 := Scaled(k, 10 * u, p), Scaled(k', s, p), Scaled(k + 1, 10 * u, p);
    assert r * d == m * (d * Pow(2, w)) by { MulAssoc(m, Pow(2, w), d); assert Pow(2, w) * d == d * Pow(2, w); }
    OneOfTheTwo(n, n', n2, d, m, w);
  }

  lemma OneOfTheTwo(n: nat, n': nat, n2: nat, d: nat, m: nat, w: nat)
    requires d > 0 && DoubleAt(m, w) && RoundDouble(n', d) == m * Pow(2, w)
    requires var x := m * (d * Pow(2, w)); Gap(n, x) <= Gap(n', x) && (n' > x > n ==> x <= n2 <= n')
    ensures RoundDouble(n, d) == m * Pow(2, w) || (RoundDouble(n2, d) == m * Pow(2, w) && w > 0 && m == FIRST)
  {
    hide RoundDouble, Pow, DoubleAt;
    var x := m * (d * Pow(2, w));
    if n < x < n' && w > 0 && m == FIRST {
      NearerReads(n2, n', d, m, w);
    } else {
      NearerReads(n, n', d, m, w);
    }
  }

  lemma IsDoubleAt(m: nat, w: nat)
    requires 0 < m < LAST && (w > 0 ==> m >= FIRST)
    ensures DoubleAt(m, w)
  {
  }

  /** k + 1 has as many digits as k, or one more that is 0. */
  lemma NextIsReachable(r: nat, q: nat, k: nat, g: int)
    requires q >= 1 && k < Pow(10, q) && NearestUnits(k + 1, 10, g) == r
    ensures Reachable(r, q)
  {
    hide NearestUnits, Pow;
    TenTimes(q);
    if k + 1 == Pow(10, q) {
      TrimOne(Pow(10, q - 1), g);
      assert Pow(10, q - 1) < Pow(10, q) && NearestUnits(Pow(10, q - 1), 10, g + 1) == r;
    }
  }

  /**
   For every positive double and every number q of digits, with k the number rounded to q digits: some decimal of at most
   q digits reads back as the number if and only if that one does, or the next one above it; and the second happens
   without the first only if the mantissa is a power of two, above the lowest binade.
   */
  lemma ReachableExactly(m: nat, e: int, r: nat, q: nat, E: int, k: nat)
    requires Mantissa(m, e) && IsUnits(m, e, r) && RoundedTo(m, e, q, E, k)
    ensures Reachable(r, q) <==> NearestUnits(k, 10, E - q) == r || NearestUnits(k + 1, 10, E - q) == r
    ensures Reachable(r, q) && NearestUnits(k, 10, E - q) != r ==> Uneven(m, e)
  {
    hide NearestUnits, Numerator, Denominator, RoundDiv, Mantissa, IsUnits, Pow;
    if NearestUnits(k, 10, E - q) != r && NearestUnits(k + 1, 10, E - q) == r {
      NextIsReachable(r, q, k, E - q);
    }
    forall k': nat, f: int | k' < Pow(10, q) && NearestUnits(k', 10, f) == r
      ensures NearestUnits(k, 10, E - q) == r || (NearestUnits(k + 1, 10, E - q) == r && Uneven(m, e))
    {
      NearestOrNext(m, e, r, q, E, k, k', f);
    }
  }

  lemma FewerReachable(r: nat, q: nat, q': nat)
    requires Reachable(r, q) && q <= q'
    ensures Reachable(r, q')
  {
    hide NearestUnits;
    var k: nat, f: int :| k < Pow(10, q) && NearestUnits(k, 10, f) == r;
    PowMonotone(10, q, q');
  }

  /** The decimal next above the one that is rounded to reads back. */
  ghost predicate NextReads(m: nat, e: int, r: nat, q: nat) {
    exists E: int, k: nat :: RoundedTo(m, e, q, E, k) && NearestUnits(k + 1, 10, E - q) == r
  }

  lemma NextIsEnough(m: nat, e: int, r: nat, q: nat)
    requires Mantissa(m, e) && IsUnits(m, e, r) && NextReads(m, e, r, q)
    ensures Reachable(r, q)
  {
    hide NearestUnits, RoundedTo, Mantissa, IsUnits, Reachable;
    var E: int, k: nat :| RoundedTo(m, e, q, E, k) && NearestUnits(k + 1, 10, E - q) == r;
    ReachableExactly(m, e, r, q, E, k);
  }

  /** Digits are the fewest: no decimal of fewer digits reads back. */
  ghost predicate Fewest(r: nat, p: nat) {
    forall q: nat | q < p :: !Reachable(r, q)
  }

  /**
   Where the search stops: its digits are the fewest if and only if the next decimal above the one it gave up on does not
   read back either; and they are the fewest for every number whose mantissa is not a power of two.
   */
  lemma FewestExactly(m: nat, e: int, r: nat, p: nat)
    requires Mantissa(m, e) && IsUnits(m, e, r) && p > 1 && TooShort(m, e, r, p - 1)
    ensures Fewest(r, p) <==> !NextReads(m, e, r, p - 1)
    ensures !Uneven(m, e) ==> Fewest(r, p)
  {
    hide NearestUnits, RoundedTo, Mantissa, IsUnits, Reachable;
    var E: int, k: nat :| RoundedTo(m, e, p - 1, E, k) && NearestUnits(k, 10, E - (p - 1)) != r;
    ReachableExactly(m, e, r, p - 1, E, k);
    if NextReads(m, e, r, p - 1) {
      NextIsEnough(m, e, r, p - 1);
    } else {
      assert NearestUnits(k + 1, 10, E - (p - 1)) != r;
    }
    forall q: nat | q < p && Reachable(r, q) ensures Reachable(r, p - 1) {
      FewerReachable(r, q, p - 1);
    }
  }

  // ----- what is printed -----

  /** A smaller exponent gives more digits. */
  lemma {:induction false} FinerRounds(m: nat, e: int, f: int, j: nat)
    ensures RoundDiv(Numerator(m, e, 10, f), Denominator(e, 10, f), NearestEven)
         <= RoundDiv(Numerator(m, e, 10, f + j), Denominator(e, 10, f + j), NearestEven)
  {
    hide RoundDiv, Numerator, Denominator;
    if j > 0 {
      FinerRounds(m, e, f, j - 1);
      var i := f + j - 1;
      TenthRatio(m, e, i + 1);
      var n, d' := Numerator(m, e, 10, i), Denominator(e, 10, i + 1);
      assert n * (10 * d') == 10 * (n * d') by { MulAssoc(n, 10, d'); MulAssoc(10, n, d'); assert n * 10 == 10 * n; }
      RoundDivMonotone(n, Denominator(e, 10, i), Numerator(m, e, 10, i + 1), d');
    }
  }

  /** A number is rounded to p digits in one way only. */
  lemma RoundedUnique(m: nat, e: int, p: nat, E: int, k: nat, E': int, k': nat)
    requires RoundedTo(m, e, p, E, k) && RoundedTo(m, e, p, E', k')
    ensures E == E' && k == k'
  {
    hide RoundDiv, Numerator, Denominator, Pow;
    if E < E' {
      FinerRounds(m, e - 53, p - E' + 1, E' - E - 1);
    } else if E' < E {
      FinerRounds(m, e - 53, p - E + 1, E - E' - 1);
    }
  }

  /** A number that the next decimal above stands for with some number of digits, while the nearest does not. */
  ghost predicate MissedAbove(r: nat) {
    exists m: nat, e: int, q: nat ::
      Mantissa(m, e) && IsUnits(m, e, r) && q < 17 && NextReads(m, e, r, q) && TooShort(m, e, r, q)
  }

  lemma NotBoth(m: nat, e: int, r: nat, q: nat)
    ensures !(LongEnough(m, e, r, q) && TooShort(m, e, r, q))
  {
    hide RoundedTo, NearestUnits;
    forall E: int, k: nat, E': int, k': nat | RoundedTo(m, e, q, E, k) && RoundedTo(m, e, q, E', k') ensures E == E' && k == k' {
      RoundedUnique(m, e, q, E, k, E', k');
    }
  }

  lemma NoDigitsReach(r: nat)
    requires r > 0
    ensures !Reachable(r, 0)
  {
    hide NearestUnits;
    assert Pow(10, 0) == 1;
    forall k: nat, f: int | k < Pow(10, 0) ensures NearestUnits(k, 10, f) != r {
      ZeroNearest(10, f);
    }
  }

  /** The digits that js_dtoa prints are the fewest that read back, if and only if the number is not missed above. */
  lemma SearchedFewest(r: nat, mant: nat, p: nat, E: int)
    requires Represents(r, mant, p, E) && Searched(r, mant, p, E)
    ensures Fewest(r, p) <==> !MissedAbove(r)
  {
    hide RoundedTo, IsUnits, NextReads, TooShort, LongEnough, Reachable, Represents;
    var m: nat, e: int := SearchedAt(r, mant, p, E);
    UnitsPositive(m, e, r);
    AtMostSeventeen(r, mant, p, E);
    if p > 1 {
      FewestExactly(m, e, r, p);
    } else {
      NoDigitsReach(r);
    }
    forall m': nat, e': int, q: nat
      | Mantissa(m', e') && IsUnits(m', e', r) && q < 17 && NextReads(m', e', r, q) && TooShort(m', e', r, q)
      ensures q < p && Reachable(r, q)
    {
      SameMantissa(m, e, m', e', r);
      NextIsEnough(m, e, r, q);
      NotBoth(m, e, r, q);
    }
  }

  lemma SearchedAt(r: nat, mant: nat, p: nat, E: int) returns (m: nat, e: int)
    requires Searched(r, mant, p, E)
    ensures Mantissa(m, e) && IsUnits(m, e, r) && RoundedTo(m, e, p, E, mant) && (p > 1 ==> TooShort(m, e, r, p - 1))
    ensures AllLongEnough(m, e, r, p, 17)
  {
    hide Mantissa, IsUnits, RoundedTo, TooShort, AllLongEnough;
    m, e :|
      && Mantissa(m, e) && IsUnits(m, e, r) && RoundedTo(m, e, p, E, mant) && (p > 1 ==> TooShort(m, e, r, p - 1))
      && AllLongEnough(m, e, r, p, 17);
  }

  lemma AtMostSeventeen(r: nat, mant: nat, p: nat, E: int)
    requires Represents(r, mant, p, E)
    ensures 1 <= p <= 17
  {
  }

  lemma SameMantissa(m: nat, e: int, m': nat, e': int, r: nat)
    requires Mantissa(m, e) && Mantissa(m', e') && IsUnits(m, e, r) && IsUnits(m', e', r)
    ensures m == m' && e == e'
  {
    hide IsUnits;
    UnitsPositive(m, e, r);
    UnitsForm(m, e, m', e', r);
  }

  /** They are the fewest for every number with a fraction that is not zero, that is, which is not a power of two. */
  lemma FewestUnlessPower(b: nat, mant: nat, p: nat, E: int)
    requires 0 < b < INFINITY && b % TWO52 != 0 && Represents(BitsUnits(b), mant, p, E) && Searched(BitsUnits(b), mant, p, E)
    ensures Fewest(BitsUnits(b), p) && !MissedAbove(BitsUnits(b))
  {
    hide RoundedTo, IsUnits, NextReads, TooShort, LongEnough, BitsUnits, Fewest, Reachable, Represents;
    var r := BitsUnits(b);
    SearchedFewest(r, mant, p, E);
    AtMostSeventeen(r, mant, p, E);
    var m: nat, e: int := SearchedAt(r, mant, p, E);
    UnitsPositive(m, e, r);
    FractionIsEven(b, m, e);
    if p > 1 {
      FewestExactly(m, e, r, p);
    } else {
      NoDigitsReach(r);
      assert Fewest(r, 1) by { OnlyZero(r); }
    }
  }

  lemma OnlyZero(r: nat)
    requires !Reachable(r, 0)
    ensures Fewest(r, 1)
  {
    hide Reachable;
  }

  lemma FractionIsEven(b: nat, m: nat, e: int)
    requires 0 < b < INFINITY && b % TWO52 != 0 && Mantissa(m, e) && IsUnits(m, e, BitsUnits(b))
    ensures !Uneven(m, e)
  {
    var x, f := b / TWO52, b % TWO52;
    if x == 0 {
      MulLe(FIRST, m, 1, if e >= -1021 then Pow(2, e + 1021) else 1);
    } else if e > -1021 {
      ExponentForm(TWO52 + f, m, x - 1, e + 1021);
    }
  }

  // ----- 2^-44 -----

  const TWO44: nat := 0x1000_0000_0000
  const TEN29: nat := 100000000000000000000000000000

  /** The bits of 2^-44. */
  const MINUS44: nat := 979 * 0x10_0000_0000_0000

  lemma Minus44()
    ensures MINUS44 < INFINITY && BitsUnits(MINUS44) == FIRST * Pow(2, 978) && IsUnits(FIRST, -43, BitsUnits(MINUS44))
    ensures Mantissa(FIRST, -43)
  {
  }

  lemma PowersAt44()
    ensures Pow(2, 1074) == (FIRST * TWO44) * Pow(2, 978) && Pow(10, 29) == TEN29 && Pow(2, 96) == FIRST * TWO44
  {
    hide Pow;
    TwoTo53();
    Pow2Table(22);
    TenTo29();
    PowAdd(2, 22, 22);
    PowAdd(2, 52, 44);
    PowAdd(2, 96, 978);
  }

  lemma TenTo29()
    ensures Pow(10, 29) == TEN29
  {
    assert Pow(10, 5) == 100000;
    PowAdd(10, 5, 5);
    PowAdd(10, 10, 10);
    PowAdd(10, 20, 10);
    TenTimes(30);
  }

  /** Which decimals with 29 digits after the dot read as 2^-44. */
  lemma ReadsAs44(k: nat)
    ensures NearestUnits(k, 10, -29) == FIRST * Pow(2, 978) <==>
            if k * TWO44 >= TEN29 then 2 * FIRST * (k * TWO44 - TEN29) <= TEN29 else 4 * FIRST * (TEN29 - k * TWO44) <= TEN29
  {
    hide RoundDouble, NearestUnits, Pow, TenUp, TenDown, ReadsAbove, ReadsBelow, DoubleAt;
    UnitAt44();
    DecimalRatio(k, -29);
    IsDoubleAt(FIRST, 978);
    var p := Pow(2, 978);
    PowerPositive(978);
    var n, d := k * TenUp(-29), TenDown(-29);
    UnitsAt44(k, p);
    Around44(n, p, k * TWO44);
    if n >= FIRST * (d * p) {
      RoundsAbove(n, d, FIRST, 978);
    } else {
      RoundsBelow(n, d, FIRST, 978);
    }
  }

  lemma UnitAt44()
    ensures TenUp(-29) == (FIRST * TWO44) * Pow(2, 978) && TenDown(-29) == TEN29
  {
    PowersAt44();
    assert Pow(10, 0) == 1;
    hide Pow;
    assert Pow(2, 1074) * 1 == Pow(2, 1074);
  }

  lemma UnitsAt44(k: nat, p: nat)
    ensures k * ((FIRST * TWO44) * p) == p * (FIRST * (k * TWO44))
  {
    MulAssoc(k, FIRST * TWO44, p);
    assert k * (FIRST * TWO44) == FIRST * (k * TWO44);
  }

  /** The comparisons with the number, without the common power of two. */
  lemma Around44(n: nat, p: nat, a: nat)
    requires p > 0 && n == p * (FIRST * a)
    ensures var g := TEN29 * p;
            && (n >= FIRST * g <==> a >= TEN29)
            && (n >= FIRST * g ==> (ReadsAbove(FIRST, g, n) <==> 2 * FIRST * (a - TEN29) <= TEN29))
            && (n < FIRST * g ==> (ReadsBelow(FIRST, 978, g, n) <==> 4 * FIRST * (TEN29 - a) <= TEN29))
  {
    MulCompare(p, FIRST * a, FIRST * TEN29);
    assert FIRST * (TEN29 * p) == p * (FIRST * TEN29);
    MulCompare(p, TEN29, 2 * FIRST * Gap(a, TEN29));
    MulCompare(p, TEN29, 4 * FIRST * Gap(a, TEN29));
    MulSub(p, FIRST * a, FIRST * TEN29);
    Fold44(p, FIRST * Gap(a, TEN29));
    assert TEN29 * p == p * TEN29;
  }

  lemma Fold44(p: nat, y: nat)
    ensures p * (2 * y) == 2 * (p * y) && p * (4 * y) == 4 * (p * y)
  {
  }

  /** 2^-44 times 10^f, rounded. */
  lemma Rounded44(f: nat)
    ensures RoundDiv(Numerator(FIRST, -96, 10, f), Denominator(-96, 10, f), NearestEven) == RoundDiv(Pow(10, f), TWO44, NearestEven)
  {
    hide Pow, RoundDiv;
    PowersAt44();
    assert Numerator(FIRST, -96, 10, f) == FIRST * Pow(10, f) && Denominator(-96, 10, f) == FIRST * TWO44;
    RoundDivScale(Pow(10, f), TWO44, FIRST, NearestEven);
  }

  lemma TensAt44()
    ensures Pow(10, 28) == TEN29 / 10 && Pow(10, 29) == TEN29 && Pow(10, 30) == 10 * TEN29
    ensures Pow(10, 14) == 100000000000000 && Pow(10, 15) == 1000000000000000 && Pow(10, 16) == 10000000000000000
  {
    TenTo29();
    TenTimes(29);
    TenTimes(30);
    assert Pow(10, 7) == 10000000;
    PowAdd(10, 7, 7);
    TenTimes(15);
    TenTimes(16);
  }

  /** 2^-44, rounded to 15 and to 16 digits. */
  lemma Digits44()
    ensures RoundedTo(FIRST, -43, 15, -13, 568434188608080) && RoundedTo(FIRST, -43, 16, -13, 5684341886080801)
  {
    hide Pow, Numerator, Denominator;
    TensAt44();
    Rounded44(28);
    Rounded44(29);
    Rounded44(30);
    RoundedQuotients();
  }

  lemma RoundedQuotients()
    ensures RoundDiv(TEN29 / 10, TWO44, NearestEven) == 568434188608080
    ensures RoundDiv(TEN29, TWO44, NearestEven) == 5684341886080801
    ensures RoundDiv(10 * TEN29, TWO44, NearestEven) == 56843418860808015
  {
  }

  /** Of the decimals around 2^-44 with 15 digits none reads back as it, and with 16 digits only the one above. */
  lemma Neighbours44()
    ensures var r := FIRST * Pow(2, 978);
            && NearestUnits(568434188608080, 10, -28) != r && NearestUnits(568434188608081, 10, -28) != r
            && NearestUnits(5684341886080801, 10, -29) != r && NearestUnits(5684341886080802, 10, -29) == r
  {
    hide NearestUnits, Pow;
    TrimOne(568434188608080, -29);
    TrimOne(568434188608081, -29);
    ReadsAs44(5684341886080800);
    ReadsAs44(5684341886080810);
    ReadsAs44(5684341886080801);
    ReadsAs44(5684341886080802);
  }

  lemma RoundDivMonotone(n: nat, d: nat, n': nat, d': nat)
    requires d > 0 && d' > 0 && n * d' <= n' * d
    ensures RoundDiv(n, d, NearestEven) <= RoundDiv(n', d', NearestEven)
  {
    hide RoundDiv;
    RoundDivScale(n, d, d', NearestEven);
    RoundDivScale(n', d', d, NearestEven);
    assert d' * n == n * d' && d * n' == n' * d && d' * d == d * d';
    RoundMonotone(n * d', n' * d, d * d');
  }

  lemma RoundMonotone(a: nat, b: nat, g: nat)
    requires g > 0 && a <= b
    ensures RoundDiv(a, g, NearestEven) <= RoundDiv(b, g, NearestEven)
  {
    hide RoundDiv;
    var q, r := Divided(a, g);
    var q', r' := Divided(b, g);
    RoundDivIs(a, g, q, r, NearestEven);
    RoundDivIs(b, g, q', r', NearestEven);
    if q > q' {
      MulLe(g, g, q' + 1, q);
      MulAdd(g, q', 1);
    }
  }

  /** For 2^-44 the search stops with 17 digits, although 5684341886080802 * 10^-29, of 16 digits, reads back as 2^-44. */
  lemma NotFewestFor44(mant: nat, p: nat, E: int)
    requires Represents(BitsUnits(MINUS44), mant, p, E) && Searched(BitsUnits(MINUS44), mant, p, E)
    ensures p == 17 && Reachable(BitsUnits(MINUS44), 16) && !Fewest(BitsUnits(MINUS44), p)
  {
    hide NearestUnits, RoundedTo, Mantissa, IsUnits, Pow, Reachable, BitsUnits, TooShort;
    var r := BitsUnits(MINUS44);
    Minus44();
    Digits44();
    Neighbours44();
    TensAt44();
    ReachableExactly(FIRST, -43, r, 15, -13, 568434188608080);
    ReachableExactly(FIRST, -43, r, 16, -13, 5684341886080801);
    var m: nat, e: int :| Mantissa(m, e) && IsUnits(m, e, r) && RoundedTo(m, e, p, E, mant) && (p > 1 ==> TooShort(m, e, r, p - 1));
    SameMantissa(m, e, FIRST, -43, r);
    ReachedBy(r, mant, p, E);
    if p <= 15 {
      FewerReachable(r, p, 15);
    } else if p == 16 {
      RoundedUnique(FIRST, -43, 16, E, mant, -13, 5684341886080801);
    }
  }

  lemma ReachedBy(r: nat, mant: nat, p: nat, E: int)
    requires Represents(r, mant, p, E)
    ensures Reachable(r, p)
  {
    hide NearestUnits;
  }
}

/**
 Binary64 numbers as whole multiples of 2^-1074, rounding a ratio to the nearest of them, and the code that does it.
 */
module Binary64 {
  import opened Powers
  import opened Rounding
  import opened Limbs
  import opened BigNumbers
  import opened RadixTables
  import opened Scaling

  predicate Significant(y: nat, j: nat, w: nat) {
    j < Pow(2, 53) && y == j * Pow(2, w)
  }

  /** y, in units of 2^-1074, has at most 53 significant bits. */
  ghost predicate IsDouble(y: nat) {
    exists j: nat, w: nat :: Significant(y, j, w)
  }

  /** The bits below the 53 that a number near n / d keeps. */
  function Spare(n: nat, d: nat): nat
    requires d > 0
  {
    var b := BitLength(n / d);
    if b > 53 then b - 53 else 0
  }

  /** The ratio n / d, in units, rounded to 53 bits or to whole units, ties to even. */
  function RoundDouble(n: nat, d: nat): nat
    requires d > 0
  {
    var w := Spare(n, d);
    RoundDiv(n, d * Pow(2, w), NearestEven) * Pow(2, w)
  }

  // ----- the rounded number is the nearest one -----

  /** The distance of y from n / d, times d. */
  function Distance(n: nat, d: nat, y: nat): (r: nat) {
    if y * d >= n then y * d - n else n - y * d
  }

  /** The kept bits: between 2^52 and 2^53 when some are spare, and anything up to 2^53 else. */
  lemma KeptBits(n: nat, d: nat)
    requires d > 0
    ensures var w := Spare(n, d);
            d * Pow(2, w) > 0 && n < d * Pow(2, w) * Pow(2, 53) && RoundDiv(n, d * Pow(2, w), NearestEven) <= Pow(2, 53)
            && (w > 0 ==> n >= d * Pow(2, w) * Pow(2, 52) && RoundDiv(n, d * Pow(2, w), NearestEven) >= Pow(2, 52))
  {
    var w, q := Spare(n, d), n / d;
    var q', r := Divided(n, d);
    var p, g := Pow(2, w), Pow(2, 53);
    PowAdd(2, w, 53);
    PowAdd(2, w, 52);
    if q == 0 {
      assert d * 0 == 0;
    } else {
      BitLengthBounds(q);
      PowMonotone(2, BitLength(q), w + 53);
      if w > 0 {
        assert BitLength(q) - 1 == w + 52;
      }
    }
    hide Pow, BitLength, RoundDiv;
    assert q < p * g by { if q == 0 { MulLe(1, p, 1, g); } }
    KeptOnGrid(n, d, q, r, p, g, Pow(2, 52), w);
  }

  lemma KeptOnGrid(n: nat, d: nat, q: nat, r: nat, p: nat, g: nat, h: nat, w: nat)
    requires d > 0 && p > 0 && n == d * q + r && r < d && q < p * g && (w > 0 ==> p * h <= q)
    ensures d * p > 0 && n < d * p * g && RoundDiv(n, d * p, NearestEven) <= g
    ensures w > 0 ==> n >= d * p * h && RoundDiv(n, d * p, NearestEven) >= h
  {
    hide RoundDiv;
    RatioBounds(n, d, q, r, p * g);
    MulAssoc(d, p, g);
    MulAssoc(d, p, h);
    MulLe(1, d, 1, p);
    RoundAtMost(n, d * p, g);
    if w > 0 {
      MulLe(d, d, p * h, q);
      RoundAtLeast(n, d * p, h);
    }
  }

  lemma RatioBounds(n: nat, d: nat, q: nat, r: nat, m: nat)
    requires n == d * q + r && r < d && q < m
    ensures n < d * m
  {
    MulLe(d, d, q + 1, m);
    MulAdd(d, q, 1);
  }

  lemma RoundAtMost(n: nat, d: nat, m: nat)
    requires d > 0 && n < d * m
    ensures RoundDiv(n, d, NearestEven) <= m
  {
    var q, r := Divided(n, d);
    if q >= m {
      MulLe(d, d, m, q);
    }
  }

  lemma RoundAtLeast(n: nat, d: nat, m: nat)
    requires d > 0 && n >= d * m
    ensures RoundDiv(n, d, NearestEven) >= m
  {
    QuotientAtLeast(n, d, m);
  }

  /** No number on the grid of g is nearer to n / d than the rounded one. */
  lemma NearestOnGrid(n: nat, d: nat, g: nat, k: nat)
    requires d > 0 && g > 0
    ensures d * g > 0
    ensures Distance(n, d, RoundDiv(n, d * g, NearestEven) * g) <= Distance(n, d, k * g)
    ensures k != RoundDiv(n, d * g, NearestEven)
            && Distance(n, d, RoundDiv(n, d * g, NearestEven) * g) == Distance(n, d, k * g)
            ==> RoundDiv(n, d * g, NearestEven) % 2 == 0
  {
    hide RoundDiv;
    var e := d * g;
    MulLe(1, d, 1, g);
    var r := RoundDiv(n, e, NearestEven);
    RoundDivNear(n, e, NearestEven);
    MulAssoc(r, g, d);
    MulAssoc(k, g, d);
    assert g * d == e;
    if k > r {
      MulLe(r + 1, k, e, e);
      MulSub(e, r + 1, 1);
    } else if k < r {
      MulLe(k + 1, r, e, e);
      MulSub(e, k + 1, 1);
    }
  }

  /**
   RoundDouble is rounding to nearest, ties to even: its result has 53 bits, no number with 53 bits is nearer, and when
   another one is as near, the last kept bit of the result is 0.
   */
  lemma NearestDouble(n: nat, d: nat, y: nat)
    requires d > 0 && IsDouble(y)
    ensures IsDouble(RoundDouble(n, d)) && Distance(n, d, RoundDouble(n, d)) <= Distance(n, d, y)
    ensures y != RoundDouble(n, d) && Distance(n, d, RoundDouble(n, d)) == Distance(n, d, y)
            ==> RoundDouble(n, d) / Pow(2, Spare(n, d)) % 2 == 0
  {
    hide Pow, Spare, RoundDiv, Distance, Significant;
    var w := Spare(n, d);
    var k := RoundDiv(n, d * Pow(2, w), NearestEven);
    KeptBits(n, d);
    RoundedIsDouble(k, w);
    assert k * Pow(2, w) == Pow(2, w) * k;
    QuotientIs(k * Pow(2, w), Pow(2, w), k, 0);
    var j: nat, w': nat :| Significant(y, j, w');
    NearestSignificant(n, d, w, y, j, w');
  }

  /** On the grid of step g, k is as near as y, and nearer unless k is even. */
  predicate Nearer(n: nat, d: nat, g: nat, k: nat, y: nat) {
    && Distance(n, d, k * g) <= Distance(n, d, y)
    && (y != k * g && Distance(n, d, k * g) == Distance(n, d, y) ==> k % 2 == 0)
  }

  lemma NearerOnGrid(n: nat, d: nat, g: nat, j: nat)
    requires d > 0 && g > 0
    ensures d * g > 0 && Nearer(n, d, g, RoundDiv(n, d * g, NearestEven), j * g)
  {
    hide RoundDiv, Distance;
    NearestOnGrid(n, d, g, j);
  }

  lemma NearestSignificant(n: nat, d: nat, w: nat, y: nat, j: nat, w': nat)
    requires d > 0 && w == Spare(n, d) && Significant(y, j, w')
    ensures d * Pow(2, w) > 0 && Nearer(n, d, Pow(2, w), RoundDiv(n, d * Pow(2, w), NearestEven), y)
  {
    hide Pow, Spare, RoundDiv, Distance;
    if w' >= w {
      PowAdd(2, w' - w, w);
      MulAssoc(j, Pow(2, w' - w), Pow(2, w));
      NearerOnGrid(n, d, Pow(2, w), j * Pow(2, w' - w));
    } else {
      KeptBits(n, d);
      BelowGrid(n, d, Pow(2, w), w, j, w', y);
      NearerOnGrid(n, d, Pow(2, w), Pow(2, 52));
    }
  }

  lemma RoundedIsDouble(k: nat, w: nat)
    requires k <= Pow(2, 53)
    ensures IsDouble(k * Pow(2, w))
  {
    hide Pow, IsDouble, Significant;
    PowersOfTwo(w);
    if k == Pow(2, 53) {
      DoubleStep(Pow(2, 52), Pow(2, w));
      ADouble(k * Pow(2, w), Pow(2, 52), w + 1);
    } else {
      ADouble(k * Pow(2, w), k, w);
    }
  }

  lemma ADouble(y: nat, j: nat, w: nat)
    requires j < Pow(2, 53) && y == j * Pow(2, w)
    ensures IsDouble(y)
  {
    assert Significant(y, j, w);
  }

  lemma PowersOfTwo(w: nat)
    ensures Pow(2, 53) == 2 * Pow(2, 52) && Pow(2, w + 1) == 2 * Pow(2, w) && Pow(2, 52) > 0
  {
  }

  lemma DoubleStep(h: nat, g: nat)
    ensures (2 * h) * g == h * (2 * g)
  {
    MulAssoc(h, 2, g);
    assert 2 * h == h * 2;
  }

  /** Finer numbers are below 2^52 steps of the grid, and those are not above n / d. */
  lemma BelowGrid(n: nat, d: nat, p: nat, w: nat, j: nat, w': nat, y: nat)
    requires d > 0 && p == Pow(2, w) && w' < w && Significant(y, j, w') && n >= d * p * Pow(2, 52)
    ensures Distance(n, d, y) > Distance(n, d, Pow(2, 52) * p)
  {
    PowAdd(2, 1, 52);
    PowAdd(2, 1, w');
    PowMonotone(2, 1 + w', w);
    assert Pow(2, 1) == 2;
    assert 1 + w' == w' + 1;
    hide Pow;
    BelowStep(j, Pow(2, 52), Pow(2, w'), p);
    var z := Pow(2, 52) * p;
    FurtherBelow(n, d, p, Pow(2, 52), y, z);
  }

  lemma BelowStep(j: nat, h: nat, g: nat, p: nat)
    requires j < 2 * h && 2 * g <= p && g > 0
    ensures j * g < h * p
  {
    MulLe(j + 1, 2 * h, g, g);
    MulSub(g, j + 1, 1);
    MulLe(h, h, 2 * g, p);
    MulAssoc(h, 2, g);
    assert 2 * h == h * 2;
  }

  lemma FurtherBelow(n: nat, d: nat, p: nat, h: nat, y: nat, z: nat)
    requires d > 0 && z == h * p && y < z && n >= d * p * h
    ensures Distance(n, d, y) > Distance(n, d, z)
  {
    MulAssoc(d, p, h);
    assert p * h == z && z * d == d * z;
    MulLe(y + 1, z, d, d);
    MulSub(d, y + 1, 1);
  }

  // ----- round_to_d -----

  /** The ratio n / d * 2^t, in units. */
  function UnitsUp(n: nat, t: int): nat {
    Up(n, t + 1074)
  }

  function UnitsDown(d: nat, t: int): (r: nat)
    ensures d > 0 ==> r > 0
  {
    Down(d, t + 1074)
  }

  /** A mantissa of exactly 53 bits, or zero. */
  predicate FullMantissa(m: nat) {
    m == 0 || Pow(2, 52) <= m < Pow(2, 53)
  }

  /** m * 2^(e - 53) is r units. */
  predicate IsUnits(m: nat, e: int, r: nat) {
    if e >= -1021 then r == m * Pow(2, e + 1021) else m == r * Pow(2, -1021 - e)
  }

  /** n / d between 2^i and 2^(i + 1), scaled by 2^s. */
  lemma ScaledBinade(n: nat, d: nat, s: int, i: nat)
    requires d > 0 && d * Pow(2, i) <= n < d * Pow(2, i + 1)
    ensures i + s >= 0 ==> Down(d, s) * Pow(2, i + s) <= Up(n, s) < Down(d, s) * Pow(2, i + s + 1)
    ensures i + s == -1 ==> Up(n, s) < Down(d, s)
    ensures i + s < -1 ==> 2 * Up(n, s) < Down(d, s)
  {
    if s >= 0 {
      var p := Pow(2, s);
      PowAdd(2, i, s);
      PowAdd(2, i + 1, s);
      assert i + 1 + s == i + s + 1;
      MulAssoc(d, Pow(2, i), p);
      MulAssoc(d, Pow(2, i + 1), p);
      hide Pow;
      MulLe(d * Pow(2, i), n, p, p);
      MulLe(n + 1, d * Pow(2, i + 1), p, p);
      MulSub(p, n + 1, 1);
    } else if i + s >= 0 {
      PowAdd(2, -s, i + s);
      PowAdd(2, -s, i + s + 1);
      MulAssoc(d, Pow(2, -s), Pow(2, i + s));
      MulAssoc(d, Pow(2, -s), Pow(2, i + s + 1));
    } else {
      PowMonotone(2, i + 1, -s);
      MulLe(d, d, Pow(2, i + 1), Pow(2, -s));
      if i + s < -1 {
        PowMonotone(2, i + 2, -s);
        MulLe(d, d, Pow(2, i + 2), Pow(2, -s));
        MulAssoc(d, 2, Pow(2, i + 1));
        assert d * 2 == 2 * d;
        MulAssoc(2, d, Pow(2, i + 1));
      }
    }
  }

  /** A sticky number between two powers of two stands for a ratio between them. */
  lemma StickyBinade(n: nat, d: nat, v: nat, i: nat)
    requires d > 0 && v == Sticky(n, d) && Pow(2, i) <= v < Pow(2, i + 1) && (d == 1 || i >= 1)
    ensures d * Pow(2, i) <= n < d * Pow(2, i + 1)
  {
    var q, r := Divided(n, d);
    StickyIs(n, d, q, r);
    if i >= 1 {
      PowAdd(2, 1, i - 1);
      assert Pow(2, 1) == 2;
    }
    assert q >= Pow(2, i);
    MulLe(d, d, Pow(2, i), q);
    RatioBounds(n, d, q, r, Pow(2, i + 1));
  }

  /** How many bits a number below 2^e keeps. */
  function Precision(e: int): int {
    if e < -1021 then 53 - (-1021 - e) else 53
  }

  /** The rounding that the code does at the precision of the binade is the rounding of RoundDouble. */
  lemma RoundedAtPrecision(n: nat, d: nat, t: int, i: nat)
    requires d > 0 && d * Pow(2, i) <= n < d * Pow(2, i + 1)
    ensures var e, nu, du := i + 1 + t, UnitsUp(n, t), UnitsDown(d, t);
            var k := RoundScaled(n, d, t - e + Precision(e), NearestEven);
            && RoundDouble(nu, du) == k * Pow(2, if e >= -1021 then e + 1021 else 0)
            && (Precision(e) >= 1 ==> Pow(2, Precision(e) - 1) <= k <= Pow(2, Precision(e)))
            && (Precision(e) == 0 ==> k <= 1) && (Precision(e) < 0 ==> k == 0)
  {
    var e, nu, du := i + 1 + t, UnitsUp(n, t), UnitsDown(d, t);
    var w: nat := if e >= -1021 then e + 1021 else 0;
    var c := Precision(e);
    ScaledBinade(n, d, t + 1074, i);
    SpareIs(nu, du, e, w);
    RoundScaledUnits(n, d, t, w);
    var k := RoundDiv(nu, du * Pow(2, w), NearestEven);
    if c >= 1 {
      assert e + 1073 == w + (c - 1) && e + 1074 == w + c;
      PowAdd(2, w, c - 1);
      PowAdd(2, w, c);
      MulAssoc(du, Pow(2, w), Pow(2, c - 1));
      MulAssoc(du, Pow(2, w), Pow(2, c));
      RoundAtMost(nu, du * Pow(2, w), Pow(2, c));
      RoundAtLeast(nu, du * Pow(2, w), Pow(2, c - 1));
    } else {
      assert du * Pow(2, 0) == du && du * 1 == du;
      if c == 0 {
        RoundAtMost(nu, du, 1);
      } else {
        BelowHalf(nu, du);
      }
    }
  }

  lemma BelowHalf(n: nat, d: nat)
    requires 2 * n < d
    ensures RoundDiv(n, d, NearestEven) == 0
  {
    QuotientIs(n, d, 0, n);
  }

  lemma SpareIs(nu: nat, du: nat, e: int, w: nat)
    requires du > 0 && w == (if e >= -1021 then e + 1021 else 0)
    requires e + 1073 >= 0 ==> du * Pow(2, e + 1073) <= nu < du * Pow(2, e + 1074)
    requires e + 1073 < 0 ==> nu < du
    ensures Spare(nu, du) == w
  {
    var q, r := Divided(nu, du);
    if e + 1073 >= 0 {
      QuotientAtLeast(nu, du, Pow(2, e + 1073));
      if q >= Pow(2, e + 1074) {
        MulLe(du, du, Pow(2, e + 1074), q);
      }
      BitLengthIs(q, e + 1073);
    } else {
      QuotientIs(nu, du, 0, nu);
    }
  }

  lemma RoundScaledUnits(n: nat, d: nat, t: int, w: nat)
    requires d > 0
    ensures UnitsDown(d, t) * Pow(2, w) > 0
    ensures RoundDiv(UnitsUp(n, t), UnitsDown(d, t) * Pow(2, w), NearestEven)
         == RoundScaled(n, d, t + 1074 - w, NearestEven)
  {
    var s := t + 1074;
    var i: nat, j: nat := if s >= 0 then s else 0, if s >= 0 then 0 else -s;
    RoundScaledIs(n, d, s - w, i, j + w, NearestEven);
    PowAdd(2, j, w);
    MulAssoc(d, Pow(2, j), Pow(2, w));
    assert Pow(2, 0) == 1;
    hide RoundDiv, RoundScaled, Pow;
    assert n * 1 == n && d * 1 == d;
  }

  /** The bounds of a rounded double-length number, as round_to_d returns it: (m, e) for m * 2^(e - 53). */
  ghost predicate Rounds(n: nat, d: nat, t: int, m: nat, e: int)
    requires d > 0
  {
    && FullMantissa(m)
    && IsUnits(m, e, RoundDouble(UnitsUp(n, t), UnitsDown(d, t)))
  }

  /** The mantissa moved up to 53 bits, and halved when rounding made it 2^53. */
  lemma Packed(k: nat, e: int, r: nat, m: nat, e': int)
    requires r == k * Pow(2, if e >= -1021 then e + 1021 else 0)
    requires Precision(e) >= 1 ==> Pow(2, Precision(e) - 1) <= k <= Pow(2, Precision(e))
    requires (Precision(e) == 0 ==> k <= 1) && (Precision(e) < 0 ==> k == 0)
    requires var m0 := k * Pow(2, 53 - Precision(e));
             if m0 >= Pow(2, 53) then m == m0 / 2 && e' == e + 1 else m == m0 && e' == e
    ensures FullMantissa(m) && IsUnits(m, e', r)
  {
    var c := Precision(e);
    PowersOfTwo(52);
    PowZero();
    Aligned(k, c);
    if k * Pow(2, 53 - c) >= Pow(2, 53) {
      assert m == Pow(2, 52);
      if e >= -1021 {
        PowersOfTwo(e + 1021);
        hide Pow;
        assert k * 1 == k;
        DoubleStep(m, Pow(2, e + 1021));
      } else {
        PowersOfTwo(52 - c);
        hide Pow;
        HalfProduct(k, Pow(2, 52 - c), m);
        assert k * 1 == k;
      }
    } else {
      hide Pow;
      assert k * 1 == k;
    }
  }

  lemma Aligned(k: nat, c: int)
    requires c <= 53 && (c >= 1 ==> Pow(2, c - 1) <= k <= Pow(2, c)) && (c == 0 ==> k <= 1) && (c < 0 ==> k == 0)
    ensures k * Pow(2, 53 - c) <= Pow(2, 53) && (k == 0 || Pow(2, 52) <= k * Pow(2, 53 - c))
  {
    PowersOfTwo(52);
    if c >= 1 {
      PowAdd(2, c, 53 - c);
      PowAdd(2, c - 1, 53 - c);
      var g := Pow(2, 53 - c);
      hide Pow;
      MulLe(Pow(2, c - 1), k, g, g);
      MulLe(k, Pow(2, c), g, g);
    } else {
      hide Pow;
      assert k == 0 || k == 1;
    }
  }

  lemma HalfProduct(k: nat, g: nat, m: nat)
    requires k * (2 * g) == 2 * m
    ensures k * g == m
  {
    MulAssoc(k, 2, g);
    MulAssoc(2, k, g);
    assert k * 2 == 2 * k;
  }

  /**
   round_to_d, in the mode of all its callers: a * 2^-eOffset as a binary64 number, for a number a that is exact or
   sticky below at least 55 bits.
   */
  method RoundToD(a: Mpb, eOffset: int, ghost n: nat, ghost d: nat) returns (m: DLimb, e: int)
    requires a.Normal() && d > 0 && Val(a.tab) == Sticky(n, d) && (d == 1 || Val(a.tab) >= Pow(2, 55))
    modifies a
    ensures Val(old(a.tab)) == 0 ==> m == 0
    ensures Val(old(a.tab)) > 0 ==> Rounds(n, d, -eOffset, m, e)
  {
    if a.tab[0] == 0 && |a.tab| == 1 {
      assert a.tab == [0];
      JoinOne(0, 0);
      return 0, 0;
    }
    ghost var v := Val(a.tab);
    TopLimb(a.tab);
    hide Pow, Join, Sticky, RoundDiv, RoundDouble, BitLength, UnitsUp, UnitsDown, IsUnits, FullMantissa;
    var log := a.FloorLog2();
    BigEnough(v, log);
    e := log + 1 - eOffset;
    var prec1, eMin := 53, -1021;
    var prec := if e < eMin then prec1 - (eMin - e) else prec1;
    assert prec == Precision(e);
    hide Precision;
    m := CutMantissa(a, e + eOffset - prec, n, d, v, eOffset, log);
    m, e := Pack(m, e, prec, RoundDouble(UnitsUp(n, -eOffset), UnitsDown(d, -eOffset)));
  }

  /** The middle of round_to_d: shift out all but the kept bits, and round. */
  method CutMantissa(a: Mpb, shift: int, ghost n: nat, ghost d: nat, ghost v: nat, ghost eOffset: int, ghost log: nat)
      returns (k: DLimb)
    requires a.Normal() && d > 0 && v > 0 && v == Val(a.tab) == Sticky(n, d) && log == BitLength(v) - 1
    requires (d == 1 || log >= 55) && shift == log + 1 - Precision(log + 1 - eOffset)
    modifies a
    ensures var e := log + 1 - eOffset;
            && RoundDouble(UnitsUp(n, -eOffset), UnitsDown(d, -eOffset)) == k * Pow(2, if e >= -1021 then e + 1021 else 0)
            && (Precision(e) >= 1 ==> Pow(2, Precision(e) - 1) <= k <= Pow(2, Precision(e)))
            && (Precision(e) == 0 ==> k <= 1) && (Precision(e) < 0 ==> k == 0)
  {
    hide Pow, Join, Sticky, RoundDiv, RoundDouble, BitLength, UnitsUp, UnitsDown, Precision;
    PrecisionAtMost53(log + 1 - eOffset);
    a.ShrRound(shift, NearestEven);
    RoundStep(n, d, v, eOffset, log, Val(a.tab));
    k := a.GetU64();
    SmallMantissa(Val(a.tab), Precision(log + 1 - eOffset));
  }

  /** The end of round_to_d: align the mantissa to 53 bits. */
  method Pack(k: DLimb, e0: int, prec: int, ghost r: nat) returns (m: DLimb, e: int)
    requires prec == Precision(e0) && r == k * Pow(2, if e0 >= -1021 then e0 + 1021 else 0)
    requires prec >= 1 ==> Pow(2, prec - 1) <= k <= Pow(2, prec)
    requires (prec == 0 ==> k <= 1) && (prec < 0 ==> k == 0)
    ensures FullMantissa(m) && IsUnits(m, e, r)
  {
    hide Pow;
    MantissaFits(k, prec);
    m, e := k * Pow(2, 53 - prec), e0;
    if m >= Pow(2, 53) {
      m := m / 2;
      e := e + 1;
    }
    Packed(k, e0, r, m, e);
  }

  /** What the shift of round_to_d makes of a sticky number. */
  lemma RoundStep(n: nat, d: nat, v: nat, eOffset: int, log: nat, k: nat)
    requires d > 0 && v > 0 && v == Sticky(n, d) && log == BitLength(v) - 1 && (d == 1 || log >= 55)
    requires var s := log + 1 - Precision(log + 1 - eOffset);
             if s >= 0 then k == RoundDiv(v, Pow(2, s), NearestEven) else k == v * Pow(2, -s)
    ensures var e := log + 1 - eOffset;
            && RoundDouble(UnitsUp(n, -eOffset), UnitsDown(d, -eOffset)) == k * Pow(2, if e >= -1021 then e + 1021 else 0)
            && (Precision(e) >= 1 ==> Pow(2, Precision(e) - 1) <= k <= Pow(2, Precision(e)))
            && (Precision(e) == 0 ==> k <= 1) && (Precision(e) < 0 ==> k == 0)
  {
    hide Sticky, RoundDiv, RoundDouble, RoundScaled, BitLength, Pow;
    BitLengthBounds(v);
    StickyBinade(n, d, v, log);
    RoundedAtPrecision(n, d, -eOffset, log);
    PowZero();
    assert n * 1 == n;
    StickyOrExact(n, d, 0, log + 1 - Precision(log + 1 - eOffset), v, NearestEven);
  }

  lemma PowZero()
    ensures Pow(2, 0) == 1
  {
  }

  lemma BigEnough(v: nat, log: int)
    requires v > 0 && log == BitLength(v) - 1
    ensures log >= 0 && (v >= Pow(2, 55) ==> log >= 55)
  {
    BitLengthBounds(v);
    if v >= Pow(2, 55) && log < 55 {
      PowMonotone(2, log + 1, 55);
    }
  }

  lemma TwoTo53()
    ensures Pow(2, 52) == 0x10_0000_0000_0000 && Pow(2, 53) == 0x20_0000_0000_0000
  {
    Pow2Table(26);
    PowAdd(2, 26, 26);
    PowAdd(2, 26, 27);
    Pow2Table(27);
  }

  lemma PrecisionAtMost53(e: int)
    ensures Precision(e) <= 53
  {
  }

  lemma SmallMantissa(k: nat, prec: int)
    requires prec <= 53 && (prec >= 1 ==> k <= Pow(2, prec)) && (prec < 1 ==> k <= 1)
    ensures k < B * B
  {
    TwoTo53();
    if prec >= 1 {
      PowMonotone(2, prec, 53);
    }
  }

  lemma MantissaFits(k: nat, prec: int)
    requires prec <= 53 && (prec >= 1 ==> k <= Pow(2, prec)) && (prec == 0 ==> k <= 1) && (prec < 0 ==> k == 0)
    ensures k * Pow(2, 53 - prec) <= Pow(2, 53) < B * B
  {
    TwoTo53();
    if prec >= 1 {
      PowAdd(2, prec, 53 - prec);
      hide Pow;
      MulLe(k, Pow(2, prec), Pow(2, 53 - prec), Pow(2, 53 - prec));
    }
  }

  // ----- mul_pow_round_to_d -----

  lemma SameDouble(n: nat, d: nat, n': nat, d': nat)
    requires SameRatio(n, d, n', d')
    ensures RoundDouble(n, d) == RoundDouble(n', d')
  {
    SameQuotient(n, d, n', d');
    var p := Pow(2, Spare(n, d));
    assert n * (d' * p) == (n * d') * p by { MulAssoc(n, d', p); }
    assert n' * (d * p) == (n' * d) * p by { MulAssoc(n', d, p); }
    MulLe(1, d, 1, p);
    MulLe(1, d', 1, p);
    RoundDivSameRatio(n, d * p, n', d' * p, NearestEven);
  }

  /** v * radix^f in units, rounded to binary64. */
  function NearestUnits(v: nat, radix: nat, f: int): nat
    requires radix > 0
  {
    RoundDouble(Numerator(v, 1074, radix, f), Denominator(1074, radix, f))
  }

  /** mul_pow_round_to_d: (m, e) such that m * 2^(e - 53) is a * radix^f rounded to binary64. */
  method MulPowRoundToD(a: Mpb, radix: nat, radix1: nat, radixShift: nat, f: int) returns (m: DLimb, e: int)
    requires RadixParts(radix, radix1, radixShift) && 1 <= radix1 <= 35 && a.Normal() && Val(a.tab) > 0
    modifies a
    ensures FullMantissa(m) && IsUnits(m, e, NearestUnits(Val(old(a.tab)), radix, f))
  {
    hide Pow, Join, Sticky, RoundDouble, IsUnits, Grown, Shrunk, FullMantissa;
    ghost var v := Val(a.tab);
    var eOffset, k := MulPow(a, radix1, radixShift, f, false, 55);
    ghost var n, d := Grown(v, radix1, f), Shrunk(radix1, f);
    SameUnits(v, radix, radix1, radixShift, f, k);
    m, e := RoundToD(a, eOffset, n * Pow(2, k), d);
  }

  /** The number that mul_pow makes, scaled back, is v * radix^f. */
  lemma SameUnits(v: nat, radix: nat, radix1: nat, radixShift: nat, f: int, k: nat)
    requires RadixParts(radix, radix1, radixShift)
    ensures Shrunk(radix1, f) > 0
    ensures RoundDouble(UnitsUp(Grown(v, radix1, f) * Pow(2, k), f * radixShift - k),
                        UnitsDown(Shrunk(radix1, f), f * radixShift - k))
         == NearestUnits(v, radix, f)
  {
    hide RoundDouble, SameRatio;
    var n, d, t := Grown(v, radix1, f), Shrunk(radix1, f), f * radixShift - k;
    var s := t + 1074;
    ProductRatio(v, 1074, radix, radix1, radixShift, f);
    UpShift(n, d, k, s);
    SameRatioChain(Up(n * Pow(2, k), s), Down(d, s), Up(n, s + k), Down(d, s + k),
                   Numerator(v, 1074, radix, f), Denominator(1074, radix, f));
    SameDouble(Up(n * Pow(2, k), s), Down(d, s), Numerator(v, 1074, radix, f), Denominator(1074, radix, f));
  }

  lemma UpShift(n: nat, d: nat, k: nat, s: int)
    requires d > 0
    ensures SameRatio(Up(n * Pow(2, k), s), Down(d, s), Up(n, s + k), Down(d, s + k))
  {
    hide Pow, Up, Down;
    var i: nat, j: nat := if s >= 0 then s else 0, if s >= 0 then 0 else -s;
    UpDown(n * Pow(2, k), d, s, i, j);
    UpDown(n, d, s + k, k + i, j);
    PowAdd(2, k, i);
    MulAssoc(n, Pow(2, k), Pow(2, i));
    SameRatioSwap(Up(n, s + k), Down(d, s + k), n * Pow(2, k + i), d * Pow(2, j));
    SameRatioChain(Up(n * Pow(2, k), s), Down(d, s), n * Pow(2, k + i), d * Pow(2, j), Up(n, s + k), Down(d, s + k));
  }

  lemma SameRatioSwap(n: nat, d: nat, n': nat, d': nat)
    requires SameRatio(n, d, n', d')
    ensures SameRatio(n', d', n, d)
  {
  }
}

/**
 Integer logarithms and square roots by shifting and Newton's iteration, and the Chudnovsky series by binary splitting.
 A shift to the right by n bits is the floor of a division by 2^n.
 */
module BinarySplitting {
  import opened Powers

  // ----- logarithms -----

  /** The shift of a to the right by n bits. */
  function Shr(a: nat, n: nat): nat {
    a / Pow(2, n)
  }

  /** The bitwise or of k and the bit 2^i. */
  function WithBit(k: nat, i: nat): nat {
    if Shr(k, i) % 2 == 1 then k else k + Pow(2, i)
  }

  /** k is the floor of the binary logarithm of a. */
  predicate IsFloorLog2(a: nat, k: nat) {
    Pow(2, k) <= a < Pow(2, k + 1)
  }

  lemma {:induction false} PowAbove(n: nat)
    ensures n < Pow(2, n)
  {
    if n > 0 {
      PowAbove(n - 1);
    }
  }

  lemma DoublePower(n: nat)
    ensures Pow(2, n + 1) == 2 * Pow(2, n)
  {
  }

  /** A shift leaves nothing exactly when it is by more bits than a has. */
  lemma ShiftIsZero(a: nat, n: nat)
    ensures Shr(a, n) == 0 <==> a < Pow(2, n)
  {
    hide Pow;
    var q, r := Divided(a, Pow(2, n));
    if q > 0 {
      MulLe(Pow(2, n), Pow(2, n), 1, q);
    } else {
      assert Pow(2, n) * q == 0;
    }
  }

  lemma ShiftTwice(a: nat, k: nat, n: nat)
    ensures Shr(Shr(a, k), n) == Shr(a, k + n)
  {
    hide Pow;
    PowAdd(2, k, n);
    DivDiv(a, Pow(2, k), Pow(2, n));
  }

  /** With the bits below 2^(i+1) clear, setting the bit i adds 2^i. */
  lemma BitIsClear(k: nat, i: nat)
    requires k % Pow(2, i + 1) == 0
    ensures WithBit(k, i) == k + Pow(2, i) && k % Pow(2, i) == 0 && (k + Pow(2, i)) % Pow(2, i) == 0
  {
    hide Pow;
    DoublePower(i);
    var p := Pow(2, i);
    var q, r := Divided(k, 2 * p);
    assert k == p * (2 * q) + 0 by { MulAssoc(2, p, q); MulSwap(2, 1, p, q); MulAssoc(p, 2, q); }
    QuotientIs(k, p, 2 * q, 0);
    assert k + p == p * (2 * q + 1) + 0 by { MulAdd(p, 2 * q, 1); }
    QuotientIs(k + p, p, 2 * q + 1, 0);
  }

  /** floor_log2: the floor of the logarithm of a positive number, and 0 for 0. */
  method FloorLog2(a0: nat) returns (k: nat)
    ensures a0 > 0 ==> IsFloorLog2(a0, k)
    ensures a0 == 0 ==> k == 0
  {
    hide Pow, Shr, WithBit, Halving, IsFloorLog2;
    var kMax := 0;
    while Shr(a0, Pow(2, kMax)) != 0
      invariant kMax <= a0
      decreases a0 - kMax
    {
      ShiftIsZero(a0, Pow(2, kMax));
      PowAbove(kMax);
      PowAbove(Pow(2, kMax));
      kMax := kMax + 1;
    }
    ShiftIsZero(a0, Pow(2, kMax));
    var a := a0;
    k := 0;
    var i := kMax - 1;
    Unshifted(a0, kMax);
    while i >= 0
      invariant -1 <= i < kMax && Halving(a0, a, k, i + 1)
    {
      var a1 := Shr(a, Pow(2, i));
      HalvingStep(a0, a, k, i);
      if a1 != 0 {
        a := a1;
        k := WithBit(k, i);
      }
      i := i - 1;
    }
    HalvingEnds(a0, a, k);
  }

  /** While the bits below i of the logarithm are sought: a is what is left of a0 after a shift by k. */
  ghost predicate Halving(a0: nat, a: nat, k: nat, i: nat) {
    a == Shr(a0, k) && (a == 0 <==> a0 == 0) && a < Pow(2, Pow(2, i)) && k % Pow(2, i) == 0 && (a0 == 0 ==> k == 0)
  }

  lemma Unshifted(a0: nat, i: nat)
    requires a0 < Pow(2, Pow(2, i))
    ensures Halving(a0, a0, 0, i)
  {
    assert Pow(2, 0) == 1;
    hide Pow;
    assert 0 == Pow(2, i) * 0 + 0;
    QuotientIs(0, Pow(2, i), 0, 0);
  }

  lemma HalvingStep(a0: nat, a: nat, k: nat, i: nat)
    requires Halving(a0, a, k, i + 1)
    ensures var a1 := Shr(a, Pow(2, i));
            if a1 != 0 then Halving(a0, a1, WithBit(k, i), i) else Halving(a0, a, k, i)
  {
    hide Pow, Shr, WithBit;
    var n := Pow(2, i);
    BitIsClear(k, i);
    DoublePower(i);
    PowAdd(2, n, n);
    ShiftTwice(a0, k, n);
    ShiftIsZero(a, n);
    ShiftBelow(a, n);
    NothingShifted(n);
  }

  lemma ShiftBelow(a: nat, n: nat)
    requires a < Pow(2, n) * Pow(2, n)
    ensures Shr(a, n) < Pow(2, n)
  {
    hide Pow;
    var q, r := Divided(a, Pow(2, n));
    MulCompare(Pow(2, n), q, Pow(2, n));
  }

  lemma NothingShifted(n: nat)
    ensures Shr(0, n) == 0
  {
    hide Pow;
    assert 0 == Pow(2, n) * 0 + 0;
    QuotientIs(0, Pow(2, n), 0, 0);
  }

  lemma HalvingEnds(a0: nat, a: nat, k: nat)
    requires Halving(a0, a, k, 0)
    ensures if a0 > 0 then IsFloorLog2(a0, k) else k == 0
  {
    assert Pow(2, 0) == 1 && Pow(2, 1) == 2;
    DoublePower(k);
    hide Pow;
    if a0 > 0 {
      var q, r := Divided(a0, Pow(2, k));
    }
  }

  /** ceil_log2, for every a it can be called with: right but for a = 1, where it gives 1. */
  method CeilLog2(a: nat) returns (l: nat)
    requires a > 0
    ensures if a == 1 then l == 1 else l > 0 && Pow(2, l - 1) < a <= Pow(2, l)
  {
    var k := FloorLog2(a - 1);
    l := k + 1;
  }

  /** l is the ceiling of the binary logarithm of a: the least exponent that reaches a. */
  ghost predicate IsCeilLog2(a: nat, l: nat) {
    a <= Pow(2, l) && forall m: nat | a <= Pow(2, m) :: l <= m
  }

  /** ceil_log2 gives the ceiling of the logarithm exactly when a is not 1. */
  lemma CeilLog2Exact(a: nat, l: nat)
    requires a > 0 && if a == 1 then l == 1 else l > 0 && Pow(2, l - 1) < a <= Pow(2, l)
    ensures IsCeilLog2(a, l) <==> a != 1
  {
    if a == 1 {
      assert Pow(2, 0) == 1;
    } else {
      forall m: nat | a <= Pow(2, m) ensures l <= m {
        if m < l {
          PowMonotone(2, m, l - 1);
        }
      }
    }
  }

  // ----- square root -----

  /** s is the floor of the square root of a. */
  predicate IsFloorSqrt(a: nat, s: nat) {
    s * s <= a < (s + 1) * (s + 1)
  }

  /** There is only one floor of the square root. */
  lemma FloorSqrtUnique(a: nat, s: nat, t: nat)
    requires IsFloorSqrt(a, s) && IsFloorSqrt(a, t)
    ensures s == t
  {
    if s < t {
      MulLe(s + 1, t, s + 1, t);
    } else if t < s {
      MulLe(t + 1, s, t + 1, s);
    }
  }

  /** The next value of Newton's iteration. */
  function Newton(a: nat, s: nat): nat
    requires s > 0
  {
    (a / s + s) / 2
  }

  predicate NotBelowRoot(a: nat, u: nat) {
    a < (u + 1) * (u + 1)
  }

  /** One Newton step from s does not fall below the root; and when it does not go down, s is not above the root. */
  lemma NewtonStep(a: nat, s: nat)
    requires s > 0
    ensures NotBelowRoot(a, Newton(a, s)) && (Newton(a, s) >= s ==> s * s <= a)
  {
    var q, r := Divided(a, s);
    var u := (q + s) / 2;
    MulAdd(s, q, 1);
    AboveMean(s, q + 1, u + 1);
    if u >= s {
      MulLe(s, s, s, q);
    }
  }

  /** The arithmetic mean is not below the geometric one. */
  lemma AboveMean(x: nat, y: nat, z: nat)
    requires 2 * z >= x + y
    ensures x * y <= z * z
  {
    assert 4 * (x * y) + (x - y) * (x - y) == (x + y) * (x + y);
    MulLe(x + y, 2 * z, x + y, 2 * z);
    SquareNotNegative(x - y);
  }

  lemma SquareNotNegative(d: int)
    ensures d * d >= 0
  {
  }

  /** 2 to half the bit length is above the root. */
  lemma StartAboveRoot(a: nat, l: nat)
    requires a <= Pow(2, l)
    ensures var u := Pow(2, (l + 1) / 2); u > 0 && NotBelowRoot(a, u)
  {
    hide Pow;
    var h := (l + 1) / 2;
    PowAdd(2, h, h);
    PowMonotone(2, l, h + h);
    SquareOfNext(Pow(2, h));
  }

  lemma SquareOfNext(u: nat)
    ensures (u + 1) * (u + 1) > u * u
  {
    MulAdd(u + 1, u, 1);
    MulAdd(u, u, 1);
  }

  /** int_sqrt. */
  method IntSqrt(a: nat) returns (s: nat)
    ensures IsFloorSqrt(a, s)
  {
    if a == 0 {
      return a;
    }
    hide Pow, Newton, NotBelowRoot, IsFloorSqrt;
    var l := CeilLog2(a);
    ReachesByCeil(a, l);
    StartAboveRoot(a, l);
    var u := Pow(2, (l + 1) / 2);
    while true
      invariant u > 0 && NotBelowRoot(a, u)
      decreases u
    {
      s := u;
      NewtonStep(a, s);
      u := Newton(a, s);
      if u >= s {
        RootFound(a, s);
        break;
      }
      RootIsPositive(a, u);
    }
  }

  lemma RootFound(a: nat, s: nat)
    requires s > 0 && NotBelowRoot(a, s) && Newton(a, s) >= s
    ensures IsFloorSqrt(a, s)
  {
    NewtonStep(a, s);
  }

  lemma ReachesByCeil(a: nat, l: nat)
    requires a > 0 && if a == 1 then l == 1 else l > 0 && Pow(2, l - 1) < a <= Pow(2, l)
    ensures a <= Pow(2, l)
  {
    assert a == 1 ==> Pow(2, l) == 2 * Pow(2, 0);
  }

  lemma RootIsPositive(a: nat, u: nat)
    requires 0 < a && NotBelowRoot(a, u)
    ensures u > 0
  {
  }

  // ----- binary splitting -----

  const CHUD_A := 13591409
  const CHUD_B := 545140134
  const CHUD_C := 640320
  const CHUD_C3 := 10939058860032000

  /** The factor that the numerator of term k has more than that of term k - 1. */
  function TermG(k: nat): int {
    (2 * k - 1) * (6 * k - 1) * (6 * k - 5)
  }

  function TermQ(k: nat): nat {
    k * k * k * CHUD_C3
  }

  /** The signed linear factor of term k of the series. */
  function TermS(k: nat): int {
    if k % 2 == 1 then -(545140134 * k + 13591409) else 545140134 * k + 13591409
  }

  datatype Split = Split(P: int, Q: int, G: int)

  /** A single term, number b. */
  function OneTerm(b: nat): Split {
    var G := (2 * b - 1) * (6 * b - 1) * (6 * b - 5);
    var P := G * (CHUD_B * b + CHUD_A);
    Split(if b % 2 == 1 then -P else P, b * b * b * CHUD_C3, G)
  }

  /** chud_bs. */
  function ChudBs(a: nat, b: nat, needG: bool): Split
    requires a < b
    decreases b - a
  {
    if a == b - 1 then OneTerm(b)
    else
      var c := (a + b) / 2;
      var x := ChudBs(a, c, true);
      var y := ChudBs(c, b, needG);
      Split(x.P * y.Q + y.P * x.G, x.Q * y.Q, if needG then x.G * y.G else 0)
  }

  /** The products of the factors of the terms after a, up to b. */
  function ProdG(a: nat, b: nat): int
    requires a <= b
  {
    if a == b then 1 else ProdG(a, b - 1) * TermG(b)
  }

  function ProdQ(a: nat, b: nat): (q: int)
    requires a <= b
    ensures q > 0
  {
    if a == b then 1
    else
      TermQPositive(b);
      PositiveProduct(ProdQ(a, b - 1), TermQ(b));
      ProdQ(a, b - 1) * TermQ(b)
  }

  lemma TermQPositive(k: nat)
    requires k > 0
    ensures TermQ(k) > 0
  {
    PositiveProduct(k, k);
    PositiveProduct(k * k, k);
  }

  lemma PositiveProduct(x: int, y: int)
    requires x > 0 && y > 0
    ensures x * y > 0
  {
  }

  /** The sum of the terms after a, up to b, over the common denominator ProdQ(a, b), one term after the other. */
  function SumP(a: nat, b: nat): int
    requires a <= b
  {
    if a == b then 0 else SumP(a, b - 1) * TermQ(b) + ProdG(a, b) * TermS(b)
  }

  lemma {:induction false} ProdSplit(a: nat, c: nat, b: nat)
    requires a <= c <= b
    ensures ProdG(a, b) == ProdG(a, c) * ProdG(c, b) && ProdQ(a, b) == ProdQ(a, c) * ProdQ(c, b)
    decreases b - c
  {
    if c < b {
      hide TermG, TermQ;
      ProdSplit(a, c, b - 1);
      MulAssoc(ProdG(a, c), ProdG(c, b - 1), TermG(b));
      MulAssoc(ProdQ(a, c), ProdQ(c, b - 1), TermQ(b));
    }
  }

  /** The sum can be split anywhere. */
  lemma {:induction false} SumSplit(a: nat, c: nat, b: nat)
    requires a <= c <= b
    ensures SumP(a, b) == SumP(a, c) * ProdQ(c, b) + SumP(c, b) * ProdG(a, c)
    decreases b - c
  {
    if c < b {
      hide TermG, TermQ, TermS;
      SumSplit(a, c, b - 1);
      ProdSplit(a, c, b);
      SumStep(SumP(a, c), ProdQ(c, b - 1), SumP(c, b - 1), ProdG(a, c), TermQ(b), ProdG(c, b), TermS(b));
    }
  }

  lemma SumStep(p: int, q: int, s: int, g: int, t: int, h: int, f: int)
    ensures (p * q + s * g) * t + (g * h) * f == p * (q * t) + (s * t + h * f) * g
  {
    MulAssoc(p, q, t);
    assert (s * g) * t == (s * t) * g by { MulAssoc(s, g, t); MulAssoc(s, t, g); assert g * t == t * g; }
    assert (g * h) * f == (h * f) * g by { MulAssoc(g, h, f); assert g * (h * f) == (h * f) * g; }
    assert (p * q + s * g) * t == (p * q) * t + (s * g) * t;
    assert (s * t + h * f) * g == (s * t) * g + (h * f) * g;
  }

  /** chud_bs computes the sum and the products, whether or not G is asked for. */
  lemma {:induction false} ChudBsMeaning(a: nat, b: nat, needG: bool)
    requires a < b
    ensures var r := ChudBs(a, b, needG);
            r.P == SumP(a, b) && r.Q == ProdQ(a, b) && (needG || a == b - 1 ==> r.G == ProdG(a, b))
    decreases b - a
  {
    hide TermG, TermQ, TermS, OneTerm;
    if a == b - 1 {
      OneTermFactors(b);
      assert SumP(a, b - 1) == 0 && ProdG(a, b - 1) == ProdQ(a, b - 1) == 1;
    } else {
      hide ProdG, ProdQ, SumP;
      var c := (a + b) / 2;
      ChudBsMeaning(a, c, true);
      ChudBsMeaning(c, b, needG);
      ProdSplit(a, c, b);
      SumSplit(a, c, b);
    }
  }

  lemma OneTermFactors(b: nat)
    ensures OneTerm(b) == Split(TermG(b) * TermS(b), TermQ(b), TermG(b))
  {
    SignedProduct(TermG(b), CHUD_B * b + CHUD_A);
  }

  lemma SignedProduct(g: int, x: int)
    ensures g * -x == -(g * x)
  {
  }

  // ----- the series itself -----

  function Factorial(n: nat): (f: nat)
    ensures f > 0
  {
    if n == 0 then 1 else PositiveProduct(n, Factorial(n - 1)); n * Factorial(n - 1)
  }

  /** The denominator of term k of the series. */
  function SeriesBelow(k: nat): (d: int)
    ensures d > 0
  {
    var f := Factorial(k);
    PositiveProduct(f, f);
    PositiveProduct(f, f * f);
    PositiveProduct(Factorial(3 * k), f * (f * f));
    PositiveProduct(Factorial(3 * k) * (f * (f * f)), Pow(CHUD_C, 3 * k));
    Factorial(3 * k) * (f * (f * f)) * Pow(CHUD_C, 3 * k)
  }

  /** (6k)! / ((3k)! (k!)^3 640320^(3k)). */
  function Ratio(k: nat): real {
    Factorial(6 * k) as real / SeriesBelow(k) as real
  }

  /** The terms of the Chudnovsky series after term a, up to term b. */
  function Series(a: nat, b: nat): real
    requires a <= b
  {
    if a == b then 0.0 else Series(a, b - 1) + TermS(b) as real * Ratio(b)
  }

  lemma RealCancel(x: real, y: real, z: real)
    requires z > 0.0 && x * z == y * z
    ensures x == y
  {
    assert (x - y) * z == 0.0;
  }

  /** Equal products of integers, as an equation of ratios. */
  lemma CrossRatios(f: int, d: int, q: int, f0: int, d0: int, g: int)
    requires d > 0 && d0 > 0 && f * d0 * q == f0 * g * d
    ensures (f as real / d as real) * q as real == (f0 as real / d0 as real) * g as real
  {
    var x, y := f as real / d as real, f0 as real / d0 as real;
    var D, D0, Q, G := d as real, d0 as real, q as real, g as real;
    assert x * D == f as real && y * D0 == f0 as real;
    assert (f * d0 * q) as real == (x * D) * D0 * Q;
    assert (f0 * g * d) as real == (y * D0) * G * D;
    assert (x * Q) * (D * D0) == (y * G) * (D * D0);
    PositiveReal(D, D0);
    RealCancel(x * Q, y * G, D * D0);
  }

  lemma PositiveReal(x: real, y: real)
    requires x > 0.0 && y > 0.0
    ensures x * y > 0.0
  {
  }

  /** The factorials of term k against those of the term before. */
  lemma FactorialSteps(k: nat)
    requires k > 0
    ensures Factorial(k) == k * Factorial(k - 1)
    ensures Factorial(3 * k) == (3 * k) * ((3 * k - 1) * ((3 * k - 2) * Factorial(3 * (k - 1))))
    ensures Factorial(6 * k) == (6 * k) * ((6 * k - 1) * ((6 * k - 2) * ((6 * k - 3) * ((6 * k - 4) * ((6 * k - 5) * Factorial(6 * (k - 1)))))))
    ensures Pow(CHUD_C, 3 * k) == 24 * CHUD_C3 * Pow(CHUD_C, 3 * (k - 1))
  {
    FactorialThrice(3 * k);
    FactorialThrice(6 * k);
    FactorialThrice(6 * k - 3);
    CubeOfC(3 * (k - 1));
  }

  lemma FactorialThrice(n: nat)
    requires n >= 3
    ensures Factorial(n) == n * ((n - 1) * ((n - 2) * Factorial(n - 3)))
  {
    assert Factorial(n) == n * Factorial(n - 1);
    assert Factorial(n - 1) == (n - 1) * Factorial(n - 2);
    assert Factorial(n - 2) == (n - 2) * Factorial(n - 3);
  }

  lemma CubeOfC(n: nat)
    ensures Pow(CHUD_C, n + 3) == 24 * CHUD_C3 * Pow(CHUD_C, n)
  {
    PowAdd(CHUD_C, 3, n);
    assert Pow(CHUD_C, 1) == CHUD_C;
    assert Pow(CHUD_C, 2) == CHUD_C * CHUD_C;
    assert Pow(CHUD_C, 3) == CHUD_C * (CHUD_C * CHUD_C) == 24 * CHUD_C3;
  }

  /** The six factors of (6k)! are 24 times the factor of term k times the three of (3k)!. */
  lemma SixFactors(k: int)
    ensures (6 * k) * ((6 * k - 1) * ((6 * k - 2) * ((6 * k - 3) * ((6 * k - 4) * (6 * k - 5)))))
         == 24 * ((2 * k - 1) * (6 * k - 1) * (6 * k - 5)) * ((3 * k) * ((3 * k - 1) * (3 * k - 2)))
  {
    assert (6 * k) * ((6 * k - 2) * (6 * k - 4)) == 8 * ((3 * k) * ((3 * k - 1) * (3 * k - 2)));
    var x, y, z := 6 * k - 1, 6 * k - 5, (3 * k) * ((3 * k - 1) * (3 * k - 2));
    SixProduct(6 * k, x, 6 * k - 2, 6 * k - 3, 6 * k - 4, y);
    assert 6 * k - 3 == 3 * (2 * k - 1);
    TwentyFour(x, y, 2 * k - 1, z);
  }

  lemma SixProduct(a: int, b: int, c: int, d: int, e: int, f: int)
    ensures a * (b * (c * (d * (e * f)))) == (a * (c * e)) * (b * d * f)
  {
  }

  lemma TwentyFour(x: int, y: int, h: int, z: int)
    ensures (8 * z) * (x * (3 * h) * y) == 24 * (h * x * y) * z
  {
  }

  lemma SixthProduct(a: int, b: int, c: int, d: int, e: int, f: int, r: int)
    ensures a * (b * (c * (d * (e * (f * r))))) == (a * (b * (c * (d * (e * f))))) * r
  {
  }

  lemma ThirdProduct(a: int, b: int, c: int, r: int)
    ensures a * (b * (c * r)) == (a * (b * c)) * r
  {
  }

  /** Each term's ratio follows from the one before. */
  lemma RatioStep(k: nat)
    requires k > 0
    ensures Ratio(k) * TermQ(k) as real == Ratio(k - 1) * TermG(k) as real
  {
    hide Factorial, Pow;
    FactorialSteps(k);
    SixFactors(k);
    var r, s, e, w := Factorial(6 * (k - 1)), Factorial(3 * (k - 1)), Factorial(k - 1), Pow(CHUD_C, 3 * (k - 1));
    var n := (6 * k) * ((6 * k - 1) * ((6 * k - 2) * ((6 * k - 3) * ((6 * k - 4) * (6 * k - 5)))));
    var m := (3 * k) * ((3 * k - 1) * (3 * k - 2));
    SixthProduct(6 * k, 6 * k - 1, 6 * k - 2, 6 * k - 3, 6 * k - 4, 6 * k - 5, r);
    ThirdProduct(3 * k, 3 * k - 1, 3 * k - 2, s);
    var d, d0 := SeriesBelow(k), SeriesBelow(k - 1);
    BelowStep(m, s, k, e, w);
    Balance(r, n, d0, k * k * k, TermG(k), m, d);
    CrossRatios(Factorial(6 * k), d, TermQ(k), r, d0, TermG(k));
  }

  lemma BelowStep(m: int, s: int, k: int, e: int, w: int)
    ensures (m * s) * ((k * e) * ((k * e) * (k * e))) * (24 * CHUD_C3 * w) == (s * (e * (e * e)) * w) * (m * (k * k * k) * (24 * CHUD_C3))
  {
    CubeProduct(k, e);
    Regroup(m, s, k * k * k, e * (e * e), w, 24 * CHUD_C3);
  }

  lemma CubeProduct(k: int, e: int)
    ensures (k * e) * ((k * e) * (k * e)) == (k * k * k) * (e * (e * e))
  {
  }

  lemma Regroup(m: int, s: int, x: int, y: int, w: int, c: int)
    ensures (m * s) * (x * y) * (c * w) == (s * y * w) * (m * x * c)
  {
  }

  lemma Balance(r: int, n: int, d0: int, x: int, g: int, m: int, d: int)
    requires n == 24 * g * m && d == d0 * (m * x * (24 * CHUD_C3))
    ensures (n * r) * d0 * (x * CHUD_C3) == r * g * d
  {
    BalanceWith(r, d0, x, g, m, CHUD_C3);
  }

  lemma BalanceWith(r: int, d0: int, x: int, g: int, m: int, c: int)
    ensures ((24 * g * m) * r) * d0 * (x * c) == r * g * (d0 * (m * x * (24 * c)))
  {
  }

  /** The product of the factors after term a carries the ratio of term a over to that of term b. */
  lemma {:induction false} Telescopes(a: nat, b: nat)
    requires a <= b
    ensures ProdG(a, b) as real * Ratio(a) == ProdQ(a, b) as real * Ratio(b)
    decreases b
  {
    hide Ratio, TermG, TermQ;
    if a < b {
      Telescopes(a, b - 1);
      RatioStep(b);
      CarryInts(ProdG(a, b - 1), ProdQ(a, b - 1), TermG(b), TermQ(b), Ratio(a), Ratio(b - 1), Ratio(b));
    }
  }

  lemma CarryInts(g: int, q: int, t: int, u: int, x: real, y: real, z: real)
    requires g as real * x == q as real * y && z * u as real == y * t as real
    ensures (g * t) as real * x == (q * u) as real * z
  {
    assert (g * t) as real == g as real * t as real && (q * u) as real == q as real * u as real;
    Carry(g as real, q as real, t as real, u as real, x, y, z);
  }

  lemma Carry(g: real, q: real, t: real, u: real, x: real, y: real, z: real)
    requires g * x == q * y && z * u == y * t
    ensures (g * t) * x == (q * u) * z
  {
    assert (g * t) * x == (g * x) * t;
    assert (q * y) * t == q * (y * t);
    assert (q * u) * z == q * (z * u);
  }

  /** The integer sum over its denominator, against the series. */
  lemma {:induction false} SumIsSeries(a: nat, b: nat)
    requires a <= b
    ensures SumP(a, b) as real * Ratio(a) == ProdQ(a, b) as real * Series(a, b)
    decreases b
  {
    hide Ratio, TermG, TermQ, TermS, ProdG;
    if a < b {
      SumIsSeries(a, b - 1);
      Telescopes(a, b);
      GatherInts(SumP(a, b - 1), ProdQ(a, b - 1), TermQ(b), ProdG(a, b), TermS(b), Ratio(a), Ratio(b), Series(a, b - 1));
    } else {
      NoTerms(a);
    }
  }

  lemma NoTerms(a: nat)
    ensures SumP(a, a) == 0 && Series(a, a) == 0.0
  {
  }

  lemma GatherInts(p: int, q: int, u: int, g: int, s: int, x: real, z: real, w: real)
    requires p as real * x == q as real * w && g as real * x == (q * u) as real * z
    ensures (p * u + g * s) as real * x == (q * u) as real * (w + s as real * z)
  {
    assert (q * u) as real == q as real * u as real;
    assert (p * u + g * s) as real == p as real * u as real + g as real * s as real;
    Gather(p as real, q as real, u as real, g as real, s as real, x, z, w);
  }

  lemma Gather(p: real, q: real, u: real, g: real, s: real, x: real, z: real, w: real)
    requires p * x == q * w && g * x == (q * u) * z
    ensures (p * u + g * s) * x == (q * u) * (w + s * z)
  {
    assert (p * u) * x == (p * x) * u;
    assert (q * w) * u == (q * u) * w;
    assert (g * s) * x == (g * x) * s;
    assert ((q * u) * z) * s == (q * u) * (s * z);
    assert (p * u + g * s) * x == (p * u) * x + (g * s) * x;
    assert (q * u) * (w + s * z) == (q * u) * w + (q * u) * (s * z);
  }

  lemma RatioOfFirst()
    ensures Ratio(0) == 1.0
  {
    assert Factorial(0) == 1 && Pow(CHUD_C, 0) == 1;
    assert SeriesBelow(0) == 1;
  }

  /**
   The result of chud_bs, for any range of terms: P / Q, scaled by the ratio of the term before the range, is the sum of
   the terms of the Chudnovsky series in the range.
   */
  lemma ChudBsIsSeries(a: nat, b: nat, needG: bool)
    requires a < b
    ensures ChudBs(a, b, needG).Q > 0
    ensures (ChudBs(a, b, needG).P as real / ChudBs(a, b, needG).Q as real) * Ratio(a) == Series(a, b)
    ensures a == 0 ==> ChudBs(a, b, needG).P as real / ChudBs(a, b, needG).Q as real == Series(0, b)
  {
    hide ChudBs, SumP, ProdQ, ProdG, Ratio, Series;
    ChudBsMeaning(a, b, needG);
    SumIsSeries(a, b);
    RatioOfFirst();
    Quotient(SumP(a, b) as real, ProdQ(a, b) as real, Ratio(a), Series(a, b));
  }

  lemma Quotient(p: real, q: real, x: real, s: real)
    requires q > 0.0 && p * x == q * s
    ensures (p / q) * x == s
  {
    var z := p / q;
    assert z * q == p;
    assert (z * x) * q == (z * q) * x;
    assert s * q == q * s;
    RealCancel(z * x, s, q);
  }
}

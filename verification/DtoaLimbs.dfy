/**
 Numbers as limbs of 32 bits, the loops over them, and division of a double limb by one multiplication.
 */
module Limbs {
  import opened Powers

  const B: nat := 0x1_0000_0000

  type Limb = x: int | 0 <= x < 0x1_0000_0000
  type DLimb = x: int | 0 <= x < 0x1_0000_0000_0000_0000

  /** A conversion to limb_t. */
  function Low(x: int): Limb {
    x % 0x1_0000_0000
  }

  /** A conversion to dlimb_t. */
  function Wide(x: int): DLimb {
    x % 0x1_0000_0000_0000_0000
  }

  // ----- division by a precomputed inverse -----

  /** udiv1norm_init: the inverse of a divisor with its high bit set. */
  function Udiv1NormInit(d: Limb): (v: Limb)
    requires d >= 0x8000_0000
    ensures (v + B) * d < B * B <= (v + B) * d + d
  {
    var a1 := Low(-(d as int) - 1);
    InverseBounds(d);
    (a1 * B + (B - 1)) / d
  }

  lemma InverseBounds(d: Limb)
    requires d >= 0x8000_0000
    ensures var a := Low(-(d as int) - 1) * B + (B - 1);
            a / d < B && (a / d + B) * d < B * B <= (a / d + B) * d + d
  {
    var a := Low(-(d as int) - 1) * B + (B - 1);
    assert a == B * B - 1 - d * B;
    var v, e := Divided(a, d);
    assert (v + B) * d == d * v + d * B;
    if v >= B {
      MulLe(d, d, B, v);
    }
  }

  /** m & d, for a mask of zeros or of ones. */
  function And(m: Limb, d: Limb): Limb
    requires m == 0 || m == 0xFFFF_FFFF
  {
    if m == 0 then 0 else d
  }

  /** d x, for the numerator x of the estimate, in terms of single products. */
  lemma ScaledNumerator(a0: int, d: int, v: int, h: int, m: int, x: int)
    requires h == 0 || h == 1
    requires x == v * m + a0 + h * (d - 2 * B)
    ensures d * x == B * B * m - (B * B - v * d) * m + d * a0 + (if h == 1 then d * d - 2 * B * d else 0)
  {
    MulAssoc(d, v, m);
    assert d * v == v * d;
    MulSub(m, B * B, v * d);
    MulAdd(d, v * m, a0);
    if h == 1 {
      MulAdd(d, v * m + a0, d - 2 * B);
      MulAdd(d, d, -2 * B);
    }
  }

  lemma MulSub(m: int, a: int, b: int)
    ensures (a - b) * m == a * m - b * m
  {
  }

  /** The bounds of the estimate, times d. */
  lemma ScaledBounds(d: int, x: int, est: int)
    requires d > 0 && est * B <= x < est * B + B
    ensures B * (est * d) <= d * x <= B * (est * d) + B * d - d
  {
    var y, z := x - est * B, est * B + B - 1 - x;
    MulAdd(d, est * B, y);
    MulAdd(d, x, z);
    MulAdd(d, est * B, B - 1);
    MulAssoc(d, est, B);
    assert d * est == est * d;
    assert d * y >= 0 && d * z >= 0;
  }

  /** The products that the high bit of a0 brings in are bounded by those that it takes away. */
  lemma ProductBounds(a0: int, d: int, e: int, m: int)
    requires B / 2 <= d < B && 0 <= a0 < B && 0 < e <= d && 0 <= m <= d
    ensures 0 <= e * m <= d * d
    ensures a0 >= B / 2 ==> B * B - 2 * B * d + d * d <= B * a0 - d * a0 <= (B - 1) * B - (B - 1) * d
    ensures a0 < B / 2 ==> 0 <= B * a0 - d * a0 <= B * d - d * d
  {
    MulLe(e, d, m, d);
    var g := B - d;
    assert g * a0 == B * a0 - d * a0 by { MulSub(a0, B, d); }
    assert g * g == B * B - 2 * B * d + d * d by { MulSub(g, B, d); MulAdd(d, B, -d); }
    assert g * d == B * d - d * d by { MulSub(d, B, d); }
    if a0 >= B / 2 {
      MulLe(g, g, g, a0);
      MulLe(g, g, a0, B - 1);
    } else {
      MulLe(g, g, a0, d);
    }
  }

  /**
   With v = floor((B^2 - 1) / d), the integer part est of (v m + a0 + h (d - 2 B)) / B is the quotient of a1 B + a0 by d
   or one less, where h is the high bit of a0 and m is a1 + h.
   */
  lemma EstimateBounds(a1: int, a0: int, d: int, v: int, h: int, m: int, x: int, est: int)
    requires B / 2 <= d < B && 0 <= a1 < d && 0 <= a0 < B
    requires v * d < B * B <= v * d + d
    requires h == (if a0 >= B / 2 then 1 else 0) && m == a1 + h
    requires x == v * m + a0 + h * (d - 2 * B) && est * B <= x < est * B + B
    ensures est * d <= a1 * B + a0 < est * d + 2 * d
  {
    var e := B * B - v * d;
    ScaledNumerator(a0, d, v, h, m, x);
    ScaledBounds(d, x, est);
    ProductBounds(a0, d, e, m);
    EstimateLinear(a1, a0, d, h, d * x, e * m, d * a0, d * d, est * d);
  }

  lemma EstimateLinear(a1: int, a0: int, d: int, h: int, dx: int, w: int, p: int, s: int, t: int)
    requires B / 2 <= d < B && 0 <= a0 < B && h == (if a0 >= B / 2 then 1 else 0)
    requires dx == B * B * (a1 + h) - w + p + (if h == 1 then s - 2 * B * d else 0)
    requires B * t <= dx <= B * t + B * d - d && 0 <= w <= s
    requires a0 >= B / 2 ==> B * B - 2 * B * d + s <= B * a0 - p <= (B - 1) * B - (B - 1) * d
    requires a0 < B / 2 ==> 0 <= B * a0 - p <= B * d - s
    ensures t <= a1 * B + a0 < t + 2 * d
  {
  }

  /** udiv1norm: quotient and remainder of the double limb a1, a0, with one multiplication by the inverse. */
  method Udiv1Norm(a1: Limb, a0: Limb, d: Limb, dInv: Limb) returns (q: Limb, r: Limb)
    requires d >= 0x8000_0000 && a1 < d && dInv == Udiv1NormInit(d)
    ensures a1 * B + a0 == q * d + r && r < d
  {
    hide Low, Wide, Udiv1NormInit;
    var n1m: Limb := if a0 >= 0x8000_0000 then 0xFFFF_FFFF else 0;
    HighBitWords(a1, a0, d, n1m);
    var nAdj := Low(a0 as int + And(n1m, d) as int);
    var m := Low(a1 as int - n1m as int);
    var a := Wide(dInv as int * m as int + nAdj as int);
    var est := Low(a / B + a1);
    Estimated(a1, a0, d, dInv, m, nAdj, a, est);
    a := Wide(Wide(a1 * B + a0) as int - Wide(est * d) as int - d as int);
    var ah := Low(a / B);
    HighHalf(a1, a0, d, est, a);
    q := Low(est as int + 1 + ah as int);
    r := Low(Low(a) as int + And(ah, d) as int);
    Corrected(a1, a0, d, est, a, ah, q, r);
  }

  /** The high half of what is left after the estimate is a mask. */
  lemma HighHalf(a1: Limb, a0: Limb, d: Limb, est: Limb, a: DLimb)
    requires est * d <= a1 * B + a0 < est * d + 2 * d
    requires a == Wide(Wide(a1 * B + a0) as int - Wide(est * d) as int - d as int)
    ensures Low(a / B) == 0 || Low(a / B) == 0xFFFF_FFFF
  {
    hide Low, Wide;
    Adjusted(a1 * B + a0, est * d, d, a);
  }

  lemma Corrected(a1: Limb, a0: Limb, d: Limb, est: Limb, a: DLimb, ah: Limb, q: Limb, r: Limb)
    requires est * d <= a1 * B + a0 < est * d + 2 * d && a1 * B + a0 < d * B
    requires a == Wide(Wide(a1 * B + a0) as int - Wide(est * d) as int - d as int)
    requires ah == Low(a / B) && (ah == 0 || ah == 0xFFFF_FFFF)
    requires q == Low(est as int + 1 + ah as int) && r == Low(Low(a) as int + And(ah, d) as int)
    ensures a1 * B + a0 == q * d + r && r < d
  {
    hide Low, Wide;
    QuotientAdjusted(a1 * B + a0, est * d, d, est, a, ah, q, r);
    QuotientExact(a1 * B + a0, d, est, q, r);
  }

  lemma HighBitWords(a1: Limb, a0: Limb, d: Limb, n1m: Limb)
    requires d >= 0x8000_0000 && a1 < d && n1m == (if a0 >= 0x8000_0000 then 0xFFFF_FFFF else 0)
    ensures Low(a1 as int - n1m as int) == if a0 >= 0x8000_0000 then a1 + 1 else a1
    ensures Low(a0 as int + And(n1m, d) as int) == if a0 >= 0x8000_0000 then a0 + d - B else a0
  {
  }

  /** After the correction, q is the estimate or one more, and r what is left. */
  lemma QuotientAdjusted(n: nat, p: int, d: Limb, est: Limb, a: DLimb, ah: Limb, q: Limb, r: Limb)
    requires 0 <= p <= n < p + 2 * d && n < B * B && a == Wide(Wide(n) - Wide(p) - d as int) && ah == Low(a / B)
    requires ah == 0 || ah == 0xFFFF_FFFF
    requires q == Low(est as int + 1 + ah as int) && r == Low(Low(a) as int + And(ah, d) as int)
    ensures if n - p >= d then q == Low(est as int + 1) && r == n - p - d else q == est && r == n - p
  {
    Adjusted(n, p, d, a);
  }

  lemma QuotientExact(n: nat, d: Limb, est: Limb, q: Limb, r: Limb)
    requires est * d <= n < est * d + 2 * d && n < d * B
    requires if n - est * d >= d then q == Low(est as int + 1) && r == n - est * d - d else q == est && r == n - est * d
    ensures n == q * d + r && r < d
  {
    MulSub(d, est + 1, 1);
    if est == B - 1 {
      assert est * d == B * d - d;
    }
  }

  lemma Estimated(a1: Limb, a0: Limb, d: Limb, dInv: Limb, m: Limb, nAdj: Limb, a: DLimb, est: Limb)
    requires d >= 0x8000_0000 && a1 < d && dInv == Udiv1NormInit(d)
    requires m == (if a0 >= 0x8000_0000 then a1 + 1 else a1)
    requires nAdj == (if a0 >= 0x8000_0000 then a0 + d - B else a0)
    requires a == Wide(dInv * m + nAdj) && est == Low(a / B + a1)
    ensures est * d <= a1 * B + a0 < est * d + 2 * d && a1 * B + a0 < d * B
  {
    hide Udiv1NormInit;
    var z := dInv * m;
    SmallProduct(dInv, m);
    var full := EstimateWords(z, nAdj, a1, a, est);
    InverseTimes(d, dInv, m);
    EstimateBounds(a1, a0, d, dInv + B, if a0 >= 0x8000_0000 then 1 else 0, m, a + a1 * B, full);
    SmallQuotient(full, d, a1 * B + a0);
  }

  lemma SmallProduct(x: Limb, y: Limb)
    ensures 0 <= x * y <= (B - 1) * (B - 1)
  {
    MulLe(x, B - 1, y, B - 1);
  }

  lemma InverseTimes(d: Limb, dInv: Limb, m: Limb)
    requires d >= 0x8000_0000 && dInv == Udiv1NormInit(d)
    ensures (dInv + B) * d < B * B <= (dInv + B) * d + d && (dInv + B) * m == dInv * m + B * m
  {
  }

  lemma SmallQuotient(full: nat, d: Limb, n: nat)
    requires full * d <= n && n < d * B
    ensures full < B
  {
    if full >= B {
      MulLe(B, full, d, d);
    }
  }

  lemma EstimateWords(z: int, nAdj: Limb, a1: Limb, a: DLimb, est: Limb) returns (full: nat)
    requires 0 <= z <= (B - 1) * (B - 1) && a == Wide(z + nAdj) && est == Low(a / B + a1)
    ensures a == z + nAdj && full * B <= a + a1 * B < full * B + B && (full < B ==> est == full)
  {
    full := a / B + a1;
  }

  /** The remainder of the estimate, less d, as the 64-bit subtraction leaves it. */
  lemma Adjusted(n: int, p: int, d: Limb, a: DLimb)
    requires 0 <= p <= n < p + 2 * d && n < B * B && a == Wide(Wide(n) - Wide(p) - d as int)
    ensures if n - p >= d then a == n - p - d && Low(a / B) == 0 && Low(a) == a
            else Low(a / B) == B - 1 && Low(a) == Low(n - p - d)
  {
    assert Wide(n) == n && Wide(p) == p;
    if n - p >= d {
      assert a == n - p - d;
    } else {
      assert a == n - p - d + B * B;
    }
  }
}

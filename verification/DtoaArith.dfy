/**
 Powers, bit lengths and rounded quotients: the arithmetic that number printing and parsing rest on.
 */
module Powers {
  function Pow(b: nat, n: nat): (p: nat)
    ensures b > 0 ==> p > 0
  {
    if n == 0 then 1 else b * Pow(b, n - 1)
  }

  lemma PowNone(b: nat)
    ensures Pow(b, 0) == 1
  {
  }

  lemma {:induction false} PowAdd(b: nat, m: nat, n: nat)
    ensures Pow(b, m + n) == Pow(b, m) * Pow(b, n)
  {
    if m == 0 {
      assert Pow(b, 0) * Pow(b, n) == Pow(b, n);
    } else {
      PowAdd(b, m - 1, n);
      MulAssoc(b, Pow(b, m - 1), Pow(b, n));
      assert m + n - 1 == m - 1 + n;
    }
  }

  lemma {:induction false} PowMul(b: nat, m: nat, n: nat)
    ensures Pow(Pow(b, m), n) == Pow(b, m * n)
  {
    if n == 0 {
      assert m * n == 0;
    } else {
      PowMul(b, m, n - 1);
      assert m * n == m + m * (n - 1);
      PowAdd(b, m, m * (n - 1));
    }
  }

  lemma {:induction false} PowProduct(a: nat, b: nat, n: nat)
    ensures Pow(a * b, n) == Pow(a, n) * Pow(b, n)
  {
    if n > 0 {
      PowProduct(a, b, n - 1);
      MulSwap(a, b, Pow(a, n - 1), Pow(b, n - 1));
    }
  }

  lemma {:induction false} PowMonotone(b: nat, m: nat, n: nat)
    requires b >= 1 && m <= n
    ensures Pow(b, m) <= Pow(b, n)
  {
    if m < n {
      PowMonotone(b, m, n - 1);
      assert b * Pow(b, n - 1) >= 1 * Pow(b, n - 1);
    }
  }

  lemma {:induction false} PowBaseMonotone(a: nat, b: nat, n: nat)
    requires a <= b
    ensures Pow(a, n) <= Pow(b, n)
  {
    if n > 0 {
      PowBaseMonotone(a, b, n - 1);
      MulLe(a, b, Pow(a, n - 1), Pow(b, n - 1));
    }
  }

  /** Comparing powers compares the bases. */
  lemma {:induction false} PowBaseStrict(a: nat, b: nat, n: nat)
    requires a < b && n > 0
    ensures Pow(a, n) < Pow(b, n)
  {
    if n > 1 {
      PowBaseStrict(a, b, n - 1);
    }
    var x, y := Pow(a, n - 1), Pow(b, n - 1);
    assert x <= y && y > 0;
    hide Pow;
    MulLe(a, a, x, y);
    MulCompare(y, a, b);
    assert a * y == y * a && b * y == y * b;
  }

  lemma MulSwap(a: int, b: int, x: int, y: int)
    ensures (a * b) * (x * y) == (a * x) * (b * y)
  {
    MulAssoc(a, b, x * y);
    MulAssoc(b, x, y);
    MulAssoc(x, b, y);
    MulAssoc(a, x, b * y);
  }

  lemma MulAssoc(a: int, b: int, c: int)
    ensures (a * b) * c == a * (b * c)
  {
  }

  lemma MulAdd(a: int, b: int, c: int)
    ensures a * (b + c) == a * b + a * c
  {
  }

  lemma MulLe(a: nat, b: nat, c: nat, d: nat)
    requires a <= b && c <= d
    ensures a * c <= b * d
  {
    assert a * c <= b * c <= b * d;
  }

  lemma MulStrict(k: nat, a: nat, b: nat)
    requires k > 0 && a < b
    ensures k * a < k * b
  {
    MulLe(k, k, a + 1, b);
    MulAdd(k, a, 1);
  }

  lemma MulCompare(k: nat, a: nat, b: nat)
    requires k > 0
    ensures (k * a < k * b <==> a < b) && (k * a == k * b <==> a == b)
  {
    if a < b {
      MulStrict(k, a, b);
    } else if b < a {
      MulStrict(k, b, a);
    }
  }

  lemma Pow32()
    ensures Pow(2, 32) == 0x1_0000_0000
  {
    PowAdd(2, 16, 16);
    PowAdd(2, 8, 8);
    PowAdd(2, 4, 4);
  }

  /** How many bits n has. */
  function BitLength(n: nat): (k: nat) {
    if n == 0 then 0 else 1 + BitLength(n / 2)
  }

  lemma {:induction false} BitLengthBounds(n: nat)
    requires n > 0
    ensures BitLength(n) > 0 && Pow(2, BitLength(n) - 1) <= n < Pow(2, BitLength(n))
  {
    if n > 1 {
      BitLengthBounds(n / 2);
    }
  }

  /** The bit length is the only one with these bounds. */
  lemma BitLengthIs(n: nat, k: nat)
    requires Pow(2, k) <= n < Pow(2, k + 1)
    ensures BitLength(n) == k + 1
  {
    BitLengthBounds(n);
    var l := BitLength(n);
    if l <= k {
      PowMonotone(2, l, k);
    } else if l > k + 1 {
      PowMonotone(2, k + 1, l - 1);
    }
  }

  lemma PowDivides(b: nat, m: nat, n: nat, v: nat)
    requires b > 0
    ensures v / Pow(b, m + n) == v / Pow(b, m) / Pow(b, n)
  {
    PowAdd(b, m, n);
    DivDiv(v, Pow(b, m), Pow(b, n));
  }

  lemma DivDiv(v: nat, a: nat, b: nat)
    requires a > 0 && b > 0
    ensures a * b > 0 && v / (a * b) == v / a / b && v % (a * b) == a * (v / a % b) + v % a
  {
    Positional(v, a, b, v / a, v % a, v / a / b, v / a % b);
    QuotientIs(v, a * b, v / a / b, a * (v / a % b) + v % a);
  }

  lemma Divided(n: nat, d: nat) returns (q: nat, r: nat)
    requires d > 0
    ensures n / d == q && n % d == r && n == d * q + r && r < d
  {
    q, r := n / d, n % d;
  }

  /** A number in the mixed radix a, b. */
  lemma Positional(v: int, a: nat, b: nat, q: int, r: nat, q2: int, r2: nat)
    requires v == a * q + r && r < a && q == b * q2 + r2 && r2 < b
    ensures a * b > 0 && v == (a * b) * q2 + (a * r2 + r) && a * r2 + r < a * b
  {
    MulAdd(a, b * q2, r2);
    MulAssoc(a, b, q2);
    MulLe(a, a, r2 + 1, b);
    MulAdd(a, r2, 1);
  }

  /** Quotient and remainder are unique. */
  lemma QuotientIs(v: nat, d: nat, q: nat, r: nat)
    requires v == d * q + r && r < d
    ensures v / d == q && v % d == r
  {
    var q' := v / d;
    MulAdd(d, q, 1);
    MulAdd(d, q', 1);
    if q < q' {
      MulLe(d, d, q + 1, q');
    } else if q' < q {
      MulLe(d, d, q' + 1, q);
    }
  }
}

/** Rounding a quotient to an integer. */
module Rounding {
  import opened Powers

  /** JS_RNDN, JS_RNDNA and JS_RNDZ. */
  datatype Mode = NearestEven | NearestAway | TowardZero

  /** n / d rounded to an integer. */
  function RoundDiv(n: nat, d: nat, mode: Mode): (r: nat)
    requires d > 0
    ensures n / d <= r <= n / d + 1
  {
    RoundParts(n / d, n % d, d, mode)
  }

  /** q + r / d rounded to an integer, for a remainder r below d. */
  function RoundParts(q: nat, r: nat, d: nat, mode: Mode): nat {
    match mode
    case TowardZero => q
    case NearestAway => if 2 * r >= d then q + 1 else q
    case NearestEven => if 2 * r > d || (2 * r == d && q % 2 == 1) then q + 1 else q
  }

  /** p is no further than d / 2 from n. */
  predicate Near(p: int, n: int, d: int) {
    2 * (p - n) <= d && 2 * (n - p) <= d
  }

  predicate Tie(p: int, n: int, d: int) {
    2 * (p - n) == d || 2 * (n - p) == d
  }

  /** Multiplying by d again misses n by at most d / 2 in the nearest modes. */
  lemma RoundDivNear(n: nat, d: nat, mode: Mode)
    requires d > 0 && !mode.TowardZero?
    ensures Near(RoundDiv(n, d, mode) * d, n, d)
    ensures mode.NearestEven? && Tie(RoundDiv(n, d, mode) * d, n, d) ==> RoundDiv(n, d, mode) % 2 == 0
  {
    var q := n / d;
    MulAdd(d, q, 1);
  }

  /** The rounded quotient is determined by being nearest, with ties to even. */
  lemma RoundDivUnique(n: nat, d: nat, k: nat)
    requires d > 0 && Near(k * d, n, d) && (Tie(k * d, n, d) ==> k % 2 == 0)
    ensures RoundDiv(n, d, NearestEven) == k
  {
    OneOfTwo(n, d, k, n / d, n % d);
  }

  lemma OneOfTwo(n: nat, d: nat, k: nat, q: nat, r: nat)
    requires n == d * q + r && r < d && Near(k * d, n, d)
    ensures (k == q && 2 * r <= d && k * d == n - r) || (k == q + 1 && 2 * r >= d && k * d == n - r + d)
  {
    MulAdd(d, q, 1);
    if k >= q + 2 {
      MulLe(d, d, q + 2, k);
      MulAdd(d, q, 2);
    } else if k + 1 <= q {
      MulLe(d, d, k + 1, q);
      MulAdd(d, k, 1);
    }
  }

  /** Only the ratio matters. */
  lemma RoundDivScale(n: nat, d: nat, k: nat, mode: Mode)
    requires d > 0 && k > 0
    ensures k * d > 0 && RoundDiv(k * n, k * d, mode) == RoundDiv(n, d, mode)
  {
    var q, r := n / d, n % d;
    MulAdd(k, d * q, r);
    MulAssoc(k, d, q);
    MulStrict(k, r, d);
    QuotientIs(k * n, k * d, q, k * r);
    MulCompare(k, 2 * r, d);
    MulAssoc(2, k, r);
    MulAssoc(k, 2, r);
  }

  lemma RoundDivSameRatio(n: nat, d: nat, n': nat, d': nat, mode: Mode)
    requires d > 0 && d' > 0 && n * d' == n' * d
    ensures RoundDiv(n, d, mode) == RoundDiv(n', d', mode)
  {
    RoundDivScale(n, d, d', mode);
    RoundDivScale(n', d', d, mode);
    assert d' * n == n * d' && d * n' == n' * d && d' * d == d * d';
  }

  /**
   The integer part of n / d with its last bit set when something was cut off: from 2 bits below on, it rounds like
   n / d itself.
   */
  function Sticky(n: nat, d: nat): nat
    requires d > 0
  {
    var q := n / d;
    if n % d != 0 && q % 2 == 0 then q + 1 else q
  }

  lemma StickyRounds(n: nat, d: nat, s: nat, mode: Mode)
    requires d > 0 && s >= 2
    ensures Pow(2, s) * d > 0 && RoundDiv(Sticky(n, d), Pow(2, s), mode) == RoundDiv(n, Pow(2, s) * d, mode)
  {
    PowAdd(2, 2, s - 2);
    var f := Pow(2, s - 2);
    assert f > 0 && Pow(2, s) == 4 * f;
    hide RoundDiv, Sticky, Pow;
    StickyRoundsAt(n, d, f, Pow(2, s), mode);
  }

  lemma StickyRoundsAt(n: nat, d: nat, f: nat, e: nat, mode: Mode)
    requires d > 0 && f > 0 && e == 4 * f
    ensures e * d > 0 && RoundDiv(Sticky(n, d), e, mode) == RoundDiv(n, e * d, mode)
  {
    hide RoundDiv, Sticky;
    var q, r := Divided(n, d);
    var q2, r2 := Divided(q, e);
    StickyStep(n, d, f, e, q, r, q2, r2, mode);
  }

  lemma RoundDivIs(n: nat, d: nat, q: nat, r: nat, mode: Mode)
    requires d > 0 && n / d == q && n % d == r
    ensures RoundDiv(n, d, mode) == RoundParts(q, r, d, mode)
  {
  }

  lemma StickyIs(n: nat, d: nat, q: nat, r: nat)
    requires d > 0 && n / d == q && n % d == r
    ensures Sticky(n, d) == q + if r != 0 && q % 2 == 0 then 1 else 0
  {
  }

  lemma StickyStep(n: nat, d: nat, f: nat, e: nat, q: nat, r: nat, q2: nat, r2: nat, mode: Mode)
    requires d > 0 && f > 0 && e == 4 * f && n / d == q && n % d == r && q / e == q2 && q % e == r2
    ensures e * d > 0 && RoundDiv(Sticky(n, d), e, mode) == RoundDiv(n, e * d, mode)
  {
    hide RoundDiv, RoundParts, Sticky;
    var bump := if r != 0 && q % 2 == 0 then 1 else 0;
    StickyIs(n, d, q, r);
    DivDiv(n, d, e);
    assert e * d == d * e;
    StickyBit(q, f, q2, r2, bump);
    RoundDivIs(q + bump, e, q2, r2 + bump, mode);
    RoundDivIs(n, d * e, q2, d * r2 + r, mode);
    StickyParts(d, f, r, q2, r2, bump, mode);
  }

  lemma StickyParts(d: nat, f: nat, r: nat, q2: nat, r2: nat, bump: nat, mode: Mode)
    requires r < d && f > 0 && r2 < 4 * f
    requires bump == (if r != 0 && r2 % 2 == 0 then 1 else 0)
    ensures RoundParts(q2, r2 + bump, 4 * f, mode) == RoundParts(q2, d * r2 + r, d * (4 * f), mode)
  {
    AroundHalf(d, f, r, r2);
  }

  /** Setting the last bit of an even q leaves its quotient by 4 f. */
  lemma StickyBit(q: nat, f: nat, q2: nat, r2: nat, bump: nat)
    requires f > 0 && q2 == q / (4 * f) && r2 == q % (4 * f) && bump <= 1 && (bump == 1 ==> q % 2 == 0)
    ensures r2 % 2 == q % 2
    ensures (q + bump) / (4 * f) == q2 && (q + bump) % (4 * f) == r2 + bump
  {
    var q', r' := Divided(q, 4 * f);
    MulAssoc(4, f, q2);
    EvenRest(q, f * q2, r2);
    QuotientIs(q + bump, 4 * f, q2, r2 + bump);
  }

  lemma EvenRest(q: nat, x: nat, r: nat)
    requires q == 4 * x + r
    ensures r % 2 == q % 2
  {
  }

  /** The tie is at 2 f, before and after the digits r are put below. */
  lemma AroundHalf(d: nat, f: nat, r: nat, r2: nat)
    requires r < d
    ensures r2 < 2 * f ==> 2 * (d * r2 + r) < d * (4 * f)
    ensures r2 == 2 * f ==> 2 * (d * r2 + r) == d * (4 * f) + 2 * r
    ensures r2 > 2 * f ==> 2 * (d * r2 + r) > d * (4 * f)
  {
    var y := d * (2 * f);
    MulAdd(d, 2 * f, 2 * f);
    if r2 < 2 * f {
      MulLe(d, d, r2 + 1, 2 * f);
      MulAdd(d, r2, 1);
    } else if r2 > 2 * f {
      MulLe(d, d, 2 * f + 1, r2);
      MulAdd(d, 2 * f, 1);
    }
  }
}

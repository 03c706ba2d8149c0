/**
 Scaling by powers of the radix, exactly or down to a sticky bit, and what rounding makes of it.
 */
module Scaling {
  import opened Powers
  import opened Rounding
  import opened Limbs
  import opened BigNumbers
  import opened RadixTables

  /** The radix as an odd part times 2^shift. */
  ghost predicate RadixParts(radix: nat, radix1: nat, radixShift: nat) {
    2 <= radix <= 36 && radix1 % 2 == 1 && radixShift <= 5 && radix == radix1 * Pow(2, radixShift)
  }

  /** A chunk of n digits of an odd radix fits a limb. */
  lemma ChunkFits(radix1: nat, n: nat)
    requires 3 <= radix1 <= 35 && radix1 % 2 == 1 && n <= DIGITS_PER_LIMB[radix1 - 2]
    ensures Pow(radix1, n) < B
  {
    RadixBaseTable(radix1);
    PowMonotone(radix1, n, DIGITS_PER_LIMB[radix1 - 2]);
    assert RADIX_BASE[radix1 - 2] != 0;
  }

  /** f digits in chunks of at most d take at most 2^(32 l) for l chunks. */
  lemma {:induction false} ChunksFit(radix1: nat, f: nat, l: nat)
    requires 3 <= radix1 <= 35 && radix1 % 2 == 1 && f <= l * DIGITS_PER_LIMB[radix1 - 2]
    ensures Pow(radix1, f) <= Pow(2, 32 * l)
  {
    var d := DIGITS_PER_LIMB[radix1 - 2];
    if f <= d {
      ChunkFits(radix1, f);
      if l == 0 {
        assert f == 0;
      } else {
        Pow32();
        PowMonotone(2, 32, 32 * l);
      }
    } else {
      assert l > 0;
      assert (l - 1) * d == l * d - d by { MulSub(d, l, 1); }
      ChunksFit(radix1, f - d, l - 1);
      ChunkFits(radix1, d);
      PowAdd(radix1, d, f - d);
      PowAdd(2, 32, 32 * (l - 1));
      Pow32();
      MulLe(Pow(radix1, d), B, Pow(radix1, f - d), Pow(2, 32 * (l - 1)));
    }
  }

  /** The upward loop of mul_pow: multiply by radix1^f, chunk by chunk. */
  method MulUpBy(a: Mpb, radix1: nat, f0: nat)
    requires 3 <= radix1 <= 35 && radix1 % 2 == 1 && a.Normal() && Val(a.tab) > 0
    modifies a
    ensures a.Normal() && Val(a.tab) == Val(old(a.tab)) * Pow(radix1, f0)
  {
    hide Pow, Join;
    var d := DIGITS_PER_LIMB[radix1 - 2];
    var f, b, n0: nat := f0, 0, 0;
    ghost var v := Val(a.tab);
    PowNone(radix1);
    while f != 0
      invariant 0 <= f <= f0 && a.Normal() && 0 < Val(a.tab) == v * Pow(radix1, f0 - f)
      invariant n0 != 0 ==> n0 <= d && b == Pow(radix1, n0)
      decreases f
    {
      var n := if f < d then f else d;
      ChunkFits(radix1, n);
      if n != n0 {
        b := PowUi(radix1, n);
        n0 := n;
      }
      var s := a.tab;
      var h := a.Mul1(b, 0);
      Scaled1(s, a.tab, h, b);
      if h != 0 {
        ZeroOnTop(a.tab, h);
        a.tab := a.tab + [h];
      }
      PowAdd(radix1, f0 - f, n);
      MulAssoc(v, Pow(radix1, f0 - f), b);
      f := f - n;
    }
  }

  /** Multiplying a normal number by a limb above 0 leaves its top limb nonzero, or a carry. */
  lemma Scaled1(s: seq<Limb>, t: seq<Limb>, h: Limb, b: nat)
    requires NormalLimbs(s) && |t| == |s| && Join(t, h) == Val(s) * b && b > 0 && Val(s) > 0
    ensures h == 0 ==> NormalLimbs(t) && Val(t) == Val(s) * b
    ensures Val(s) * b > 0
  {
    MulLe(Val(s), Val(s), 1, b);
    if h == 0 {
      TopLimb(s);
      TopLimb(t);
    }
  }

  /** q is the integer part of n / d, and `some` says whether something was left. */
  ghost predicate Quotient(n: nat, d: nat, q: nat, some: bool) {
    d > 0 && q == n / d && (some <==> n % d != 0)
  }

  lemma QuotientStep(n: nat, d: nat, q: nat, some: bool, b: nat, q2: nat, r: nat)
    requires Quotient(n, d, q, some) && q == q2 * b + r && r < b
    ensures Quotient(n, d * b, q2, some || r != 0)
  {
    DivDiv(n, d, b);
    assert q2 * b == b * q2;
    QuotientIs(q, b, q2, r);
    if r != 0 {
      MulLe(1, d, r, r);
    } else {
      assert d * 0 == 0;
    }
  }

  lemma QuotientStart(n: nat)
    ensures Quotient(n, 1, n, false)
  {
  }

  /** The downward loop of mul_pow: divide by radix1^f, chunk by chunk, and collect the remainders. */
  method DivDownBy(a: Mpb, radix1: nat, f0: nat) returns (some: bool)
    requires 3 <= radix1 <= 35 && radix1 % 2 == 1 && a.Normal()
    modifies a
    ensures a.Normal() && Quotient(Val(old(a.tab)), Pow(radix1, f0), Val(a.tab), some)
  {
    hide Pow, Join, Quotient, Udiv1NormInit, Dividend, Divides;
    var d := DIGITS_PER_LIMB[radix1 - 2];
    var f: nat, b: Limb, bInv: Limb, shift: nat, n0: nat := f0, 0, 0, 0, 0;
    ghost var v := Val(a.tab);
    some := false;
    QuotientStart(v);
    PowNone(radix1);
    while f != 0
      invariant 0 <= f <= f0 && a.Normal() && Quotient(v, Pow(radix1, f0 - f), Val(a.tab), some)
      invariant n0 != 0 ==> n0 <= d && b == Pow(radix1, n0) * Pow(2, shift)
      invariant n0 != 0 ==> shift < 32 && b >= 0x8000_0000 && bInv == Udiv1NormInit(b)
      decreases f
    {
      var n := if f < d then f else d;
      ChunkFits(radix1, n);
      if n != n0 {
        b, bInv, shift := PowUiInv(radix1, n);
        n0 := n;
      }
      ghost var q := Val(a.tab);
      var r := a.Div1Norm(a, b, 0, bInv, shift, Pow(radix1, n));
      QuotientStep(v, Pow(radix1, f0 - f), q, some, Pow(radix1, n), Val(a.tab), r);
      some := some || r != 0;
      a.Renorm();
      PowAdd(radix1, f0 - f, n);
      f := f - n;
    }
  }

  /** Setting the low bit of the low limb. */
  lemma LowBitSet(s: seq<Limb>, x: Limb)
    requires NormalLimbs(s) && x == (if s[0] % 2 == 0 then s[0] as int + 1 else s[0])
    ensures NormalLimbs(s[0 := x]) && Val(s[0 := x]) == if Val(s) % 2 == 0 then Val(s) + 1 else Val(s)
  {
    assert s[0 := x][1..] == s[1..];
    EvenMultiple(B, Val(s[1..]), B / 2);
  }

  /**
   mul_pow: a times (radix1 * 2^radixShift)^f, up to a factor 2^eOffset. For a negative f the quotient keeps only a
   sticky bit for what is cut off, below at least 2 bits more than the result needs.
   */
  method MulPow(a: Mpb, radix1: nat, radixShift: nat, f: int, isInt: bool, e: int) returns (eOffset: int, ghost k: nat)
    requires 1 <= radix1 <= 35 && radix1 % 2 == 1 && a.Normal() && Val(a.tab) > 0
    modifies a
    ensures a.Normal() && eOffset == k - f * radixShift && (f >= 0 || radix1 == 1 ==> k == 0)
    ensures Val(a.tab) == Sticky(Grown(Val(old(a.tab)), radix1, f) * Pow(2, k), Shrunk(radix1, f))
    ensures Val(a.tab) > 0 && (f >= 0 || radix1 == 1 ==> Shrunk(radix1, f) == 1)
    ensures f < 0 && radix1 > 1 && isInt ==> eOffset >= e + 2
    ensures f < 0 && radix1 > 1 && !isInt && e >= 0 ==> Val(a.tab) >= Pow(2, e)
  {
    k := 0;
    ghost var v := Val(a.tab);
    eOffset := -f * radixShift;
    StickyOne(v, radix1, f);
    StickyPositive(v, radix1, f);
    if radix1 != 1 {
      if f >= 0 {
        MulUpBy(a, radix1, f);
      } else {
        eOffset, k := DivideSticky(a, radix1, -f, isInt, e, eOffset);
      }
    }
  }

  /** The branch of mul_pow for a negative exponent -f. */
  method DivideSticky(a: Mpb, radix1: nat, f: nat, isInt: bool, e: int, eOffset0: int)
      returns (eOffset: int, ghost k: nat)
    requires 3 <= radix1 <= 35 && radix1 % 2 == 1 && a.Normal() && Val(a.tab) > 0 && f > 0
    modifies a
    ensures a.Normal() && eOffset == eOffset0 + k
    ensures Val(a.tab) == Sticky(Val(old(a.tab)) * Pow(2, k), Pow(radix1, f))
    ensures isInt ==> eOffset >= e + 2
    ensures !isInt && e >= 0 ==> Val(a.tab) >= Pow(2, e)
  {
    hide Pow, Join, RoundDiv, BitLength;
    ghost var v := Val(a.tab);
    var d := DIGITS_PER_LIMB[radix1 - 2];
    var l := (f + d - 1) / d;
    CeilingDiv(f, d, l);
    eOffset := eOffset0 + l * 32;
    var extraBits: nat;
    if !isInt {
      var log := a.FloorLog2();
      extraBits := if e - log > 0 then e - log else 0;
    } else {
      extraBits := if 2 + e - eOffset > 0 then 2 + e - eOffset else 0;
    }
    eOffset := eOffset + extraBits;
    k := l * 32 + extraBits;
    ScalePositive(v, k);
    a.ShrRound(-(l * 32 + extraBits), TowardZero);
    ghost var n := Val(a.tab);
    var some := DivDownBy(a, radix1, f);
    if !isInt && e >= 0 {
      EnoughBits(v, radix1, f, l, extraBits, e, Val(a.tab));
    }
    if some {
      var x: Limb := if a.tab[0] % 2 == 0 then a.tab[0] as int + 1 else a.tab[0];
      LowBitSet(a.tab, x);
      a.tab := a.tab[0 := x];
    }
  }

  lemma ScalePositive(v: nat, k: nat)
    requires v > 0
    ensures v * Pow(2, k) > 0 && (k == 0 ==> v * Pow(2, k) == v && RoundDiv(v, Pow(2, k), TowardZero) == v)
  {
    MulLe(1, v, 1, Pow(2, k));
  }

  lemma CeilingDiv(f: nat, d: nat, l: int)
    requires d > 0 && l == (f + d - 1) / d
    ensures 0 <= l && f <= l * d
  {
    var q, r := Divided(f + d - 1, d);
    assert l * d == d * q;
  }

  /** The factor radix1^f of a nonnegative f. */
  function Grown(v: nat, radix1: nat, f: int): nat {
    if f >= 0 then v * Pow(radix1, f) else v
  }

  /** The divisor radix1^-f of a negative f. */
  function Shrunk(radix1: nat, f: int): (d: nat)
    ensures radix1 > 0 ==> d > 0
  {
    if f >= 0 then 1 else Pow(radix1, -f)
  }

  lemma {:induction false} PowOfOne(n: nat)
    ensures Pow(1, n) == 1
  {
    if n > 0 {
      PowOfOne(n - 1);
    }
  }

  lemma StickyPositive(v: nat, radix1: nat, f: int)
    requires radix1 >= 1 && v > 0
    ensures forall k: nat :: Sticky(Grown(v, radix1, f) * Pow(2, k), Shrunk(radix1, f)) > 0
  {
    var n, d := Grown(v, radix1, f), Shrunk(radix1, f);
    assert n > 0 by { if f >= 0 { MulLe(1, v, 1, Pow(radix1, f)); } }
    forall k: nat ensures Sticky(n * Pow(2, k), d) > 0 {
      MulLe(1, n, 1, Pow(2, k));
      var q, r := Divided(n * Pow(2, k), d);
      if q == 0 { assert d * 0 == 0; }
    }
  }

  lemma StickyOne(v: nat, radix1: nat, f: int)
    requires radix1 >= 1
    ensures f >= 0 ==> Sticky(Grown(v, radix1, f) * Pow(2, 0), Shrunk(radix1, f)) == v * Pow(radix1, f)
    ensures radix1 == 1 ==> Sticky(Grown(v, radix1, f) * Pow(2, 0), Shrunk(radix1, f)) == v && Shrunk(radix1, f) == 1
  {
    if radix1 == 1 {
      PowOfOne(if f >= 0 then f else -f);
    }
  }

  /** With the extra bits, the quotient still has e bits. */
  lemma EnoughBits(v: nat, radix1: nat, f: nat, l: nat, extraBits: nat, e: nat, q: nat)
    requires 3 <= radix1 <= 35 && radix1 % 2 == 1 && v > 0 && f > 0
    requires f <= l * DIGITS_PER_LIMB[radix1 - 2]
    requires extraBits + BitLength(v) - 1 >= e
    requires q == v * Pow(2, l * 32 + extraBits) / Pow(radix1, f)
    ensures q >= Pow(2, e)
  {
    hide Pow, BitLength;
    ChunksFit(radix1, f, l);
    BitLengthBounds(v);
    PowAdd(2, l * 32, extraBits);
    PowAdd(2, BitLength(v) - 1, extraBits);
    PowMonotone(2, e, BitLength(v) - 1 + extraBits);
    LargeQuotient(v, Pow(2, l * 32), Pow(2, extraBits), Pow(radix1, f), Pow(2, BitLength(v) - 1), Pow(2, e));
  }

  lemma LargeQuotient(v: nat, w: nat, x: nat, p: nat, h: nat, m: nat)
    requires 0 < p <= w && h <= v && m <= h * x
    ensures v * (w * x) / p >= m
  {
    MulLe(h, v, x, x);
    MulAssoc(v, w, x);
    MulAssoc(w, v, x);
    assert v * w == w * v;
    MulLe(p, w, m, v * x);
    QuotientAtLeast(v * (w * x), p, m);
  }

  lemma QuotientAtLeast(n: nat, d: nat, m: nat)
    requires d > 0 && d * m <= n
    ensures n / d >= m
  {
    var q, r := Divided(n, d);
    if q < m {
      MulLe(d, d, q + 1, m);
      MulAdd(d, q, 1);
    }
  }

  // ----- rounding a ratio times a power of two -----

  function Up(n: nat, s: int): nat {
    if s >= 0 then n * Pow(2, s) else n
  }

  function Down(d: nat, s: int): (r: nat)
    ensures d > 0 ==> r > 0
  {
    if s >= 0 then d else d * Pow(2, -s)
  }

  /** n / d * 2^s rounded to an integer. */
  function RoundScaled(n: nat, d: nat, s: int, mode: Mode): nat
    requires d > 0
  {
    RoundDiv(Up(n, s), Down(d, s), mode)
  }

  /** n / d and n' / d' are the same ratio. */
  predicate SameRatio(n: nat, d: nat, n': nat, d': nat) {
    d > 0 && d' > 0 && n * d' == n' * d
  }

  lemma SameRatioChain(n1: nat, d1: nat, n2: nat, d2: nat, n3: nat, d3: nat)
    requires SameRatio(n1, d1, n2, d2) && SameRatio(n2, d2, n3, d3)
    ensures SameRatio(n1, d1, n3, d3)
  {
    // multiply by d2 and cancel it
    var x, y := n1 * d3, n3 * d1;
    assert d2 * x == (n1 * d2) * d3 by { MulRotate(d2, n1, d3); }
    assert d2 * y == (n3 * d2) * d1 by { MulRotate(d2, n3, d1); }
    assert (n1 * d2) * d3 == (n2 * d1) * d3 && (n3 * d2) * d1 == (n2 * d3) * d1;
    MulAssoc(n2, d1, d3);
    MulAssoc(n2, d3, d1);
    assert d1 * d3 == d3 * d1;
    MulCompare(d2, x, y);
  }

  lemma MulRotate(a: nat, b: nat, c: nat)
    ensures a * (b * c) == (b * a) * c
  {
    MulAssoc(a, b, c);
    assert a * b == b * a;
  }

  /** Any way of writing the power of two does. */
  lemma UpDown(n: nat, d: nat, s: int, i: nat, j: nat)
    requires d > 0 && s == i - j
    ensures SameRatio(Up(n, s), Down(d, s), n * Pow(2, i), d * Pow(2, j))
  {
    MulLe(1, d, 1, Pow(2, j));
    if s >= 0 {
      PowAdd(2, s, j);
      hide Pow;
      CrossProduct(n, Pow(2, i), d, Pow(2, j), Pow(2, s), 1);
    } else {
      PowAdd(2, -s, i);
      hide Pow;
      CrossProduct(n, Pow(2, i), d, Pow(2, j), 1, Pow(2, -s));
    }
  }

  lemma RoundScaledIs(n: nat, d: nat, s: int, i: nat, j: nat, mode: Mode)
    requires d > 0 && s == i - j
    ensures d * Pow(2, j) > 0 && RoundScaled(n, d, s, mode) == RoundDiv(n * Pow(2, i), d * Pow(2, j), mode)
  {
    hide RoundDiv, Pow;
    UpDown(n, d, s, i, j);
    RoundDivSameRatio(n * Pow(2, i), d * Pow(2, j), Up(n, s), Down(d, s), mode);
  }

  lemma CrossProduct(n: nat, a: nat, d: nat, b: nat, x: nat, y: nat)
    requires a * y == x * b
    ensures (n * a) * (d * y) == (n * x) * (d * b) && n * 1 == n && d * 1 == d
  {
    MulSwap(n, a, d, y);
    MulSwap(n, x, d, b);
  }

  /** A sticky quotient is as good as the ratio itself from 2 bits on. */
  lemma StickyScaled(n: nat, d: nat, s: nat, mode: Mode)
    requires d > 0 && s >= 2
    ensures RoundDiv(Sticky(n, d), Pow(2, s), mode) == RoundScaled(n, d, -(s as int), mode)
  {
    hide Pow, Sticky, RoundDiv, RoundScaled;
    StickyRounds(n, d, s, mode);
    RoundScaledIs(n, d, -(s as int), 0, s, mode);
    PowNone(2);
    assert n * 1 == n;
    assert d * Pow(2, s) == Pow(2, s) * d;
  }

  lemma ExactScaled(n: nat, s: int, mode: Mode)
    ensures s >= 0 ==> RoundDiv(n, Pow(2, s), mode) == RoundScaled(n, 1, -s, mode)
    ensures s < 0 ==> n * Pow(2, -s) == RoundScaled(n, 1, -s, mode)
  {
    if s >= 0 {
      RoundScaledIs(n, 1, -s, 0, s, mode);
      assert n * Pow(2, 0) == n;
    }
  }

  /** A factor of 2 moves between the ratio and the power. */
  lemma RoundScaledShift(n: nat, d: nat, k: nat, s: int, mode: Mode)
    requires d > 0
    ensures RoundScaled(n * Pow(2, k), d, s, mode) == RoundScaled(n, d, s + k, mode)
  {
    var i, j := if s >= 0 then s else 0, if s >= 0 then 0 else -s;
    RoundScaledIs(n * Pow(2, k), d, s, i, j, mode);
    RoundScaledIs(n, d, s + k, k + i, j, mode);
    PowAdd(2, k, i);
    MulAssoc(n, Pow(2, k), Pow(2, i));
  }

  /** m * 2^e * radix^f as a ratio. */
  function Numerator(m: nat, e: int, radix: nat, f: int): nat {
    Up(m, e) * if f >= 0 then Pow(radix, f) else 1
  }

  function Denominator(e: int, radix: nat, f: int): (d: nat)
    requires radix > 0
    ensures d > 0
  {
    Down(1, e) * if f >= 0 then 1 else Pow(radix, -f)
  }

  /** The odd part of the radix and its power of two, apart. */
  lemma ProductRatio(m: nat, e: int, radix: nat, radix1: nat, radixShift: nat, f: int)
    requires RadixParts(radix, radix1, radixShift)
    ensures var s := e + f * radixShift;
            SameRatio(Up(Grown(m, radix1, f), s), Down(Shrunk(radix1, f), s),
                      Numerator(m, e, radix, f), Denominator(e, radix, f))
  {
    var g: nat := if f >= 0 then f else -f;
    var up: nat := if e >= 0 then e else 0;
    var down: nat := if e >= 0 then 0 else -e;
    PowProduct(radix1, Pow(2, radixShift), g);
    PowMul(2, radixShift, g);
    var w := Pow(2, radixShift * g);
    assert Pow(radix, g) == Pow(radix1, g) * w;
    var s := e + f * radixShift;
    assert Pow(2, 0) == 1;
    hide Pow;
    if f >= 0 {
      assert f * radixShift == radixShift * g;
      UpDown(Grown(m, radix1, f), 1, s, up + radixShift * g, down);
      PowAdd(2, up, radixShift * g);
      MulRegroup(m, Pow(radix1, g), Pow(2, up), w);
    } else {
      assert f * radixShift == -(radixShift * g);
      UpDown(m, Shrunk(radix1, f), s, up, down + radixShift * g);
      PowAdd(2, down, radixShift * g);
      MulRegroup(1, Pow(radix1, g), Pow(2, down), w);
    }
  }

  lemma RadixApart(m: nat, e: int, radix: nat, radix1: nat, radixShift: nat, f: int, mode: Mode)
    requires RadixParts(radix, radix1, radixShift)
    ensures Shrunk(radix1, f) > 0
    ensures RoundScaled(Grown(m, radix1, f), Shrunk(radix1, f), e + f * radixShift, mode)
         == RoundDiv(Numerator(m, e, radix, f), Denominator(e, radix, f), mode)
  {
    hide RoundDiv, Pow, Numerator, Denominator, Grown, Shrunk, Up, Down;
    ProductRatio(m, e, radix, radix1, radixShift, f);
    var s := e + f * radixShift;
    RoundDivSameRatio(Up(Grown(m, radix1, f), s), Down(Shrunk(radix1, f), s),
                      Numerator(m, e, radix, f), Denominator(e, radix, f), mode);
  }

  lemma MulRegroup(m: nat, a: nat, b: nat, c: nat)
    ensures (m * a) * (b * c) == (m * b) * (a * c) && 1 * a == a && 1 * b == b && m * 1 == m
  {
    MulSwap(m, a, b, c);
  }

  /** mul_pow_round: m * 2^e * radix^f rounded to an integer, whatever the sign of f. */
  method MulPowRound(a: Mpb, m: DLimb, e: int, radix: nat, radix1: nat, radixShift: nat, f: int, mode: Mode)
    requires RadixParts(radix, radix1, radixShift) && 1 <= radix1 <= 35 && m > 0
    modifies a
    ensures a.Normal()
    ensures Val(a.tab) == RoundDiv(Numerator(m, e, radix, f), Denominator(e, radix, f), mode)
  {
    hide Pow, Join, RoundScaled, RoundDiv, Numerator, Denominator, Sticky;
    a.SetU64(m);
    var eOffset, k := MulPow(a, radix1, radixShift, f, true, e);
    ghost var n, d := Grown(m, radix1, f), Shrunk(radix1, f);
    ghost var v := Val(a.tab);
    a.ShrRound(-e + eOffset, mode);
    StickyOrExact(n, d, k, -e + eOffset, v, mode);
    RadixApart(m, e, radix, radix1, radixShift, f, mode);
  }

  /** Either nothing was cut off, or at least 2 bits are left to cut. */
  lemma StickyOrExact(n: nat, d: nat, k: nat, s: int, v: nat, mode: Mode)
    requires d > 0 && v == Sticky(n * Pow(2, k), d) && (d == 1 || s >= 2)
    ensures s >= 0 ==> RoundDiv(v, Pow(2, s), mode) == RoundScaled(n, d, k - s, mode)
    ensures s < 0 ==> v * Pow(2, -s) == RoundScaled(n, d, k - s, mode)
  {
    RoundScaledShift(n, d, k, -s, mode);
    if d == 1 {
      ExactScaled(n * Pow(2, k), s, mode);
    } else {
      StickyScaled(n * Pow(2, k), d, s, mode);
    }
  }

  // ----- the same ratio has the same 53 bits -----

  lemma SameQuotient(n: nat, d: nat, n': nat, d': nat)
    requires SameRatio(n, d, n', d')
    ensures n / d == n' / d'
  {
    hide SameRatio;
    assert d > 0 && d' > 0 && n * d' == n' * d by { RatioFacts(n, d, n', d'); }
    DivScaled(n, d, d');
    DivScaled(n', d', d);
    assert d * d' == d' * d;
  }

  lemma RatioFacts(n: nat, d: nat, n': nat, d': nat)
    requires SameRatio(n, d, n', d')
    ensures d > 0 && d' > 0 && n * d' == n' * d
  {
  }

  lemma DivScaled(n: nat, d: nat, k: nat)
    requires d > 0 && k > 0
    ensures d * k > 0 && n * k / (d * k) == n / d
  {
    var q, r := Divided(n, d);
    MulSub(k, n, d * q);
    assert (d * q) * k == (d * k) * q by { MulAssoc(d, q, k); MulAssoc(d, k, q); assert q * k == k * q; }
    MulLe(r + 1, d, k, k);
    MulSub(k, r + 1, 1);
    assert r * k == (n - d * q) * k;
    QuotientIs(n * k, d * k, q, r * k);
  }
}

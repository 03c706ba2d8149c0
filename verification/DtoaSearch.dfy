/**
 The search for the digits of a number in radix 10: estimating the exponent, rounding to fewer and fewer digits, and
 why the first candidate needs no check.
 */
module DigitSearch {
  import opened Powers
  import opened Rounding
  import opened Limbs
  import opened BigNumbers
  import opened RadixTables
  import opened Scaling
  import opened Binary64

  // ----- estimating the exponent -----

  /** mul_log2_radix for radix 10. */
  function MulLog2Radix10(a: int): int {
    a * 0x4d104d / 0x100_0000
  }

  predicate NotAbove(x: nat, a: nat, y: nat, b: nat) {
    Pow(x, a) <= Pow(y, b)
  }

  /** 10^643 is just below 2^2136, and 10^146 just above 2^485. */
  lemma PowersOfTen()
    ensures NotAbove(10, 643, 2, 2136) && NotAbove(2, 485, 10, 146)
  {
    PowProduct(5, 2, 643);
    PowProduct(5, 2, 146);
    PowAdd(2, 643, 1493);
    PowAdd(2, 146, 339);
    PowersOfFive();
    MulLe(Pow(5, 643), Pow(2, 1493), Pow(2, 643), Pow(2, 643));
    MulLe(Pow(2, 339), Pow(5, 146), Pow(2, 146), Pow(2, 146));
  }

  lemma PowersOfFive()
    ensures Pow(5, 643) <= Pow(2, 1493) && Pow(2, 339) <= Pow(5, 146)
  {
    FivesTo643();
    FivesTo146();
    TwosTo1493();
    TwosTo339();
  }

  lemma FivesTo643()
    ensures Pow(5, 643) == 0x1ffeaa711e7ab75b7ad6d41fe867c08e1fe1329a388da7a542db119f32272a1bbb45538c8d6919b549912946ef5894b856e760da08fb5fcecce6b973a4d4805a415116f09ffdf2bf0caa98f0a23f162a8972fae3bdb66fe229b8774122bf71d5925efced5433d12ed0ba6708973e99f833a50288299ee665111cce5395c75b258d5a79db2b3f20ff8e5b7c441740a860e904e3b41741c11bac62dfb80341887eb1dbca803238ecd32f4224fd6ffbd2381b5c813658f043d3e45e7d
  {
    hide Pow;
    FivesTo205();
    FivesTo146();
    PowAdd(5, 205, 205);
    assert Pow(5, 410) == 0xfe52b912c4400382537b5a54527d16ee7fc3b624b6ede32750834fcad667e8f3b4f70dd3d61bcbd237614113d2d36852ebde1057412b17889c645ec4da0679705174fbcbf76cb8eeeca13b628075ca35d37904baee7e1b2ea752cc940dfd5ba9d90b0bb4b14e21f99af6ecc0c37499a7b01ab3e9049eb9;
    PowAdd(5, 410, 205);
    assert Pow(5, 615) == 0xfd7d23d85326ef019e33405b99567888e5a40a74c178c311ae2125701160a84de94e430d6e44643818bd7808f5da38b0bc0c4e04bd1f24f88c05899c900885003d3c93224524780038233e0befea1abb285f6541e11ceb4a5a8f453c99749874bb90e935db9f372e3960bfac3241a1d992e7ec71ce3aa88a8f221f79d1a422e420df16df345f5688aea687feb785da607848b2fe1143397771e31750aaf775d1121354840b391d95b2ef137ed695552a755ad;
    PowAdd(5, 615, 28);
  }

  lemma TwosTo1493()
    ensures Pow(2, 1493) == 0x20000000000000000000000000000000000000000000000000000000000000000000000000000000000000000000000000000000000000000000000000000000000000000000000000000000000000000000000000000000000000000000000000000000000000000000000000000000000000000000000000000000000000000000000000000000000000000000000000000000000000000000000000000000000000000000000000000000000000000000000000000000000000
  {
    hide Pow;
    TwosTo476();
    PowAdd(2, 476, 476);
    assert Pow(2, 952) == 0x10000000000000000000000000000000000000000000000000000000000000000000000000000000000000000000000000000000000000000000000000000000000000000000000000000000000000000000000000000000000000000000000000000000000000000000000000000000000000000000000;
    PowAdd(2, 952, 476);
    assert Pow(2, 1428) == 0x1000000000000000000000000000000000000000000000000000000000000000000000000000000000000000000000000000000000000000000000000000000000000000000000000000000000000000000000000000000000000000000000000000000000000000000000000000000000000000000000000000000000000000000000000000000000000000000000000000000000000000000000000000000000000000000000000000000000000000000000;
    PowAdd(2, 1428, 65);
  }

  lemma FivesTo205()
    ensures Pow(5, 205) == 0xff290242c83396ce7e67047175a152712d7d9d59a4583f261f0c9ce92e97d651fda41f575373e9fe737308f86f50d25f0731e96a86bbf1e46d49495
  {
    assert Pow(5, 6) == 0x3d09;
    assert Pow(5, 7) == 0x1312d;
    PowAdd(5, 6, 6);
    assert Pow(5, 12) == 0xe8d4a51;
    PowAdd(5, 6, 7);
    assert Pow(5, 13) == 0x48c27395;
    PowAdd(5, 12, 13);
    assert Pow(5, 25) == 0x422ca8b0a00a425;
    PowAdd(5, 13, 13);
    assert Pow(5, 26) == 0x14adf4b7320334b9;
    PowAdd(5, 25, 26);
    assert Pow(5, 51) == 0x558749db77f70029c77506823d22bd;
    PowAdd(5, 51, 51);
    assert Pow(5, 102) == 0x1c931e8ab871732f416dbf7381f2ac88e244de13b962cab688bd86c8bf89;
    PowAdd(5, 26, 26);
    assert Pow(5, 52) == 0x1aba4714957d300d0e549208b31adb1;
    PowAdd(5, 51, 52);
    assert Pow(5, 103) == 0x8edf98b59a373fec4724bd4189bd5eac6b5856629eedf590abb3a1ebbdad;
    PowAdd(5, 102, 103);
    assert Pow(5, 205) == 0xff290242c83396ce7e67047175a152712d7d9d59a4583f261f0c9ce92e97d651fda41f575373e9fe737308f86f50d25f0731e96a86bbf1e46d49495;
  }


  lemma FivesTo146()
    ensures Pow(5, 28) == 0x204fce5e3e2502611 && Pow(5, 146) == 0x802221226be55a64c2494954da2c9789dd268b0e975528c76435158a6cb8a4d2356f9cfdcafd2279c77d9
  {
    assert Pow(5, 4) == 0x271;
    assert Pow(5, 5) == 0xc35;
    assert Pow(5, 7) == 0x1312d;
    PowAdd(5, 7, 7);
    assert Pow(5, 14) == 0x16bcc41e9;
    PowAdd(5, 14, 14);
    assert Pow(5, 28) == 0x204fce5e3e2502611;
    PowAdd(5, 4, 5);
    assert Pow(5, 9) == 0x1dcd65;
    PowAdd(5, 9, 9);
    assert Pow(5, 18) == 0x3782dace9d9;
    PowAdd(5, 18, 18);
    assert Pow(5, 36) == 0xc097ce7bc90715b34b9f1;
    PowAdd(5, 5, 5);
    assert Pow(5, 10) == 0x9502f9;
    PowAdd(5, 9, 10);
    assert Pow(5, 19) == 0x1158e460913d;
    PowAdd(5, 18, 19);
    assert Pow(5, 37) == 0x3c2f7086aed236c807a1b5;
    PowAdd(5, 36, 37);
    assert Pow(5, 73) == 0x2d4744eba92922375aeaead8e62f6f9050d02cf0865;
    PowAdd(5, 73, 73);
    assert Pow(5, 146) == 0x802221226be55a64c2494954da2c9789dd268b0e975528c76435158a6cb8a4d2356f9cfdcafd2279c77d9;
  }


  lemma TwosTo476()
    ensures Pow(2, 65) == 0x20000000000000000 && Pow(2, 476) == 0x100000000000000000000000000000000000000000000000000000000000000000000000000000000000000000000000000000000000000000000000
  {
    assert Pow(2, 4) == 0x10;
    assert Pow(2, 5) == 0x20;
    assert Pow(2, 7) == 0x80;
    assert Pow(2, 8) == 0x100;
    PowAdd(2, 8, 8);
    assert Pow(2, 16) == 0x10000;
    PowAdd(2, 16, 16);
    assert Pow(2, 32) == 0x100000000;
    PowAdd(2, 4, 5);
    assert Pow(2, 9) == 0x200;
    PowAdd(2, 8, 9);
    assert Pow(2, 17) == 0x20000;
    PowAdd(2, 16, 17);
    assert Pow(2, 33) == 0x200000000;
    PowAdd(2, 32, 33);
    assert Pow(2, 65) == 0x20000000000000000;
    PowAdd(2, 7, 7);
    assert Pow(2, 14) == 0x4000;
    PowAdd(2, 7, 8);
    assert Pow(2, 15) == 0x8000;
    PowAdd(2, 14, 15);
    assert Pow(2, 29) == 0x20000000;
    PowAdd(2, 15, 15);
    assert Pow(2, 30) == 0x40000000;
    PowAdd(2, 29, 30);
    assert Pow(2, 59) == 0x800000000000000;
    PowAdd(2, 30, 30);
    assert Pow(2, 60) == 0x1000000000000000;
    PowAdd(2, 59, 60);
    assert Pow(2, 119) == 0x800000000000000000000000000000;
    PowAdd(2, 119, 119);
    assert Pow(2, 238) == 0x400000000000000000000000000000000000000000000000000000000000;
    PowAdd(2, 238, 238);
    assert Pow(2, 476) == 0x100000000000000000000000000000000000000000000000000000000000000000000000000000000000000000000000000000000000000000000000;
  }


  lemma TwosTo339()
    ensures Pow(2, 339) == 0x8000000000000000000000000000000000000000000000000000000000000000000000000000000000000
  {
    assert Pow(2, 5) == 0x20;
    assert Pow(2, 6) == 0x40;
    PowAdd(2, 5, 5);
    assert Pow(2, 10) == 0x400;
    PowAdd(2, 5, 6);
    assert Pow(2, 11) == 0x800;
    PowAdd(2, 10, 11);
    assert Pow(2, 21) == 0x200000;
    PowAdd(2, 21, 21);
    assert Pow(2, 42) == 0x40000000000;
    PowAdd(2, 42, 42);
    assert Pow(2, 84) == 0x1000000000000000000000;
    PowAdd(2, 11, 11);
    assert Pow(2, 22) == 0x400000;
    PowAdd(2, 21, 22);
    assert Pow(2, 43) == 0x80000000000;
    PowAdd(2, 42, 43);
    assert Pow(2, 85) == 0x2000000000000000000000;
    PowAdd(2, 84, 85);
    assert Pow(2, 169) == 0x2000000000000000000000000000000000000000000;
    PowAdd(2, 85, 85);
    assert Pow(2, 170) == 0x4000000000000000000000000000000000000000000;
    PowAdd(2, 169, 170);
    assert Pow(2, 339) == 0x8000000000000000000000000000000000000000000000000000000000000000000000000000000000000;
  }

  /** Comparing x^n and y^k by a known comparison of larger powers. */
  lemma PowExchange(x: nat, a: nat, n: nat)
    ensures Pow(Pow(x, n), a) == Pow(Pow(x, a), n)
  {
    hide Pow;
    PowMul(x, n, a);
    PowMul(x, a, n);
    assert n * a == a * n;
  }

  lemma PowOfPowers(y: nat, b: nat, n: nat, k: nat, a: nat)
    requires y >= 1 && b * n <= a * k
    ensures Pow(Pow(y, b), n) <= Pow(Pow(y, k), a)
  {
    hide Pow;
    PowMul(y, b, n);
    PowMul(y, k, a);
    assert k * a == a * k;
    PowMonotone(y, b * n, a * k);
  }

  lemma PowRatio(x: nat, a: nat, y: nat, b: nat, n: nat, k: nat)
    requires NotAbove(x, a, y, b) && b * n <= a * k && a > 0 && y >= 1
    ensures Pow(x, n) <= Pow(y, k) && NotAbove(x, n, y, k)
  {
    hide Pow;
    PowExchange(x, a, n);
    PowOfPowers(y, b, n, k, a);
    PowBaseMonotone(Pow(x, a), Pow(y, b), n);
    if Pow(x, n) > Pow(y, k) {
      PowBaseStrict(Pow(y, k), Pow(x, n), a);
    }
  }

  function Plus(i: int): nat {
    if i >= 0 then i else 0
  }

  /** x^i <= c * y^j, for exponents of any sign. */
  predicate PowerAtMost(x: nat, i: int, c: nat, y: nat, j: int) {
    Pow(x, Plus(i)) * Pow(y, Plus(-j)) <= c * Pow(y, Plus(j)) * Pow(x, Plus(-i))
  }

  lemma EstimateAbove(a: nat, k: int)
    requires a <= 2047 && k == MulLog2Radix10(a)
    ensures 0 <= k && 2136 * k <= 643 * a && 146 * a <= 485 * (k + 1)
  {
    EstimateQuotient(a, k);
  }

  lemma EstimateQuotient(a: int, k: int)
    requires k == MulLog2Radix10(a)
    ensures 0x100_0000 * k <= 0x4d104d * a < 0x100_0000 * (k + 1)
  {
  }

  lemma EstimateBelow(b: nat, k: int)
    requires 1 <= b <= 2048 && k == MulLog2Radix10(-(b as int))
    ensures k < 0 && 146 * b <= 485 * -k && 2136 * (-k - 1) <= 643 * b
  {
    EstimateQuotient(-(b as int), k);
  }

  /** The estimate is the floor of a / log2(10), as far as it is promised to be: 10^k <= 2^a < 10^(k + 1). */
  lemma EstimateIsFloor(a: int)
    requires -2048 <= a <= 2047
    ensures var k := MulLog2Radix10(a);
            PowerAtMost(10, k, 1, 2, a) && !PowerAtMost(10, k + 1, 1, 2, a) && PowerAtMost(2, a, 2, 10, k + 1)
  {
    hide Pow, MulLog2Radix10, PowerAtMost;
    var k := MulLog2Radix10(a);
    if a >= 0 {
      EstimateAbove(a, k);
      PositivePowers(a, k);
    } else {
      EstimateBelow(-a, k);
      NegativePowers(-a, -k);
    }
  }

  /** No power of ten but 1 is a power of two. */
  lemma {:induction false} PowersDiffer(a: nat, n: nat)
    requires n > 0
    ensures Pow(2, a) != Pow(10, n)
  {
    assert Pow(10, n) == 10 * Pow(10, n - 1);
    NoFive(a);
  }

  lemma {:induction false} NoFive(a: nat)
    ensures Pow(2, a) % 5 != 0
  {
    if a > 0 {
      NoFive(a - 1);
    }
  }

  lemma AtMostAbove(x: nat, i: nat, c: nat, y: nat, j: nat)
    requires Pow(x, i) <= c * Pow(y, j)
    ensures PowerAtMost(x, i, c, y, j)
  {
    hide Pow;
    PowNone(x);
    PowNone(y);
  }

  lemma AtMostBelow(x: nat, i: nat, c: nat, y: nat, j: nat)
    requires Pow(y, j) <= c * Pow(x, i)
    ensures PowerAtMost(x, -(i as int), c, y, -(j as int))
  {
    hide Pow;
    PowNone(x);
    PowNone(y);
    WithoutUnits(Pow(x, 0), Pow(y, 0), Pow(y, j), c, Pow(x, i));
  }

  lemma WithoutUnits(p: nat, q: nat, a: nat, c: nat, b: nat)
    requires p == q == 1 && a <= c * b
    ensures p * a <= c * q * b
  {
  }

  /** x^i > y^j, for exponents of any sign. */
  lemma AboveForm(x: nat, i: int, y: nat, j: int)
    requires if j >= 0 then i >= 0 && Pow(x, i) > Pow(y, j) else i <= 0 && Pow(y, -j) > Pow(x, -i)
    ensures !PowerAtMost(x, i, 1, y, j)
  {
    hide Pow;
    PowNone(x);
    PowNone(y);
  }

  lemma PositivePowers(a: nat, k: nat)
    requires 2136 * k <= 643 * a && 146 * a <= 485 * (k + 1)
    ensures PowerAtMost(10, k, 1, 2, a) && !PowerAtMost(10, k + 1, 1, 2, a) && PowerAtMost(2, a, 2, 10, k + 1)
  {
    hide Pow, PowerAtMost, NotAbove;
    PowersOfTen();
    PowRatio(10, 643, 2, 2136, k, a);
    AtMostAbove(10, k, 1, 2, a);
    PowRatio(2, 485, 10, 146, a, k + 1);
    PowersDiffer(a, k + 1);
    AboveForm(10, k + 1, 2, a);
    AtMostAbove(2, a, 2, 10, k + 1);
  }

  lemma TensBelow(b: nat, c: nat)
    requires b >= 1 && 2136 * c <= 643 * b && NotAbove(10, 643, 2, 2136)
    ensures Pow(10, c) < Pow(2, b)
  {
    hide Pow, NotAbove;
    if c > 0 {
      PowRatio(10, 643, 2, 2136, c, b);
      PowersDiffer(b, c);
    } else {
      OneBelow(b);
    }
  }

  lemma OneBelow(b: nat)
    requires b >= 1
    ensures Pow(10, 0) < Pow(2, b)
  {
    assert Pow(2, b) == 2 * Pow(2, b - 1);
  }

  lemma NegativePowers(b: nat, c: nat)
    requires b >= 1 && c >= 1 && 146 * b <= 485 * c && 2136 * (c - 1) <= 643 * b
    ensures PowerAtMost(10, -(c as int), 1, 2, -(b as int)) && !PowerAtMost(10, -(c as int) + 1, 1, 2, -(b as int))
    ensures PowerAtMost(2, -(b as int), 2, 10, -(c as int) + 1)
  {
    hide Pow, PowerAtMost, NotAbove;
    PowersOfTen();
    PowRatio(2, 485, 10, 146, b, c);
    TensBelow(b, c - 1);
    AtMostBelow(10, c, 1, 2, b);
    AtMostBelow(2, b, 2, 10, c - 1);
    AboveForm(10, -(c as int) + 1, 2, -(b as int));
  }

  // ----- the scaled number -----

  lemma Regroup5(t: nat, s: nat, c: nat, b: nat, g: nat)
    ensures (t * s) * (c * (b * g)) == (c * (t * g)) * (b * s)
  {
    MulSwap(t, s, c * g, b);
    MulAssoc(c, b, g);
    MulAssoc(c, g, b);
    MulAssoc(c, t, g);
    MulAssoc(t, c, g);
    assert b * g == g * b && c * t == t * c && s * b == b * s;
  }

  /** Combining two comparisons of powers into one of products. */
  lemma CombineLower(t1: nat, t2: nat, s1: nat, s2: nat, a: nat, b: nat, f: nat, g: nat, h: nat, c: nat)
    requires t1 * s2 <= s1 * t2 && s1 * b == h * (a * s2) && c * (t2 * g) == t1 * f && t2 > 0 && s2 > 0
    ensures c * (b * g) <= h * (a * f)
  {
    var x, y, z := c * (b * g), h * (a * f), t2 * s2;
    Regroup5(t2, s2, c, b, g);
    Regroup5(s2, t2, h, f, a);
    CombineStep(t1, t2, s1, s2, a, b, f, h);
    MulLe(1, t2, 1, s2);
    assert s2 * t2 == t2 * s2 && f * a == a * f && s2 * a == a * s2;
    MulCompare(z, y, x);
  }

  lemma CombineStep(t1: nat, t2: nat, s1: nat, s2: nat, a: nat, b: nat, f: nat, h: nat)
    requires t1 * s2 <= s1 * t2 && s1 * b == h * (a * s2)
    ensures (t1 * f) * (b * s2) <= (h * (a * s2)) * (f * t2)
  {
    MulLe(t1 * s2, s1 * t2, f * b, f * b);
    MulSwap(t1, f, s2, b);
    MulSwap(s1, b, t2, f);
    assert f * t2 == t2 * f && b * s2 == s2 * b && b * f == f * b;
  }

  /** x^i * x^j' == x^k * x^i' * x^j, when the exponents agree. */
  lemma {:induction false} PowBalance(x: nat, i: nat, j: nat, k: nat, i': nat, j': nat)
    requires i + j' == k + j + i'
    ensures Pow(x, i) * Pow(x, j') == Pow(x, k) * (Pow(x, j) * Pow(x, i'))
  {
    PowAdd(x, i, j');
    PowAdd(x, j, i');
    PowAdd(x, k, j + i');
  }

  /** m * 2^(e - 53), a number of 53 bits. */
  ghost predicate Mantissa(m: nat, e: int) {
    0x10_0000_0000_0000 <= m < 0x20_0000_0000_0000 && -1073 <= e <= 1024
  }

  /** With the estimated exponent, the number scaled to p digits has at least p and less than p + 1 digits. */
  lemma ScaledNumber(m: nat, e: int, p: nat)
    requires Mantissa(m, e) && p >= 1
    ensures var E := 1 + MulLog2Radix10(e - 1);
            var n, d := Numerator(m, e - 53, 10, p - E), Denominator(e - 53, 10, p - E);
            d * Pow(10, p - 1) <= n < d * (4 * Pow(10, p))
  {
    hide Pow, MulLog2Radix10, Numerator, Denominator;
    var E := 1 + MulLog2Radix10(e - 1);
    EstimateIsFloor(e - 1);
    PowBalance(2, Plus(e - 1), Plus(e - 53), 52, Plus(1 - e), Plus(53 - e));
    PowBalance(10, Plus(E - 1), Plus(E - p), p - 1, Plus(1 - E), Plus(p - E));
    PowBalance(10, Plus(E), Plus(E - p), p, Plus(-E), Plus(p - E));
    var A, B', F, G := Pow(2, Plus(e - 53)), Pow(2, Plus(53 - e)), Pow(10, Plus(p - E)), Pow(10, Plus(E - p));
    RatioForm(m, e - 53, p - E);
    TwoTo53();
    ScaledLower(m, e, p, E, A, B', F, G);
    ScaledUpper(m, e, p, E, A, B', F, G);
  }

  lemma RatioForm(m: nat, e: int, f: int)
    ensures Numerator(m, e, 10, f) == m * (Pow(2, Plus(e)) * Pow(10, Plus(f)))
    ensures Denominator(e, 10, f) == Pow(2, Plus(-e)) * Pow(10, Plus(-f))
  {
    assert Pow(2, 0) == 1 && Pow(10, 0) == 1;
    MulAssoc(m, Pow(2, Plus(e)), Pow(10, Plus(f)));
  }

  lemma ScaledLower(m: nat, e: int, p: nat, E: int, A: nat, B': nat, F: nat, G: nat)
    requires p >= 1 && PowerAtMost(10, E - 1, 1, 2, e - 1) && m >= Pow(2, 52)
    requires Pow(2, Plus(e - 1)) * B' == Pow(2, 52) * (A * Pow(2, Plus(1 - e)))
    requires Pow(10, Plus(E - 1)) * F == Pow(10, p - 1) * (G * Pow(10, Plus(1 - E)))
    ensures (B' * G) * Pow(10, p - 1) <= m * (A * F)
  {
    hide Pow;
    var t1, t2, s1, s2 := Pow(10, Plus(E - 1)), Pow(10, Plus(1 - E)), Pow(2, Plus(e - 1)), Pow(2, Plus(1 - e));
    assert t1 * s2 <= s1 * t2 by {
      assert 1 * s1 == s1;
    }
    var h, c := Pow(2, 52), Pow(10, p - 1);
    hide Pow, PowerAtMost;
    assert G * t2 == t2 * G;
    CombineLower(t1, t2, s1, s2, A, B', F, G, h, c);
    MulLe(h, m, A * F, A * F);
    assert (B' * G) * c == c * (B' * G);
  }

  lemma ScaledUpper(m: nat, e: int, p: nat, E: int, A: nat, B': nat, F: nat, G: nat)
    requires PowerAtMost(2, e - 1, 2, 10, E) && m < 2 * Pow(2, 52) && A > 0 && F > 0
    requires Pow(2, Plus(e - 1)) * B' == Pow(2, 52) * (A * Pow(2, Plus(1 - e)))
    requires Pow(10, Plus(E)) * F == Pow(10, p) * (G * Pow(10, Plus(-E)))
    ensures m * (A * F) < (B' * G) * (4 * Pow(10, p))
  {
    var s1, s2, u1, u2 := Pow(2, Plus(e - 1)), Pow(2, Plus(1 - e)), Pow(10, Plus(E)), Pow(10, Plus(-E));
    assert e - 1 == -(1 - e);
    assert s1 * u2 <= 2 * u1 * s2;
    var h, c := 2 * Pow(10, p), Pow(2, 52);
    hide Pow, PowerAtMost;
    assert (2 * u1) * F == h * (G * u2) by { MulAssoc(2, u1, F); MulAssoc(2, Pow(10, p), G * u2); }
    assert c * (s2 * A) == s1 * B' by { assert s2 * A == A * s2; }
    CombineLower(s1, s2, 2 * u1, u2, G, F, B', A, h, c);
    MulLe(1, A, 1, F);
    MulStrictly(A * F, m, 2 * c);
    assert A * F == F * A && G * B' == B' * G;
    LastStep(m, c, A * F, B' * G, Pow(10, p));
  }

  lemma LastStep(m: nat, c: nat, x: nat, y: nat, p: nat)
    requires x * m < x * (2 * c) && c * x <= (2 * p) * y
    ensures m * x < y * (4 * p)
  {
    assert x * (2 * c) == 2 * (c * x) by { MulAssoc(2, c, x); }
    assert y * (4 * p) == 2 * ((2 * p) * y) by { MulAssoc(2, 2 * p, y); MulAssoc(2, 2, p); }
    assert x * m == m * x;
  }

  // ----- numbers near a double round to it -----

  /** n / d differs from the double r by less than 2^-54 of r. */
  ghost predicate Close(n: nat, d: nat, r: nat) {
    d > 0 && 0x40_0000_0000_0000 * (n - r * d) < r * d && 0x40_0000_0000_0000 * (r * d - n) < r * d
  }

  /** A ratio that close to a double rounds to it. */
  lemma CloseRounds(n: nat, d: nat, r: nat, m: nat, w: nat)
    requires Close(n, d, r) && r == m * Pow(2, w) && 0 < m < 0x20_0000_0000_0000 && (w > 0 ==> m >= 0x10_0000_0000_0000)
    ensures RoundDouble(n, d) == r
  {
    var p := Pow(2, w);
    assert r * d == m * (d * p) by { MulAssoc(m, p, d); assert p * d == d * p; }
    MulLe(1, d, 1, p);
    if w > 0 && n < d * p * 0x10_0000_0000_0000 {
      CloseBelow(n, d, m, w);
    } else {
      CloseSpare(n, d, m, w);
      CloseOnGrid(n, d * p, m);
    }
  }

  /** On the grid of the double itself. */
  lemma CloseOnGrid(n: nat, g: nat, m: nat)
    requires g > 0 && 0 < m < 0x20_0000_0000_0000
    requires 0x40_0000_0000_0000 * (n - m * g) < m * g && 0x40_0000_0000_0000 * (m * g - n) < m * g
    ensures RoundDiv(n, g, NearestEven) == m
  {
    MulLe(m + 1, 0x20_0000_0000_0000, g, g);
    MulSub(g, m + 1, 1);
    RoundDivUnique(n, g, m);
  }

  /** The binade of the ratio is that of the double. */
  lemma CloseSpare(n: nat, d: nat, m: nat, w: nat)
    requires d > 0 && 0 < m < 0x20_0000_0000_0000 && Close(n, d, m * Pow(2, w))
    requires w > 0 ==> n >= d * Pow(2, w) * 0x10_0000_0000_0000
    ensures Spare(n, d) == w
  {
    hide Pow;
    var p := Pow(2, w);
    TwoTo53();
    PowAdd(2, w, 52);
    PowAdd(2, w, 53);
    var g := d * p;
    assert (m * p) * d == m * g by { MulAssoc(m, p, d); assert p * d == d * p; }
    MulLe(m + 1, 0x20_0000_0000_0000, g, g);
    MulSub(g, m + 1, 1);
    MulLe(1, d, 1, p);
    assert n < g * 0x20_0000_0000_0000;
    var q, r := Divided(n, d);
    SpareOf(n, d, q, p, w);
  }

  lemma SpareOf(n: nat, d: nat, q: nat, p: nat, w: nat)
    requires d > 0 && n / d == q && d * q <= n < d * q + d && p == Pow(2, w)
    requires n < d * p * 0x20_0000_0000_0000 && (w > 0 ==> n >= d * p * 0x10_0000_0000_0000)
    ensures Spare(n, d) == w
  {
    TwoTo53();
    PowAdd(2, w, 52);
    PowAdd(2, w, 53);
    var x, y := p * 0x20_0000_0000_0000, p * 0x10_0000_0000_0000;
    MulAssoc(d, p, 0x20_0000_0000_0000);
    MulAssoc(d, p, 0x10_0000_0000_0000);
    if q >= x {
      MulLe(d, d, x, q);
    }
    if w > 0 {
      QuotientAtLeast(n, d, y);
      BitLengthIs(q, w + 52);
    } else if q > 0 {
      BitLengthBounds(q);
      if BitLength(q) > 53 {
        PowMonotone(2, 53, BitLength(q) - 1);
      }
    }
  }

  /** Just below a power of two, the grid is finer by one bit, and the double is 2^53 steps of it. */
  lemma CloseBelow(n: nat, d: nat, m: nat, w: nat)
    requires d > 0 && w > 0 && 0x10_0000_0000_0000 <= m < 0x20_0000_0000_0000 && Close(n, d, m * Pow(2, w))
    requires n < d * Pow(2, w) * 0x10_0000_0000_0000
    ensures RoundDouble(n, d) == m * Pow(2, w)
  {
    var p := Pow(2, w - 1);
    assert Pow(2, w) == 2 * p;
    var g := d * p;
    assert (m * (2 * p)) * d == (2 * m) * g by { DoubleGrid(m, p, d); }
    assert d * (2 * p) == 2 * g by { MulAssoc(d, 2, p); MulAssoc(2, d, p); assert d * 2 == 2 * d; }
    MulLe(1, d, 1, p);
    hide Pow, RoundDiv;
    BelowFacts(n, g, m);
    var q, r := Divided(n, d);
    SpareOf(n, d, q, p, w - 1);
    RoundDivUnique(n, g, 0x20_0000_0000_0000);
  }

  /** A double whose binade the close number is below is the first of its binade. */
  lemma BelowFacts(n: nat, g: nat, m: nat)
    requires g > 0 && 0x10_0000_0000_0000 <= m < 0x20_0000_0000_0000 && n < 2 * g * 0x10_0000_0000_0000
    requires 0x40_0000_0000_0000 * ((2 * m) * g - n) < (2 * m) * g
    ensures m == 0x10_0000_0000_0000 && n >= g * 0x10_0000_0000_0000
    ensures Near(0x20_0000_0000_0000 * g, n, g) && !Tie(0x20_0000_0000_0000 * g, n, g)
  {
    var x := (2 * m) * g;
    MulLe(0x20_0000_0000_0000, 2 * m, g, g);
    assert m > 0x10_0000_0000_0000 ==> x >= 0x20_0000_0000_0002 * g by {
      if m > 0x10_0000_0000_0000 { MulLe(0x20_0000_0000_0002, 2 * m, g, g); }
    }
    MulLe(2 * m, 0x40_0000_0000_0000, g, g);
  }

  lemma DoubleGrid(m: nat, p: nat, d: nat)
    ensures (m * (2 * p)) * d == (2 * m) * (d * p)
  {
    MulAssoc(m, 2 * p, d);
    MulAssoc(2, p, d);
    MulAssoc(m, 2, p * d);
    assert p * d == d * p && m * 2 == 2 * m;
  }

  // ----- 17 digits are enough -----

  /** y = ny / dy and the double r, against the integer k rounded from n / d: when y / r is k d / n, y is close to r. */
  lemma CloseByRounding(ny: nat, u: nat, k: nat, n: nat, d: nat)
    requires d > 0 && u > 0 && k >= 10000000000000000 && Near(k * d, n, d) && ny * n == u * (k * d)
    ensures 0x40_0000_0000_0000 * (ny - u) < u && 0x40_0000_0000_0000 * (u - ny) < u
  {
    var x := k * d;
    MulLe(10000000000000000, k, d, d);
    assert 2 * n >= 2 * x - d;
    assert 2 * n > 0x40_0000_0000_0000 * d;
    assert 0x40_0000_0000_0000 * (x - n) < n && 0x40_0000_0000_0000 * (n - x) < n;
    // times u, and back by n
    ScaleGap(u, x, n);
    ScaleGap(u, n, x);
    MulSub(n, ny, u);
    MulSub(n, u, ny);
    CancelGap(ny - u, u, n);
    CancelGap(u - ny, u, n);
  }

  lemma ScaleGap(u: nat, x: int, n: int)
    requires u > 0
    ensures u * x - u * n == u * (x - n)
    ensures 0x40_0000_0000_0000 * (x - n) < n ==> 0x40_0000_0000_0000 * (u * (x - n)) < u * n
    ensures 0x40_0000_0000_0000 * (x - n) < x ==> 0x40_0000_0000_0000 * (u * (x - n)) < u * x
  {
    MulAdd(u, x, -n);
    var g := 0x40_0000_0000_0000 * (x - n);
    assert u * g == 0x40_0000_0000_0000 * (u * (x - n));
    if g < n { PositiveProduct(u, n - g); MulAdd(u, n, -g); }
    if g < x { PositiveProduct(u, x - g); MulAdd(u, x, -g); }
  }

  lemma PositiveProduct(u: nat, v: int)
    requires u > 0 && v > 0
    ensures u * v > 0
  {
  }

  lemma CancelGap(g: int, u: nat, n: nat)
    requires n > 0 && 0x40_0000_0000_0000 * (g * n) < u * n
    ensures 0x40_0000_0000_0000 * g < u
  {
    var h := 0x40_0000_0000_0000 * g;
    assert h * n == 0x40_0000_0000_0000 * (g * n);
    if h >= u {
      MulLe(u, h, n, n);
    }
  }

  /** 2^1074 m 2^(e - 53) is the double, up to the powers of two on both sides. */
  lemma UnitsBalance(m: nat, e: int, r: nat)
    requires IsUnits(m, e, r)
    ensures Pow(2, 1074) * (m * Pow(2, Plus(e - 53))) == r * Pow(2, Plus(53 - e))
  {
    if e >= -1021 {
      PowAdd(2, 1074, Plus(e - 53));
      PowAdd(2, e + 1021, Plus(53 - e));
      hide Pow;
      MulRotate(Pow(2, 1074), m, Pow(2, Plus(e - 53)));
      assert Pow(2, 1074) * (m * Pow(2, Plus(e - 53))) == m * (Pow(2, 1074) * Pow(2, Plus(e - 53))) by {
        MulAssoc(m, Pow(2, 1074), Pow(2, Plus(e - 53)));
      }
      MulAssoc(m, Pow(2, e + 1021), Pow(2, Plus(53 - e)));
    } else {
      PowAdd(2, 1074, -1021 - e);
      PowZero();
      hide Pow;
      assert Pow(2, 1074) * (m * 1) == r * (Pow(2, 1074) * Pow(2, -1021 - e)) by {
        MulRotate(Pow(2, 1074), r, Pow(2, -1021 - e));
        MulAssoc(r, Pow(2, 1074), Pow(2, -1021 - e));
      }
    }
  }

  /** The digits k of the number, scaled back, are to the number as k is to the number scaled. */
  lemma CrossScale(m: nat, e: int, r: nat, k: nat, f: int)
    requires IsUnits(m, e, r)
    ensures Numerator(k, 1074, 10, -f) * Numerator(m, e - 53, 10, f)
         == (r * Denominator(1074, 10, -f)) * (k * Denominator(e - 53, 10, f))
  {
    hide Pow, Numerator, Denominator;
    RatioForm(m, e - 53, f);
    RatioForm(k, 1074, -f);
    UnitsBalance(m, e, r);
    PowZero();
    var a, b, c := Pow(2, 1074), Pow(10, Plus(f)), Pow(10, Plus(-f));
    var x, y := Pow(2, Plus(e - 53)), Pow(2, Plus(53 - e));
    assert Plus(-(1074 as int)) == 0 && Plus(-(-f)) == Plus(f) && Plus(-(e - 53)) == Plus(53 - e);
    assert 1 * b == b;
    CrossProducts(k, a, c, m, x, b, r, y);
  }

  lemma CrossProducts(k: nat, a: nat, c: nat, m: nat, x: nat, b: nat, r: nat, y: nat)
    requires a * (m * x) == r * y
    ensures (k * (a * c)) * (m * (x * b)) == (r * b) * (k * (y * c))
  {
    assert k * (a * c) == (k * c) * a by { MulAssoc(k, c, a); assert a * c == c * a; }
    assert m * (x * b) == (m * x) * b by { MulAssoc(m, x, b); }
    assert ((k * c) * a) * ((m * x) * b) == (k * c * b) * (a * (m * x)) by {
      MulSwap(k * c, a, b, m * x);
      assert (m * x) * b == b * (m * x);
    }
    assert (r * b) * (k * (y * c)) == (k * c * b) * (r * y) by {
      assert k * (y * c) == (k * c) * y by { MulAssoc(k, c, y); assert y * c == c * y; }
      MulSwap(k * c, b, y, r);
      MulSwap(k * c, y, b, r);
      assert r * b == b * r && r * y == y * r;
      assert (b * r) * ((k * c) * y) == ((k * c) * y) * (b * r);
    }
  }

  /** Rounding the number to 17 digits and back gives the number. */
  lemma SeventeenDigits(m: nat, e: int, r: nat, k: nat, f: int)
    requires Mantissa(m, e) && IsUnits(m, e, r) && k >= 10000000000000000
    requires k == RoundDiv(Numerator(m, e - 53, 10, f), Denominator(e - 53, 10, f), NearestEven)
    ensures NearestUnits(k, 10, -f) == r
  {
    hide RoundDiv, Numerator, Denominator, RoundDouble, IsUnits;
    var n, d := Numerator(m, e - 53, 10, f), Denominator(e - 53, 10, f);
    var ny, dy := Numerator(k, 1074, 10, -f), Denominator(1074, 10, -f);
    RoundDivNear(n, d, NearestEven);
    CrossScale(m, e, r, k, f);
    UnitsPositive(m, e, r);
    MulLe(1, r, 1, dy);
    CloseByRounding(ny, r * dy, k, n, d);
    var m', w := DoubleForm(m, e, r);
    CloseRounds(ny, dy, r, m', w);
  }

  lemma UnitsPositive(m: nat, e: int, r: nat)
    requires m > 0 && IsUnits(m, e, r)
    ensures r > 0
  {
    if e >= -1021 {
      MulLe(1, m, 1, Pow(2, e + 1021));
    }
  }

  /** The mantissa of the double on its grid. */
  lemma DoubleForm(m: nat, e: int, r: nat) returns (m': nat, w: nat)
    requires Mantissa(m, e) && IsUnits(m, e, r)
    ensures r == m' * Pow(2, w) && 0 < m' < 0x20_0000_0000_0000 && (w > 0 ==> m' >= 0x10_0000_0000_0000)
    ensures w > 0 ==> m' == m && w == e + 1021
  {
    UnitsPositive(m, e, r);
    if e >= -1021 {
      m', w := m, e + 1021;
    } else {
      m', w := r, 0;
      assert Pow(2, -1021 - e) >= 1;
      hide Pow;
      MulLe(r, r, 1, Pow(2, -1021 - e));
      PowZero();
    }
  }

  // ----- the candidates -----

  /** k is the number rounded to p significant digits, with the exponent E: 0.ddd * 10^E; a smaller exponent is too small. */
  ghost predicate RoundedTo(m: nat, e: int, p: nat, E: int, k: nat) {
    && p >= 1 && Pow(10, p - 1) <= k < Pow(10, p)
    && k == RoundDiv(Numerator(m, e - 53, 10, p - E), Denominator(e - 53, 10, p - E), NearestEven)
    && RoundDiv(Numerator(m, e - 53, 10, p - E + 1), Denominator(e - 53, 10, p - E + 1), NearestEven) >= Pow(10, p)
  }

  /** The estimate is not above the exponent: with one less, the digits would be too many. */
  lemma EstimateNotAbove(m: nat, e: int, p: nat, E: int)
    requires Mantissa(m, e) && p >= 1 && E == 1 + MulLog2Radix10(e - 1)
    ensures RoundDiv(Numerator(m, e - 53, 10, p - E + 1), Denominator(e - 53, 10, p - E + 1), NearestEven) >= Pow(10, p)
  {
    hide RoundDiv, Pow, Numerator, Denominator, MulLog2Radix10;
    var f := p - E;
    ScaledNumber(m, e, p);
    TenTimes(p);
    TenthRatio(m, e - 53, f + 1);
    TenTimesMore(Numerator(m, e - 53, 10, f), Denominator(e - 53, 10, f), Numerator(m, e - 53, 10, f + 1),
                 Denominator(e - 53, 10, f + 1), Pow(10, p - 1));
    RoundAtLeast(Numerator(m, e - 53, 10, f + 1), Denominator(e - 53, 10, f + 1), Pow(10, p));
  }

  lemma TenTimesMore(n: nat, d: nat, n': nat, d': nat, t: nat)
    requires d > 0 && d * t <= n && n * (10 * d') == n' * d
    ensures d' * (10 * t) <= n'
  {
    MulLe(d * t, n, 10 * d', 10 * d');
    assert (d * t) * (10 * d') == d * (d' * (10 * t)) by {
      MulAssoc(d, t, 10 * d');
      MulRotate(t, 10, d');
      MulAssoc(t, 10, d');
      assert t * 10 == 10 * t && (10 * t) * d' == d' * (10 * t);
    }
    MulCompare(d, n', d' * (10 * t));
    assert n' * d == d * n';
  }

  /** Without a zero at its end, the rounded number is the number rounded to one digit less. */
  lemma TrimmedRounded(m: nat, e: int, p: nat, E: int, c: nat)
    requires p > 1 && RoundedTo(m, e, p, E, 10 * c)
    ensures RoundedTo(m, e, p - 1, E, c)
  {
    hide RoundDiv, Numerator, Denominator;
    var f := p - E;
    var n, d := Numerator(m, e - 53, 10, f), Denominator(e - 53, 10, f);
    TenthRatio(m, e - 53, f);
    RoundDivSameRatio(Numerator(m, e - 53, 10, f - 1), Denominator(e - 53, 10, f - 1), n, 10 * d, NearestEven);
    RoundDivNear(n, d, NearestEven);
    assert (10 * c) * d == c * (10 * d) by { MulAssoc(10, c, d); MulAssoc(c, 10, d); assert 10 * c == c * 10; }
    RoundDivUnique(n, 10 * d, c);
    TenTimes(p);
    TenTimes(p - 1);
  }

  lemma FirstEstimate(m: nat, e: int, p: nat, E: int, k: nat)
    requires Mantissa(m, e) && 1 <= p <= 17 && E == 1 + MulLog2Radix10(e - 1)
    requires k == RoundDiv(Numerator(m, e - 53, 10, p - E), Denominator(e - 53, 10, p - E), NearestEven)
    ensures Pow(10, p - 1) <= k <= 4 * Pow(10, p) && k < 0x1_0000_0000_0000_0000
  {
    hide RoundDiv, Pow, Numerator, Denominator, MulLog2Radix10;
    var n, d := Numerator(m, e - 53, 10, p - E), Denominator(e - 53, 10, p - E);
    ScaledNumber(m, e, p);
    SmallTens(p);
    RoundAtLeast(n, d, Pow(10, p - 1));
    RoundAtMost(n, d, 4 * Pow(10, p));
  }

  lemma SmallTens(p: nat)
    requires p <= 17
    ensures 4 * Pow(10, p) < 0x1_0000_0000_0000_0000
  {
    PowMonotone(10, p, 17);
    PowAdd(10, 9, 8);
    assert Pow(10, 9) == 1000000000 && Pow(10, 8) == 100000000;
  }

  /** One more in the exponent divides by 10 what is rounded. */
  lemma NextEstimate(m: nat, e: int, f: int, c: nat, k: nat, k': nat)
    requires k == RoundDiv(Numerator(m, e, 10, f), Denominator(e, 10, f), NearestEven) && k >= 10 * c && c >= 1
    requires k' == RoundDiv(Numerator(m, e, 10, f - 1), Denominator(e, 10, f - 1), NearestEven)
    ensures c <= k' < k && 10 * k' <= k + 5
  {
    hide RoundDiv, Numerator, Denominator;
    var n, d := Numerator(m, e, 10, f), Denominator(e, 10, f);
    TenthRatio(m, e, f);
    RoundDivSameRatio(Numerator(m, e, 10, f - 1), Denominator(e, 10, f - 1), n, 10 * d, NearestEven);
    TenthRounds(n, d, c, k);
  }

  lemma TenthRatio(m: nat, e: int, f: int)
    ensures Numerator(m, e, 10, f - 1) * (10 * Denominator(e, 10, f)) == Numerator(m, e, 10, f) * Denominator(e, 10, f - 1)
  {
    RatioForm(m, e, f);
    RatioForm(m, e, f - 1);
    var a, b := Pow(2, Plus(e)), Pow(2, Plus(-e));
    var g, h := Pow(10, Plus(f)), Pow(10, Plus(-f));
    var g', h' := Pow(10, Plus(f - 1)), Pow(10, Plus(-(f - 1)));
    assert g' * (10 * h) == g * h' by {
      if f >= 1 {
        assert g == 10 * g' && h == 1 && h' == 1;
      } else {
        assert h' == 10 * h && g == 1 && g' == 1;
      }
    }
    hide Pow, Numerator, Denominator;
    TenthProducts(m, a, b, g, h, g', h');
  }

  lemma TenthProducts(m: nat, a: nat, b: nat, g: nat, h: nat, g': nat, h': nat)
    requires g' * (10 * h) == g * h'
    ensures (m * (a * g')) * (10 * (b * h)) == (m * (a * g)) * (b * h')
  {
    assert m * (a * g') == (m * a) * g' && m * (a * g) == (m * a) * g by { MulAssoc(m, a, g'); MulAssoc(m, a, g); }
    assert 10 * (b * h) == b * (10 * h) by { MulAssoc(10, b, h); MulAssoc(b, 10, h); }
    MulSwap(m * a, g', b, 10 * h);
    MulSwap(m * a, g, b, h');
  }

  lemma TenthRounds(n: nat, d: nat, c: nat, k: nat)
    requires d > 0 && k == RoundDiv(n, d, NearestEven) && k >= 10 * c && c >= 1
    ensures c <= RoundDiv(n, 10 * d, NearestEven) < k && 10 * RoundDiv(n, 10 * d, NearestEven) <= k + 5
  {
    hide RoundDiv;
    RoundDivNear(n, d, NearestEven);
    RoundDivNear(n, 10 * d, NearestEven);
    var j := RoundDiv(n, 10 * d, NearestEven);
    TenthNear(n, d, k, j);
  }

  lemma TenthNear(n: nat, d: nat, k: nat, j: nat)
    requires d > 0 && Near(k * d, n, d) && Near(j * (10 * d), n, 10 * d)
    ensures 10 * j <= k + 5 && k <= 10 * j + 5
  {
    var x, y := j * d, k * d;
    assert j * (10 * d) == 10 * x by { MulAssoc(j, 10, d); MulAssoc(10, j, d); assert j * 10 == 10 * j; }
    assert (10 * j) * d == 10 * x by { MulAssoc(10, j, d); }
    AtMostFive(d, 10 * j, k, 10 * x, y);
    AtMostFive(d, k, 10 * j, y, 10 * x);
  }

  lemma AtMostFive(d: nat, a: nat, b: nat, x: int, y: int)
    requires d > 0 && x == a * d && y == b * d && x - y < 6 * d
    ensures a <= b + 5
  {
    MulCompare(d, a, b + 6);
    MulAdd(d, b, 6);
    assert d * a == x && d * b == y;
  }

  /** One candidate of the search: p digits, with the exponent raised while they do not fit. */
  method Candidate(tmp1: Mpb, m: DLimb, e: int, p: nat, E0: int) returns (mant: DLimb, E: int)
    requires Mantissa(m, e) && 1 <= p <= 17 && E0 == 1 + MulLog2Radix10(e - 1)
    modifies tmp1
    ensures RoundedTo(m, e, p, E, mant) && E0 <= E <= E0 + 1
  {
    hide RoundDiv, Numerator, Denominator, MulLog2Radix10, Join, Pow;
    var mantMax1 := PowTen(p);
    E := E0;
    RadixTen();
    EstimateNotAbove(m, e, p, E);
    MulPowRound(tmp1, m, e - 53, 10, 5, 1, p - E, NearestEven);
    FirstEstimate(m, e, p, E, Val(tmp1.tab));
    mant := tmp1.GetU64();
    TenTimes(p);
    while mant >= mantMax1
      invariant mant == RoundDiv(Numerator(m, e - 53, 10, p - E), Denominator(e - 53, 10, p - E), NearestEven)
      invariant RoundDiv(Numerator(m, e - 53, 10, p - E + 1), Denominator(e - 53, 10, p - E + 1), NearestEven) >= Pow(10, p)
      invariant Pow(10, p - 1) <= mant <= 4 * Pow(10, p) && mant < 0x1_0000_0000_0000_0000
      invariant E == E0 || (E == E0 + 1 && mant < Pow(10, p))
      decreases mant
    {
      E := E + 1;
      ghost var before := mant;
      MulPowRound(tmp1, m, e - 53, 10, 5, 1, p - E, NearestEven);
      NextEstimate(m, e - 53, p - E + 1, Pow(10, p - 1), before, Val(tmp1.tab));
      mant := tmp1.GetU64();
    }
  }

  lemma RadixTen()
    ensures RadixParts(10, 5, 1)
  {
  }

  lemma TenTimes(p: nat)
    requires p >= 1
    ensures Pow(10, p) == 10 * Pow(10, p - 1) && Pow(10, p - 1) >= 1
  {
  }

  method PowTen(p: nat) returns (r: DLimb)
    requires p <= 17
    ensures r == Pow(10, p)
  {
    SmallTens(p);
    r := PowUi(10, p);
  }

  /** The digits (mant, p, E) stand for the double r: read back, they give r again. */
  ghost predicate Represents(r: nat, mant: nat, p: nat, E: int) {
    1 <= p <= 17 && Pow(10, p - 1) <= mant < Pow(10, p) && NearestUnits(mant, 10, E - p) == r
  }

  /** Removing trailing zeros from the digits. */
  method TrimZeros(mant0: DLimb, p0: nat, ghost E: int, ghost m: nat, ghost e: int) returns (mant: DLimb, p: nat)
    requires 1 <= p0 <= 17 && Pow(10, p0 - 1) <= mant0 < Pow(10, p0) && RoundedTo(m, e, p0, E, mant0)
    ensures RoundedTo(m, e, p, E, mant)
    ensures 1 <= p <= p0 && Pow(10, p - 1) <= mant < Pow(10, p) && mant % 10 != 0
    ensures NearestUnits(mant, 10, E - p) == NearestUnits(mant0, 10, E - p0)
    ensures AllLongEnough(m, e, NearestUnits(mant0, 10, E - p0), p, p0)
  {
    hide NearestUnits, Pow, RoundedTo;
    mant, p := mant0, p0;
    while mant % 10 == 0
      invariant RoundedTo(m, e, p, E, mant)
      invariant 1 <= p <= p0 && Pow(10, p - 1) <= mant < Pow(10, p)
      invariant NearestUnits(mant, 10, E - p) == NearestUnits(mant0, 10, E - p0)
      invariant AllLongEnough(m, e, NearestUnits(mant0, 10, E - p0), p, p0)
      decreases mant
    {
      TrimRoom(mant, p);
      TrimOne(mant / 10, E - p);
      TrimmedRounded(m, e, p, E, mant / 10);
      mant := mant / 10;
      p := p - 1;
    }
  }

  lemma TrimOne(k: nat, f: int)
    ensures NearestUnits(10 * k, 10, f) == NearestUnits(k, 10, f + 1)
  {
    hide RoundDouble, Numerator, Denominator;
    TenthRatio(k, 1074, f + 1);
    RatioForm(k, 1074, f);
    RatioForm(10 * k, 1074, f);
    var n, d := Numerator(k, 1074, 10, f), Denominator(1074, 10, f);
    assert Numerator(10 * k, 1074, 10, f) == 10 * n by {
      MulAssoc(10, k, Pow(2, Plus(1074)) * Pow(10, Plus(f)));
    }
    var n', d' := Numerator(k, 1074, 10, f + 1), Denominator(1074, 10, f + 1);
    assert n * (10 * d') == n' * d;
    assert (10 * n) * d' == n * (10 * d') by { MulAssoc(10, n, d'); MulRotate(10, n, d'); MulAssoc(n, 10, d'); }
    SameDouble(10 * n, d, n', d');
  }

  /** Two mantissas that stand for units at the same exponent are the same when the units are. */
  lemma UnitsInjective(m: nat, e: int, r: nat, r': nat)
    requires IsUnits(m, e, r) && IsUnits(m, e, r')
    ensures r == r'
  {
    if e < -1021 {
      MulCompare(Pow(2, -1021 - e), r, r');
      assert r * Pow(2, -1021 - e) == Pow(2, -1021 - e) * r && r' * Pow(2, -1021 - e) == Pow(2, -1021 - e) * r';
    }
  }

  /** The number rounded to p digits reads back as r. */
  ghost predicate LongEnough(m: nat, e: int, r: nat, p: nat) {
    exists E: int, k: nat :: RoundedTo(m, e, p, E, k) && NearestUnits(k, 10, E - p) == r
  }

  /** The number rounded to any number of digits from p to p' reads back as r. */
  ghost predicate AllLongEnough(m: nat, e: int, r: nat, p: nat, p': nat) {
    forall q | p <= q <= p' :: LongEnough(m, e, r, q)
  }

  /** The number rounded to p digits does not read back as r. */
  ghost predicate TooShort(m: nat, e: int, r: nat, p: nat) {
    exists E: int, k: nat :: RoundedTo(m, e, p, E, k) && NearestUnits(k, 10, E - p) != r
  }

  /** Reading a candidate back: whether it rounds to the number. */
  method ReadsBack(tmp1: Mpb, mant: DLimb, p: nat, E: int, m: DLimb, e: int, ghost r: nat) returns (same: bool)
    requires mant > 0 && Mantissa(m, e) && IsUnits(m, e, r)
    modifies tmp1
    ensures same ==> NearestUnits(mant, 10, E - p) == r
    ensures !same ==> NearestUnits(mant, 10, E - p) != r
  {
    hide Pow, NearestUnits;
    tmp1.SetU64(mant);
    RadixTen();
    TwoTo53();
    var m1, e1 := MulPowRoundToD(tmp1, 10, 5, 1, E - p);
    same := m1 == m && e1 == e;
    ghost var r1 := NearestUnits(mant, 10, E - p);
    if same {
      UnitsInjective(m, e, r, r1);
    } else if r1 == r {
      UnitsPositive(m, e, r);
      UnitsForm(m, e, m1, e1, r);
    }
  }

  /** 53-bit mantissas stand for a number in one way only. */
  lemma UnitsForm(m: nat, e: int, m': nat, e': int, r: nat)
    requires IsUnits(m, e, r) && IsUnits(m', e', r) && r > 0 && 0x10_0000_0000_0000 <= m < 0x20_0000_0000_0000
    requires m' == 0 || 0x10_0000_0000_0000 <= m' < 0x20_0000_0000_0000
    ensures m == m' && e == e'
  {
    var k: nat := Plus(-1021 - e) + Plus(-1021 - e');
    UnitsLifted(m, e, r, k);
    UnitsLifted(m', e', r, k);
    MulLe(1, r, 1, Pow(2, k));
    ExponentForm(m, m', e + 1021 + k, e' + 1021 + k);
  }

  lemma ExponentForm(m: nat, m': nat, a: nat, b: nat)
    requires m * Pow(2, a) == m' * Pow(2, b) && 0x10_0000_0000_0000 <= m < 0x20_0000_0000_0000
    requires m' == 0 || 0x10_0000_0000_0000 <= m' < 0x20_0000_0000_0000
    ensures m == m' && a == b
  {
    if a < b {
      PowerGap(a, b);
      SameBinade(m', m, Pow(2, b - a), Pow(2, a));
    } else {
      PowerGap(b, a);
      SameBinade(m, m', Pow(2, a - b), Pow(2, b));
    }
  }

  lemma PowerGap(b: nat, a: nat)
    requires b <= a
    ensures Pow(2, a) == Pow(2, a - b) * Pow(2, b) && Pow(2, b) > 0 && (if a > b then Pow(2, a - b) >= 2 else Pow(2, a - b) == 1)
  {
    PowAdd(2, a - b, b);
  }

  /** x * y and y are the powers of two on both sides. */
  lemma SameBinade(m: nat, m': nat, x: nat, y: nat)
    requires y > 0 && x > 0 && m * (x * y) == m' * y
    ensures m' == m * x && (x >= 2 ==> m' >= 2 * m) && (m > 0 ==> m' > 0)
  {
    MulAssoc(m, x, y);
    MulCompare(y, m * x, m');
    assert (m * x) * y == y * (m * x) && m' * y == y * m';
    MulLe(m, m, 1, x);
    if x >= 2 {
      MulLe(m, m, 2, x);
    }
  }

  lemma UnitsLifted(m: nat, e: int, r: nat, k: nat)
    requires IsUnits(m, e, r) && e + 1021 + k >= 0
    ensures m * Pow(2, e + 1021 + k) == r * Pow(2, k)
  {
    if e >= -1021 {
      PowAdd(2, e + 1021, k);
      hide Pow;
      MulAssoc(m, Pow(2, e + 1021), Pow(2, k));
    } else {
      PowAdd(2, -1021 - e, e + 1021 + k);
      hide Pow;
      MulAssoc(r, Pow(2, -1021 - e), Pow(2, e + 1021 + k));
    }
  }

  /**
   The free-format search: the number rounded to pFound digits, or to more of them, reads back as it, while rounded to
   one digit less it does not.
   */
  method FreeDigits(tmp1: Mpb, m: DLimb, e: int, ghost r: nat) returns (mantFound: DLimb, pFound: nat, eFound: int)
    requires Mantissa(m, e) && IsUnits(m, e, r)
    modifies tmp1
    ensures Represents(r, mantFound, pFound, eFound) && mantFound % 10 != 0 && -400 < eFound < 400
    ensures RoundedTo(m, e, pFound, eFound, mantFound)
    ensures AllLongEnough(m, e, r, pFound, 17)
    ensures pFound > 1 ==> TooShort(m, e, r, pFound - 1)
  {
    hide Pow, NearestUnits, RoundedTo, MulLog2Radix10, IsUnits;
    var E0 := 1 + MulLog2Radix10(e - 1);
    EstimateRange(e);
    eFound, pFound, mantFound := 0, 0, 0;
    var p := 17;
    while true
      invariant 1 <= p <= 17 && (pFound == 0 ==> p == 17) && -400 < eFound < 400
      invariant pFound != 0 ==> Represents(r, mantFound, pFound, eFound) && mantFound % 10 != 0 && p == pFound - 1
      invariant pFound != 0 ==> RoundedTo(m, e, pFound, eFound, mantFound)
      invariant pFound != 0 ==> AllLongEnough(m, e, r, pFound, 17)
      decreases p
    {
      var mant0, E := Candidate(tmp1, m, e, p, E0);
      ghost var k, p0 := mant0, p;
      CandidateFacts(m, e, p, E, k);
      var mant;
      mant, p := TrimZeros(mant0, p, E, m, e);
      if pFound == 0 {
        FirstCandidate(m, e, r, k, E);
      } else {
        TenTimes(p);
        var same := ReadsBack(tmp1, mant, p, E, m, e, r);
        if !same {
          assert RoundedTo(m, e, p0, E, k) && NearestUnits(k, 10, E - p0) != r;
          break;
        }
      }
      pFound, eFound, mantFound := p, E, mant;
      if p == 1 {
        break;
      }
      p := p - 1;
    }
  }

  /** A number ending in 0 has more than one digit. */
  lemma TrimRoom(mant: nat, p: nat)
    requires p >= 1 && Pow(10, p - 1) <= mant < Pow(10, p) && mant % 10 == 0
    ensures p > 1 && Pow(10, p - 2) <= mant / 10 < Pow(10, p - 1)
  {
    assert Pow(10, p) == 10 * Pow(10, p - 1);
    assert p > 1 ==> Pow(10, p - 1) == 10 * Pow(10, p - 2);
  }

  lemma EstimateRange(e: int)
    requires -1073 <= e <= 1024
    ensures -399 < 1 + MulLog2Radix10(e - 1) < 399
  {
  }

  lemma CandidateFacts(m: nat, e: int, p: nat, E: int, k: nat)
    requires RoundedTo(m, e, p, E, k)
    ensures Pow(10, p - 1) <= k < Pow(10, p)
  {
  }

  lemma FirstCandidate(m: nat, e: int, r: nat, k: nat, E: int)
    requires Mantissa(m, e) && IsUnits(m, e, r) && RoundedTo(m, e, 17, E, k)
    ensures NearestUnits(k, 10, E - 17) == r
  {
    PowAdd(10, 8, 8);
    assert Pow(10, 8) == 100000000;
    SeventeenDigits(m, e, r, k, 17 - E);
  }
}

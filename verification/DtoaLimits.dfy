/**
 The exponents beyond which a numeral overflows or vanishes, and why they are right for each radix.
 */
module RadixLimits {
  import opened Powers
  import opened RadixTables
  import opened DigitSearch

  /** From radix^MAX_EXPONENT on, a number overflows. */
  const MAX_EXPONENT: seq<int> :=
    [1024, 647, 512, 442, 397, 365, 342, 324, 309, 297, 286, 277, 269, 263, 256, 251, 246, 242, 237, 234, 230, 227, 224,
     221, 218, 216, 214, 211, 209, 207, 205, 203, 202, 200, 199]

  /** Up to radix^MIN_EXPONENT, a number vanishes. */
  const MIN_EXPONENT: seq<int> :=
    [-1075, -679, -538, -463, -416, -383, -359, -340, -324, -311, -300, -291, -283, -276, -269, -263, -258, -254, -249,
     -245, -242, -238, -235, -232, -229, -227, -224, -222, -220, -217, -215, -214, -212, -210, -208]

  predicate IsPowerOfTwo(radix: nat) {
    radix in {2, 4, 8, 16, 32}
  }

  /** The limits of a radix are at or beyond 2^1024 and 2^-1075. */
  ghost predicate LimitsFit(radix: nat)
    requires 2 <= radix <= 36
  {
    && MIN_EXPONENT[radix - 2] < 0 < MAX_EXPONENT[radix - 2]
    && NotAbove(2, 1024, radix, MAX_EXPONENT[radix - 2]) && NotAbove(2, 1075, radix, -MIN_EXPONENT[radix - 2])
  }

  /** For each radix, exponents a and b such that 2^b is just below radix^a. */
  const RATIO_A: seq<nat> :=
    [0, 12, 0, 87, 53, 57, 0, 6, 22, 24, 12, 10, 57, 10, 0, 263, 6, 17, 28, 18, 11, 23, 12, 11, 10, 4, 5, 7, 10, 87,
     0, 203, 12, 8, 53]

  const RATIO_B: seq<nat> :=
    [0, 19, 0, 202, 137, 160, 0, 19, 73, 83, 43, 37, 217, 39, 0, 1075, 25, 72, 121, 79, 49, 104, 55, 51, 47, 19, 24,
     34, 49, 431, 0, 1024, 61, 41, 274]

  lemma LimitsTable(radix: nat)
    requires 3 <= radix <= 36 && !IsPowerOfTwo(radix)
    ensures LimitsFit(radix)
  {
    hide NotAbove, Pow;
    var a, b := RATIO_A[radix - 2], RATIO_B[radix - 2];
    RatioTable(radix);
    RatiosSuffice(radix);
    PowRatio(2, b, radix, a, 1024, MAX_EXPONENT[radix - 2]);
    PowRatio(2, b, radix, a, 1075, -MIN_EXPONENT[radix - 2]);
  }

  lemma RatiosSuffice(radix: nat)
    requires 3 <= radix <= 36 && !IsPowerOfTwo(radix)
    ensures RATIO_A[radix - 2] * 1024 <= RATIO_B[radix - 2] * MAX_EXPONENT[radix - 2]
    ensures RATIO_A[radix - 2] * 1075 <= RATIO_B[radix - 2] * -MIN_EXPONENT[radix - 2]
    ensures RATIO_B[radix - 2] > 0 && MIN_EXPONENT[radix - 2] < 0 < MAX_EXPONENT[radix - 2]
  {
    if radix <= 12 {
      RatiosSuffice1(radix);
    } else if radix <= 20 {
      RatiosSuffice2(radix);
    } else if radix <= 28 {
      RatiosSuffice3(radix);
    } else {
      RatiosSuffice4(radix);
    }
  }

  lemma RatiosSuffice1(radix: nat)
    requires 3 <= radix <= 12 && !IsPowerOfTwo(radix)
    ensures RATIO_A[radix - 2] * 1024 <= RATIO_B[radix - 2] * MAX_EXPONENT[radix - 2]
    ensures RATIO_A[radix - 2] * 1075 <= RATIO_B[radix - 2] * -MIN_EXPONENT[radix - 2]
    ensures RATIO_B[radix - 2] > 0 && MIN_EXPONENT[radix - 2] < 0 < MAX_EXPONENT[radix - 2]
  {
  }

  lemma RatiosSuffice2(radix: nat)
    requires 13 <= radix <= 20 && !IsPowerOfTwo(radix)
    ensures RATIO_A[radix - 2] * 1024 <= RATIO_B[radix - 2] * MAX_EXPONENT[radix - 2]
    ensures RATIO_A[radix - 2] * 1075 <= RATIO_B[radix - 2] * -MIN_EXPONENT[radix - 2]
    ensures RATIO_B[radix - 2] > 0 && MIN_EXPONENT[radix - 2] < 0 < MAX_EXPONENT[radix - 2]
  {
  }

  lemma RatiosSuffice3(radix: nat)
    requires 21 <= radix <= 28 && !IsPowerOfTwo(radix)
    ensures RATIO_A[radix - 2] * 1024 <= RATIO_B[radix - 2] * MAX_EXPONENT[radix - 2]
    ensures RATIO_A[radix - 2] * 1075 <= RATIO_B[radix - 2] * -MIN_EXPONENT[radix - 2]
    ensures RATIO_B[radix - 2] > 0 && MIN_EXPONENT[radix - 2] < 0 < MAX_EXPONENT[radix - 2]
  {
  }

  lemma RatiosSuffice4(radix: nat)
    requires 29 <= radix <= 36 && !IsPowerOfTwo(radix)
    ensures RATIO_A[radix - 2] * 1024 <= RATIO_B[radix - 2] * MAX_EXPONENT[radix - 2]
    ensures RATIO_A[radix - 2] * 1075 <= RATIO_B[radix - 2] * -MIN_EXPONENT[radix - 2]
    ensures RATIO_B[radix - 2] > 0 && MIN_EXPONENT[radix - 2] < 0 < MAX_EXPONENT[radix - 2]
  {
  }

  /** m * 2^e is a lower bound of x^n. */
  predicate AtLeast(x: nat, n: nat, m: nat, e: nat) {
    m * Pow(2, e) <= Pow(x, n)
  }

  /** From a lower bound of x^n to one of x^(2 n) or x^(2 n + 1), with the mantissa cut by k bits. */
  lemma Step(x: nat, n: nat, m: nat, e: nat, n': nat, m': nat, k: nat)
    requires AtLeast(x, n, m, e) && k <= 32 && (n' == 2 * n || n' == 2 * n + 1)
    requires m' * POW2[k] <= m * m * if n' == 2 * n then 1 else x
    ensures AtLeast(x, n', m', 2 * e + k)
  {
    Pow2Table(k);
    PowAdd(x, n, n);
    PowAdd(x, n + n, 1);
    assert Pow(x, 1) == x;
    PowAdd(2, e, e);
    PowAdd(2, e + e, k);
    hide Pow;
    StepProduct(m, Pow(2, e), Pow(x, n), if n' == 2 * n then 1 else x, m', POW2[k]);
    assert n' == 2 * n ==> Pow(x, n) * Pow(x, n) * 1 == Pow(x, n');
  }

  lemma StepProduct(m: nat, p: nat, y: nat, c: nat, m': nat, g: nat)
    requires m * p <= y && m' * g <= m * m * c
    ensures m' * (p * p * g) <= y * y * c
  {
    MulLe(m * p, y, m * p, y);
    MulSwap(m, p, m, p);
    MulLe((m * m) * (p * p), y * y, c, c);
    MulLe(m' * g, m * m * c, p * p, p * p);
    assert ((m * m) * (p * p)) * c == ((m * m) * c) * (p * p) by { MulAssoc(m * m, p * p, c); MulAssoc(m * m, c, p * p); }
    assert m' * (p * p * g) == (m' * g) * (p * p) by { MulAssoc(m', g, p * p); assert p * p * g == g * (p * p); }
  }

  lemma Reach(x: nat, n: nat, m: nat, e: nat, b: nat)
    requires AtLeast(x, n, m, e) && e <= b <= e + 32 && POW2[b - e] <= m
    ensures NotAbove(2, b, x, n)
  {
    hide Pow;
    PowAdd(2, e, b - e);
    Pow2Table(b - e);
    var g := Pow(2, e);
    MulLe(POW2[b - e], m, g, g);
    assert g * POW2[b - e] == POW2[b - e] * g;
  }

  lemma Start(x: nat)
    ensures AtLeast(x, 1, x, 0)
  {
  }

  lemma RatioTable(radix: nat)
    requires 3 <= radix <= 36 && !IsPowerOfTwo(radix)
    ensures NotAbove(2, RATIO_B[radix - 2], radix, RATIO_A[radix - 2])
  {
    hide NotAbove;
    if radix <= 5 {
      RatioTable1(radix);
    } else if radix <= 7 {
      RatioTable2(radix);
    } else if radix <= 11 {
      RatioTable3(radix);
    } else if radix <= 14 {
      RatioTable4(radix);
    } else if radix <= 17 {
      RatioTable5(radix);
    } else if radix <= 20 {
      RatioTable6(radix);
    } else if radix <= 23 {
      RatioTable7(radix);
    } else if radix <= 26 {
      RatioTable8(radix);
    } else if radix <= 30 {
      RatioTable9(radix);
    } else if radix <= 33 {
      RatioTable10(radix);
    } else {
      RatioTable11(radix);
    }
  }

  lemma RatioTable1(radix: nat)
    requires 3 <= radix <= 5 && !IsPowerOfTwo(radix)
    ensures NotAbove(2, RATIO_B[radix - 2], radix, RATIO_A[radix - 2])
  {
    hide NotAbove, AtLeast;
    Start(radix);
    match radix
    case 3 =>
      Step(3, 1, 3, 0, 3, 27, 0);
      Step(3, 3, 27, 0, 6, 182, 2);
      Step(3, 6, 182, 2, 12, 129, 8);
      Reach(3, 12, 129, 12, 19);
    case _ =>
      Step(5, 1, 5, 0, 2, 25, 0);
      Step(5, 2, 25, 0, 5, 3125, 0);
      Step(5, 5, 3125, 0, 10, 2384, 12);
      Step(5, 10, 2384, 12, 21, 3468, 13);
      Step(5, 21, 3468, 37, 43, 3670, 14);
      Step(5, 43, 3670, 88, 87, 2055, 15);
      Reach(5, 87, 2055, 191, 202);
  }

  lemma RatioTable2(radix: nat)
    requires 6 <= radix <= 7 && !IsPowerOfTwo(radix)
    ensures NotAbove(2, RATIO_B[radix - 2], radix, RATIO_A[radix - 2])
  {
    hide NotAbove, AtLeast;
    Start(radix);
    match radix
    case 6 =>
      Step(6, 1, 6, 0, 3, 216, 0);
      Step(6, 3, 216, 0, 6, 2916, 4);
      Step(6, 6, 2916, 4, 13, 3113, 14);
      Step(6, 13, 3113, 22, 26, 2365, 12);
      Step(6, 26, 2365, 56, 53, 2048, 14);
      Reach(6, 53, 2048, 126, 137);
    case _ =>
      Step(7, 1, 7, 0, 3, 343, 0);
      Step(7, 3, 343, 0, 7, 804, 10);
      Step(7, 7, 804, 10, 14, 631, 10);
      Step(7, 14, 631, 30, 28, 777, 9);
      Step(7, 28, 777, 69, 57, 515, 13);
      Reach(7, 57, 515, 151, 160);
  }

  lemma RatioTable3(radix: nat)
    requires 9 <= radix <= 11 && !IsPowerOfTwo(radix)
    ensures NotAbove(2, RATIO_B[radix - 2], radix, RATIO_A[radix - 2])
  {
    hide NotAbove, AtLeast;
    Start(radix);
    match radix
    case 9 =>
      Step(9, 1, 9, 0, 3, 182, 2);
      Step(9, 3, 182, 2, 6, 129, 8);
      Reach(9, 6, 129, 12, 19);
    case 10 =>
      Step(10, 1, 10, 0, 2, 100, 0);
      Step(10, 2, 100, 0, 5, 195, 9);
      Step(10, 5, 195, 9, 11, 185, 11);
      Step(10, 11, 185, 29, 22, 133, 8);
      Reach(10, 22, 133, 66, 73);
    case _ =>
      Step(11, 1, 11, 0, 3, 665, 1);
      Step(11, 3, 665, 1, 6, 863, 9);
      Step(11, 6, 863, 11, 12, 727, 10);
      Step(11, 12, 727, 32, 24, 516, 10);
      Reach(11, 24, 516, 74, 83);
  }

  lemma RatioTable4(radix: nat)
    requires 12 <= radix <= 14 && !IsPowerOfTwo(radix)
    ensures NotAbove(2, RATIO_B[radix - 2], radix, RATIO_A[radix - 2])
  {
    hide NotAbove, AtLeast;
    Start(radix);
    match radix
    case 12 =>
      Step(12, 1, 12, 0, 3, 216, 3);
      Step(12, 3, 216, 3, 6, 182, 8);
      Step(12, 6, 182, 14, 12, 129, 8);
      Reach(12, 12, 129, 36, 43);
    case 13 =>
      Step(13, 1, 13, 0, 2, 169, 0);
      Step(13, 2, 169, 0, 5, 725, 9);
      Step(13, 5, 725, 9, 10, 513, 10);
      Reach(13, 10, 513, 28, 37);
    case _ =>
      Step(14, 1, 14, 0, 3, 686, 2);
      Step(14, 3, 686, 2, 7, 804, 13);
      Step(14, 7, 804, 17, 14, 631, 10);
      Step(14, 14, 631, 44, 28, 777, 9);
      Step(14, 28, 777, 97, 57, 515, 14);
      Reach(14, 57, 515, 208, 217);
  }

  lemma RatioTable5(radix: nat)
    requires 15 <= radix <= 17 && !IsPowerOfTwo(radix)
    ensures NotAbove(2, RATIO_B[radix - 2], radix, RATIO_A[radix - 2])
  {
    hide NotAbove, AtLeast;
    Start(radix);
    match radix
    case 15 =>
      Step(15, 1, 15, 0, 2, 225, 0);
      Step(15, 2, 225, 0, 5, 185, 12);
      Step(15, 5, 185, 12, 10, 133, 8);
      Reach(15, 10, 133, 32, 39);
    case _ =>
      Step(17, 1, 17, 0, 2, 289, 0);
      Step(17, 2, 289, 0, 4, 41760, 1);
      Step(17, 4, 41760, 1, 8, 53219, 15);
      Step(17, 8, 53219, 17, 16, 43216, 16);
      Step(17, 16, 43216, 50, 32, 56995, 15);
      Step(17, 32, 56995, 115, 65, 52665, 20);
      Step(17, 65, 52665, 250, 131, 44966, 20);
      Step(17, 131, 44966, 520, 263, 32780, 20);
      Reach(17, 263, 32780, 1060, 1075);
  }

  lemma RatioTable6(radix: nat)
    requires 18 <= radix <= 20 && !IsPowerOfTwo(radix)
    ensures NotAbove(2, RATIO_B[radix - 2], radix, RATIO_A[radix - 2])
  {
    hide NotAbove, AtLeast;
    Start(radix);
    match radix
    case 18 =>
      Step(18, 1, 18, 0, 3, 182, 5);
      Step(18, 3, 182, 5, 6, 129, 8);
      Reach(18, 6, 129, 18, 25);
    case 19 =>
      Step(19, 1, 19, 0, 2, 180, 1);
      Step(19, 2, 180, 1, 4, 253, 7);
      Step(19, 4, 253, 9, 8, 250, 8);
      Step(19, 8, 250, 26, 17, 144, 13);
      Reach(19, 17, 144, 65, 72);
    case _ =>
      Step(20, 1, 20, 0, 3, 1000, 3);
      Step(20, 3, 1000, 3, 7, 610, 15);
      Step(20, 7, 610, 21, 14, 726, 9);
      Step(20, 14, 726, 51, 28, 514, 10);
      Reach(20, 28, 514, 112, 121);
  }

  lemma RatioTable7(radix: nat)
    requires 21 <= radix <= 23 && !IsPowerOfTwo(radix)
    ensures NotAbove(2, RATIO_B[radix - 2], radix, RATIO_A[radix - 2])
  {
    hide NotAbove, AtLeast;
    Start(radix);
    match radix
    case 21 =>
      Step(21, 1, 21, 0, 2, 220, 1);
      Step(21, 2, 220, 1, 4, 189, 8);
      Step(21, 4, 189, 10, 9, 183, 12);
      Step(21, 9, 183, 32, 18, 130, 8);
      Reach(21, 18, 130, 72, 79);
    case 22 =>
      Step(22, 1, 22, 0, 2, 242, 1);
      Step(22, 2, 242, 1, 5, 157, 13);
      Step(22, 5, 157, 15, 11, 132, 12);
      Reach(22, 11, 132, 42, 49);
    case _ =>
      Step(23, 1, 23, 0, 2, 529, 0);
      Step(23, 2, 529, 0, 5, 785, 13);
      Step(23, 5, 785, 13, 11, 865, 14);
      Step(23, 11, 865, 40, 23, 525, 15);
      Reach(23, 23, 525, 95, 104);
  }

  lemma RatioTable8(radix: nat)
    requires 24 <= radix <= 26 && !IsPowerOfTwo(radix)
    ensures NotAbove(2, RATIO_B[radix - 2], radix, RATIO_A[radix - 2])
  {
    hide NotAbove, AtLeast;
    Start(radix);
    match radix
    case 24 =>
      Step(24, 1, 24, 0, 3, 216, 6);
      Step(24, 3, 216, 6, 6, 182, 8);
      Step(24, 6, 182, 20, 12, 129, 8);
      Reach(24, 12, 129, 48, 55);
    case 25 =>
      Step(25, 1, 25, 0, 2, 156, 2);
      Step(25, 2, 156, 2, 5, 148, 12);
      Step(25, 5, 148, 16, 11, 133, 12);
      Reach(25, 11, 133, 44, 51);
    case _ =>
      Step(26, 1, 26, 0, 2, 676, 0);
      Step(26, 2, 676, 0, 5, 725, 14);
      Step(26, 5, 725, 14, 10, 513, 10);
      Reach(26, 10, 513, 38, 47);
  }

  lemma RatioTable9(radix: nat)
    requires 27 <= radix <= 30 && !IsPowerOfTwo(radix)
    ensures NotAbove(2, RATIO_B[radix - 2], radix, RATIO_A[radix - 2])
  {
    hide NotAbove, AtLeast;
    Start(radix);
    match radix
    case 27 =>
      Step(27, 1, 27, 0, 2, 182, 2);
      Step(27, 2, 182, 2, 4, 129, 8);
      Reach(27, 4, 129, 12, 19);
    case 28 =>
      Step(28, 1, 28, 0, 2, 196, 2);
      Step(28, 2, 196, 2, 5, 131, 13);
      Reach(28, 5, 131, 17, 24);
    case 29 =>
      Step(29, 1, 29, 0, 3, 762, 5);
      Step(29, 3, 762, 5, 7, 513, 15);
      Reach(29, 7, 513, 25, 34);
    case _ =>
      Step(30, 1, 30, 0, 2, 225, 2);
      Step(30, 2, 225, 2, 5, 185, 13);
      Step(30, 5, 185, 17, 10, 133, 8);
      Reach(30, 10, 133, 42, 49);
  }

  lemma RatioTable10(radix: nat)
    requires 31 <= radix <= 33 && !IsPowerOfTwo(radix)
    ensures NotAbove(2, RATIO_B[radix - 2], radix, RATIO_A[radix - 2])
  {
    hide NotAbove, AtLeast;
    Start(radix);
    match radix
    case 31 =>
      Step(31, 1, 31, 0, 2, 961, 0);
      Step(31, 2, 961, 0, 5, 3494, 13);
      Step(31, 5, 3494, 13, 10, 2980, 12);
      Step(31, 10, 2980, 38, 21, 2100, 17);
      Step(31, 21, 2100, 93, 43, 2086, 16);
      Step(31, 43, 2086, 202, 87, 2058, 16);
      Reach(31, 87, 2058, 420, 431);
    case _ =>
      Step(33, 1, 33, 0, 3, 8984, 2);
      Step(33, 3, 8984, 2, 6, 9852, 13);
      Step(33, 6, 9852, 17, 12, 11848, 13);
      Step(33, 12, 11848, 47, 25, 8835, 19);
      Step(33, 25, 8835, 113, 50, 9528, 13);
      Step(33, 50, 9528, 239, 101, 11428, 18);
      Step(33, 101, 11428, 496, 203, 8220, 19);
      Reach(33, 203, 8220, 1011, 1024);
  }

  lemma RatioTable11(radix: nat)
    requires 34 <= radix <= 36 && !IsPowerOfTwo(radix)
    ensures NotAbove(2, RATIO_B[radix - 2], radix, RATIO_A[radix - 2])
  {
    hide NotAbove, AtLeast;
    Start(radix);
    match radix
    case 34 =>
      Step(34, 1, 34, 0, 3, 153, 8);
      Step(34, 3, 153, 8, 6, 182, 7);
      Step(34, 6, 182, 23, 12, 129, 8);
      Reach(34, 12, 129, 54, 61);
    case 35 =>
      Step(35, 1, 35, 0, 2, 153, 3);
      Step(35, 2, 153, 3, 4, 182, 7);
      Step(35, 4, 182, 13, 8, 129, 8);
      Reach(35, 8, 129, 34, 41);
    case _ =>
      Step(36, 1, 36, 0, 3, 2916, 4);
      Step(36, 3, 2916, 4, 6, 2075, 12);
      Step(36, 6, 2075, 20, 13, 2365, 16);
      Step(36, 13, 2365, 56, 26, 2731, 11);
      Step(36, 26, 2731, 123, 53, 2048, 17);
      Reach(36, 53, 2048, 263, 274);
  }
}

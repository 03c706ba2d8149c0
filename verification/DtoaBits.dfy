/**
 The 64 bits of a binary64 number, from and to the number in units of 2^-1074.
 */
module DoubleBits {
  import opened Powers
  import opened Limbs
  import opened Binary64

  const TWO52: nat := 0x10_0000_0000_0000
  const INFINITY: nat := 0x7FF0_0000_0000_0000
  const SIGN: nat := 0x8000_0000_0000_0000

  /** The magnitude of a finite number, in units, from its bits without the sign. */
  function BitsUnits(a: nat): nat {
    var e, f := a / TWO52, a % TWO52;
    if e == 0 then f else (TWO52 + f) * Pow(2, e - 1)
  }

  /** The bits of a number of units; from 2^1024 on, those of infinity. */
  function UnitsBits(r: nat): nat {
    var b := BitLength(r);
    if b > 2098 then INFINITY
    else if b <= 52 then r
    else (b - 52) * TWO52 + (r / Pow(2, b - 53)) % TWO52
  }

  /** The bits of a finite number give its units, and these the bits again. */
  lemma BitsRoundTrip(a: nat)
    requires a < INFINITY
    ensures UnitsBits(BitsUnits(a)) == a && BitLength(BitsUnits(a)) <= 2098
  {
    var e, f := a / TWO52, a % TWO52;
    TwoTo53();
    if e == 0 {
      if f > 0 {
        BitLengthBounds(f);
        if BitLength(f) > 52 {
          PowMonotone(2, 52, BitLength(f) - 1);
        }
      }
    } else {
      MantissaLength(TWO52 + f, e - 1);
      var p := Pow(2, e - 1);
      assert (TWO52 + f) * p == p * (TWO52 + f);
      QuotientIs((TWO52 + f) * p, p, TWO52 + f, 0);
    }
  }

  lemma MantissaLength(m: nat, w: nat)
    requires TWO52 <= m < 2 * TWO52
    ensures BitLength(m * Pow(2, w)) == w + 53
  {
    TwoTo53();
    PowAdd(2, w, 52);
    PowAdd(2, w, 53);
    var p := Pow(2, w);
    MulLe(TWO52, m, p, p);
    MulLe(m + 1, 2 * TWO52, p, p);
    MulSub(p, m + 1, 1);
    assert TWO52 * p == p * TWO52 && (2 * TWO52) * p == p * (2 * TWO52);
    BitLengthIs(m * p, w + 52);
  }

  /** The end of js_atod: the bits of m * 2^(e - 53). */
  method Encode(m: DLimb, e: int, ghost r: nat) returns (a: nat)
    requires (m == 0 || TWO52 <= m < 2 * TWO52) && IsUnits(m, e, r)
    ensures a == UnitsBits(r)
  {
    a := 0;
    if m == 0 {
      ZeroUnits(e, r);
    } else if e > 1024 {
      MantissaLength(m, e + 1021);
      a := INFINITY;
    } else if e < -1073 {
      UnitsLargeEnough(m, e, r);
    } else if e < -1021 {
      SubnormalUnits(m, e, r);
      a := m / Pow(2, -e - 1021);
    } else {
      MantissaLength(m, e + 1021);
      var p := Pow(2, e + 1021);
      assert m * p == p * m;
      QuotientIs(r, p, m, 0);
      a := (e + 1022) * TWO52 + m % TWO52;
    }
  }

  lemma ZeroUnits(e: int, r: nat)
    requires IsUnits(0, e, r)
    ensures r == 0 && UnitsBits(0) == 0
  {
    if e < -1021 && r > 0 {
      MulLe(1, r, 1, Pow(2, -1021 - e));
    }
  }

  /** A number of 53 bits that is a number of units has no smaller exponent than this. */
  lemma UnitsLargeEnough(m: nat, e: int, r: nat)
    requires 0 < m < 2 * TWO52 && IsUnits(m, e, r)
    ensures e >= -1073
  {
    if e < -1021 {
      var p := Pow(2, -1021 - e);
      assert r > 0 by { assert r == 0 ==> r * p == 0; }
      MulLe(1, r, p, p);
      TwoTo53();
      PowerBelow(-1021 - e, 53);
    }
  }

  lemma PowerBelow(i: nat, j: nat)
    ensures Pow(2, i) < Pow(2, j) ==> i < j
  {
    if i >= j {
      PowMonotone(2, j, i);
    }
  }

  lemma SubnormalUnits(m: nat, e: int, r: nat)
    requires TWO52 <= m < 2 * TWO52 && -1073 <= e < -1021 && IsUnits(m, e, r)
    ensures m / Pow(2, -e - 1021) == r && UnitsBits(r) == r
  {
    var k := -1021 - e;
    var p := Pow(2, k);
    assert r * p == p * r;
    QuotientIs(m, p, r, 0);
    TwoTo53();
    if r > 0 {
      BitLengthBounds(r);
      var b := BitLength(r);
      if b > 52 {
        PowMonotone(2, 52, b - 1);
        PowMonotone(2, 1, k);
        assert Pow(2, 1) == 2;
        MulLe(TWO52, r, 2, p);
      }
    }
  }

  /** The beginning of js_dtoa: mantissa and exponent of a finite number other than 0. */
  method Decode(a: nat) returns (m: DLimb, e: int)
    requires 0 < a < INFINITY
    ensures TWO52 <= m < 2 * TWO52 && -1073 <= e <= 1024 && IsUnits(m, e, BitsUnits(a))
  {
    e := a / TWO52;
    m := a % TWO52;
    TwoTo53();
    if e == 0 {
      // a subnormal number
      var l := 64 - BitLength(m) - 11;
      BitLengthBounds(m);
      SubnormalLength(m);
      ShiftToTop(m, l);
      e := e - (l - 1);
      m := m * Pow(2, l);
    } else {
      m := m + TWO52;
    }
    e := e - 1022;
  }

  lemma SubnormalLength(m: nat)
    requires 0 < m < TWO52
    ensures 1 <= BitLength(m) <= 52
  {
    BitLengthBounds(m);
    TwoTo53();
    if BitLength(m) > 52 {
      PowMonotone(2, 52, BitLength(m) - 1);
    }
  }

  lemma ShiftToTop(m: nat, l: nat)
    requires 0 < m < TWO52 && l == 53 - BitLength(m)
    ensures TWO52 <= m * Pow(2, l) < 2 * TWO52
  {
    hide Pow, BitLength;
    var b, p := BitLength(m), Pow(2, l);
    SubnormalLength(m);
    BitLengthBounds(m);
    TwoTo53();
    PowAdd(2, b - 1, l);
    PowAdd(2, b, l);
    MulLe(Pow(2, b - 1), m, p, p);
    MulLe(m + 1, Pow(2, b), p, p);
    MulSub(p, m + 1, 1);
  }
}

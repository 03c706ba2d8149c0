/**
 js_dtoa in radix 10 and free format: the text of a number.
 */
module NumberPrinting {
  import opened Powers
  import opened Limbs
  import opened BigNumbers
  import opened Binary64
  import opened DigitSearch
  import opened DoubleBits

  // ----- digits as text -----

  function DigitChar(d: nat): char
    requires d < 10
  {
    '0' + d as char
  }

  /** The last n decimal digits of v. */
  function Decimal(v: nat, n: nat): (s: string)
    ensures |s| == n && forall i | 0 <= i < n :: '0' <= s[i] <= '9'
  {
    if n == 0 then "" else Decimal(v / 10, n - 1) + [DigitChar(v % 10)]
  }

  /** v without its last k digits. */
  function Cut(v: nat, k: nat): nat {
    v / Pow(10, k)
  }

  lemma CutSteps(v: nat, k: nat)
    ensures Cut(v, 0) == v && Cut(v, k + 1) == Cut(v, k) / 10 == Cut(v / 10, k)
  {
    PowDivides(10, k, 1, v);
    PowDivides(10, 1, k, v);
    assert Pow(10, 1) == 10;
    assert 1 + k == k + 1;
  }

  /** The digits above and below position k. */
  lemma {:induction false} DecimalSplit(v: nat, n: nat, k: nat)
    requires k <= n
    ensures Decimal(v, n) == Decimal(Cut(v, k), n - k) + Decimal(v, k)
  {
    if k == 0 {
      CutSteps(v, 0);
      hide Cut;
    } else {
      hide Cut;
      var w := v / 10;
      DecimalSplit(w, n - 1, k - 1);
      CutSteps(v, k - 1);
      var high, low := Decimal(Cut(v, k), n - k), Decimal(w, k - 1);
      assert high + (low + [DigitChar(v % 10)]) == high + low + [DigitChar(v % 10)];
    }
  }

  /** Only the last n digits of v matter. */
  lemma {:induction false} DecimalLow(v: nat, n: nat, k: nat)
    requires n <= k
    ensures Decimal(v, n) == Decimal(v % Pow(10, k), n)
  {
    if n > 0 {
      DivDiv(v, 10, Pow(10, k - 1));
      var q, r := Divided(v, 10);
      var w := v / 10 % Pow(10, k - 1);
      assert Pow(10, k) == 10 * Pow(10, k - 1);
      assert v % Pow(10, k) == 10 * w + r;
      assert (10 * w + r) / 10 == w && (10 * w + r) % 10 == r;
      DecimalLow(v / 10, n - 1, k - 1);
    }
  }

  /** u32toa_len. */
  method U32ToALen(n0: Limb, len: nat) returns (buf: string)
    ensures buf == Decimal(n0, len)
  {
    buf := "";
    var n, i := n0, len;
    while i > 0
      invariant 0 <= i <= len && Decimal(n0, len) == Decimal(n, i) + buf
    {
      i := i - 1;
      assert Decimal(n, i + 1) + buf == Decimal(n / 10, i) + ([DigitChar(n % 10)] + buf);
      buf := [DigitChar(n % 10)] + buf;
      n := n / 10;
    }
  }

  /** How many decimal digits v has; at least 1. */
  function DigitCount(v: nat): (n: nat)
    ensures n >= 1
  {
    if v < 10 then 1 else 1 + DigitCount(v / 10)
  }

  /** The decimal text of v, without leading zeros. */
  function DecimalText(v: nat): string {
    Decimal(v, DigitCount(v))
  }

  lemma {:induction false} DigitCountBounds(v: nat)
    ensures v < Pow(10, DigitCount(v)) && (v > 0 ==> Pow(10, DigitCount(v) - 1) <= v)
  {
    if v >= 10 {
      DigitCountBounds(v / 10);
    }
  }

  lemma DigitCountIs(v: nat, n: nat)
    requires n >= 1 && Pow(10, n - 1) <= v < Pow(10, n)
    ensures DigitCount(v) == n
  {
    DigitCountBounds(v);
    var c := DigitCount(v);
    if c < n {
      PowMonotone(10, c, n - 1);
    } else if c > n {
      PowMonotone(10, n, c - 1);
    }
  }

  /** u32toa. */
  method U32ToA(n0: Limb) returns (buf: string)
    ensures buf == DecimalText(n0)
  {
    hide Cut;
    CutSteps(n0, 0);
    buf := [DigitChar(n0 % 10)];
    var n: nat := n0 / 10;
    ghost var k := 1;
    assert Decimal(n0, 1) == Decimal(n0 / 10, 0) + [DigitChar(n0 % 10)];
    while n != 0
      invariant k >= 1 && buf == Decimal(n0, k) && n == Cut(n0, k)
      invariant DigitCount(n0) == if n == 0 then k else k + DigitCount(n)
      decreases n
    {
      NextDigit(n0, k);
      buf := [DigitChar(n % 10)] + buf;
      n := n / 10;
      k := k + 1;
    }
  }

  lemma NextDigit(v: nat, k: nat)
    ensures Decimal(v, k + 1) == [DigitChar(Cut(v, k) % 10)] + Decimal(v, k) && Cut(v, k) / 10 == Cut(v, k + 1)
  {
    hide Cut;
    DecimalSplit(v, k + 1, k);
    CutSteps(v, k);
    var w := Cut(v, k);
    assert Decimal(w, 1) == Decimal(w / 10, 0) + [DigitChar(w % 10)];
  }

  const BILLION: nat := 1000000000

  /** u64toa. */
  method U64ToA(n0: DLimb) returns (buf: string)
    ensures buf == DecimalText(n0)
  {
    Billion();
    if n0 < 0x1_0000_0000 {
      buf := U32ToA(n0);
      return;
    }
    var n1, n := n0 / BILLION, n0 % BILLION;
    AddBillion(n0);
    if n1 >= 0x1_0000_0000 {
      var n2 := n1 / BILLION;
      AddBillion(n1);
      n1 := n1 % BILLION;
      // at most two digits
      var q := "";
      var high := n2;
      if n2 >= 10 {
        q := [DigitChar(n2 / 10)];
        n2 := n2 % 10;
      }
      q := q + [DigitChar(n2)];
      TwoDigits(high, q);
      var r := U32ToALen(n1, 9);
      buf := q + r;
    } else {
      buf := U32ToA(n1);
    }
    var r := U32ToALen(n, 9);
    buf := buf + r;
  }

  lemma Billion()
    ensures Pow(10, 9) == BILLION
  {
  }

  lemma TwoDigits(v: nat, q: string)
    requires v < 100 && q == (if v >= 10 then [DigitChar(v / 10), DigitChar(v % 10)] else [DigitChar(v)])
    ensures q == DecimalText(v)
  {
    var w := v / 10;
    assert Decimal(w, 1) == Decimal(w / 10, 0) + [DigitChar(w % 10)];
    assert Decimal(v, 1) == Decimal(w, 0) + [DigitChar(v % 10)];
    assert Decimal(v, 2) == Decimal(w, 1) + [DigitChar(v % 10)];
    assert v < 10 ==> v % 10 == v;
    assert v >= 10 ==> w % 10 == w && DigitCount(v) == 1 + DigitCount(w);
  }

  /** Nine digits below the text of the quotient. */
  lemma AddBillion(v: nat)
    requires v >= BILLION
    ensures DecimalText(v) == DecimalText(v / BILLION) + Decimal(v % BILLION, 9)
  {
    Billion();
    var w := v / BILLION;
    DigitCountBounds(w);
    var c := DigitCount(w);
    PowAdd(10, c - 1, 9);
    PowAdd(10, c, 9);
    var x, y := Pow(10, c - 1), Pow(10, c);
    assert Pow(10, c + 9 - 1) == x * BILLION && Pow(10, c + 9) == y * BILLION;
    assert w >= 1 && x * BILLION <= w * BILLION <= v && v < (w + 1) * BILLION <= y * BILLION;
    DigitCountIs(v, c + 9);
    DecimalSplit(v, c + 9, 9);
    DecimalLow(v, 9, 9);
  }

  /** output_digits for radix 10: n digits, with a dot after dotPos of them unless these are all. */
  method OutputDigits(a: Mpb, n0: nat, dotPos: nat) returns (buf: string)
    requires a.Normal() && 0 <= dotPos <= n0
    modifies a
    ensures buf == Dotted(Decimal(Val(old(a.tab)), n0), dotPos)
  {
    hide Pow, Join;
    ghost var v := Val(a.tab);
    buf := "";
    var nDigits := n0;
    Billion();
    while nDigits != 0
      invariant 0 <= nDigits <= n0 && a.Normal() && Decimal(v, n0) == Decimal(Val(a.tab), nDigits) + buf
      decreases nDigits
    {
      var n := if nDigits < 9 then nDigits else 9;
      ghost var w, m := Val(a.tab), nDigits;
      nDigits := nDigits - n;
      var r := a.Div1(BILLION, 0);
      ChunkOfDigits(w, m, n, Val(a.tab), r);
      a.Renorm();
      var chunk := U32ToALen(r, n);
      assert Decimal(w, m) + buf == Decimal(Val(a.tab), m - n) + (chunk + buf);
      buf := chunk + buf;
    }
    // add the dot
    if dotPos != n0 {
      buf := buf[..dotPos] + "." + buf[dotPos..];
    }
  }

  /** The digits of a limb below those of the quotient; the last chunk may be shorter. */
  lemma ChunkOfDigits(w: nat, m: nat, n: nat, q: nat, r: nat)
    requires n <= m && (n == 9 || n == m) && n <= 9 && w == q * BILLION + r && r < BILLION
    ensures Decimal(w, m) == Decimal(q, m - n) + Decimal(r, n)
  {
    Billion();
    QuotientIs(w, BILLION, q, r);
    DecimalLow(w, n, 9);
    DecimalSplit(w, m, n);
  }

  /** Digits with a dot inside. */
  function Dotted(s: string, dotPos: nat): string
    requires dotPos <= |s|
  {
    if dotPos == |s| then s else s[..dotPos] + "." + s[dotPos..]
  }

  // ----- js_dtoa -----

  datatype ExpMode = Auto | Enabled | Disabled

  function Zeros(n: nat): (s: string)
    ensures |s| == n && forall i | 0 <= i < n :: s[i] == '0'
  {
    seq(n, _ => '0')
  }

  /** Whether the exponent form is used for 0.ddd * 10^E. */
  predicate WithExponent(mode: ExpMode, E: int) {
    mode.Enabled? || (mode.Auto? && (E <= -6 || E > 21))
  }

  /** The text of the digits mant, of which there are p, standing for 0.ddd * 10^E. */
  function FreeText(mant: nat, p: nat, E: int, mode: ExpMode): string
    requires p >= 1
  {
    var ds := Decimal(mant, p);
    if WithExponent(mode, E) then
      Dotted(ds, 1) + "e" + (if E - 1 < 0 then "-" else "+") + DecimalText(if E - 1 < 0 then 1 - E else E - 1)
    else if E <= 0 then "0." + Zeros(-E) + ds
    else Dotted(ds, if p <= E then p else E) + Zeros(if E > p then E - p else 0)
  }

  /** What is printed for the magnitude b, a finite number other than 0. */
  ghost predicate BodyText(b: nat, mode: ExpMode, q: string) {
    || (exists m: nat :: !mode.Enabled? && IntegerText(b, m, q))
    || (exists mant: nat, p: nat, E: int :: DigitsText(b, mant, p, E, mode, q))
  }

  /** The number is the integer m, printed as such. */
  ghost predicate IntegerText(b: nat, m: nat, q: string) {
    0 < m < 2 * TWO52 && BitsUnits(b) == m * Pow(2, 1074) && q == DecimalText(m)
  }

  /** The digits are the number rounded to p of them; p or more read back, and p - 1 do not. */
  ghost predicate Searched(r: nat, mant: nat, p: nat, E: int) {
    exists m: nat, e: int ::
      && Mantissa(m, e) && IsUnits(m, e, r) && RoundedTo(m, e, p, E, mant) && (p > 1 ==> TooShort(m, e, r, p - 1))
      && AllLongEnough(m, e, r, p, 17)
  }

  /** The digits of the number, which read back as it, as the search finds them. */
  ghost predicate DigitsText(b: nat, mant: nat, p: nat, E: int, mode: ExpMode, q: string) {
    && Represents(BitsUnits(b), mant, p, E) && Searched(BitsUnits(b), mant, p, E)
    && mant % 10 != 0 && -400 < E < 400 && q == FreeText(mant, p, E, mode)
  }

  /** The text for all 64 bits. */
  ghost predicate Printed(a: nat, mode: ExpMode, minusZero: bool, q: string) {
    var sign, b := if a >= SIGN then "-" else "", a % SIGN;
    if b > INFINITY then q == "NaN"
    else if b == INFINITY then q == sign + "Infinity"
    else if b == 0 then q == (if minusZero then sign else "") + FreeText(0, 1, 1, mode)
    else |q| >= |sign| && q[..|sign|] == sign && BodyText(b, mode, q[|sign|..])
  }

  /** The output part of js_dtoa for free format. */
  method Output(tmp1: Mpb, p: nat, E0: int, mode: ExpMode) returns (q: string)
    requires tmp1.Normal() && p >= 1 && -400 < E0 < 400
    modifies tmp1
    ensures q == FreeText(Val(old(tmp1.tab)), p, E0, mode)
  {
    var E := E0;
    if WithExponent(mode, E) {
      q := OutputDigits(tmp1, p, 1);
      E := E - 1;
      q := q + "e";
      if E < 0 {
        q := q + "-";
        E := -E;
      } else {
        q := q + "+";
      }
      var r := U32ToA(E);
      q := q + r;
    } else if E <= 0 {
      q := "0.";
      for i := 0 to -E
        invariant q == "0." + Zeros(i)
      {
        q := q + "0";
      }
      var r := OutputDigits(tmp1, p, p);
      q := q + r;
    } else {
      q := OutputDigits(tmp1, p, if p <= E then p else E);
      ghost var q0 := q;
      var n := if E > p then E - p else 0;
      for i := 0 to n
        invariant q == q0 + Zeros(i)
      {
        q := q + "0";
      }
    }
  }

  /** The digits of a finite number that is not zero. */
  method FiniteText(tmp1: Mpb, b: nat, mode: ExpMode) returns (r: string)
    requires 0 < b < INFINITY
    modifies tmp1
    ensures BodyText(b, mode, r)
  {
    hide Pow, BitsUnits, IsUnits, Represents, FreeText, Join, RoundedTo, TooShort, AllLongEnough;
    var m, e := Decode(b);
    if 1 <= e <= 53 && m % PowTwo(53 - e) == 0 && !mode.Enabled? {
      IntegerUnits(m, e, BitsUnits(b), m / PowTwo(53 - e));
      r := U64ToA(m / PowTwo(53 - e));
      assert IntegerText(b, m / PowTwo(53 - e), r);
      return;
    }
    var mant, p, E := FreeDigits(tmp1, m, e, BitsUnits(b));
    RepresentsDigits(BitsUnits(b), mant, p, E);
    tmp1.SetU64(mant);
    r := Output(tmp1, p, E, mode);
    assert Searched(BitsUnits(b), mant, p, E);
    assert DigitsText(b, mant, p, E, mode, r);
  }

  /** js_dtoa with JS_DTOA_FORMAT_FREE in radix 10. */
  method JsDtoa(a: nat, mode: ExpMode, minusZero: bool) returns (q: string)
    requires a < 2 * SIGN
    ensures Printed(a, mode, minusZero, q)
  {
    hide BodyText, FreeText, Join;
    var tmp1 := new Mpb();
    var sgn, b := a >= SIGN, a % SIGN;
    q := "";
    if b >= INFINITY {
      if b == INFINITY {
        if sgn {
          q := q + "-";
        }
        q := q + "Infinity";
      } else {
        q := q + "NaN";
      }
      return;
    }
    if b == 0 {
      tmp1.SetU64(0);
      if sgn && minusZero {
        q := q + "-";
      }
      var r := Output(tmp1, 1, 1, mode);
      q := q + r;
      return;
    }
    if sgn {
      q := q + "-";
    }
    ghost var sign := q;
    var r := FiniteText(tmp1, b, mode);
    q := q + r;
    assert q[|sign|..] == r;
  }

  lemma RepresentsDigits(r: nat, mant: nat, p: nat, E: int)
    requires Represents(r, mant, p, E)
    ensures p >= 1
  {
  }

  /** 2^k as a machine integer. */
  function PowTwo(k: nat): (p: nat)
    ensures p > 0
  {
    Pow(2, k)
  }

  /** A number whose mantissa ends in enough zero bits is the integer that is left. */
  lemma IntegerUnits(m: nat, e: int, r: nat, k: nat)
    requires TWO52 <= m < 2 * TWO52 && 1 <= e <= 53 && IsUnits(m, e, r)
    requires m % PowTwo(53 - e) == 0 && k == m / PowTwo(53 - e)
    ensures 0 < k < 2 * TWO52 && r == k * Pow(2, 1074)
  {
    var p := Pow(2, 53 - e);
    var q, s := Divided(m, p);
    assert m == k * p;
    PowAdd(2, 53 - e, e + 1021);
    TwoTo53();
    MulAssoc(k, p, Pow(2, e + 1021));
    assert k > 0 by { assert k == 0 ==> k * p == 0; }
    MulLe(k, k, 1, p);
  }
}

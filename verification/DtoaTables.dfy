/**
 The radix tables of number printing and parsing, and small powers computed from them.
 */
module RadixTables {
  import opened Powers
  import opened Limbs
  import opened BigNumbers

  const DIGITS_PER_LIMB: seq<nat> :=
    [32, 20, 16, 13, 12, 11, 10, 10, 9, 9, 8, 8, 8, 8, 8, 7, 7, 7, 7, 7, 7, 7, 6, 6, 6, 6, 6, 6, 6, 6, 6, 6, 6, 6, 6]

  const POW5: seq<Limb> :=
    [0x00000005, 0x00000019, 0x0000007d, 0x00000271, 0x00000c35, 0x00003d09, 0x0001312d, 0x0005f5e1, 0x001dcd65,
     0x009502f9, 0x02e90edd, 0x0e8d4a51, 0x48c27395, 0x6bcc41e9, 0x1afd498d, 0x86f26fc1, 0xa2bc2ec5]

  const POW5_HIGH: seq<Limb> := [0x00000001, 0x00000007, 0x00000023, 0x000000b1]

  const POW5_INV: seq<Limb> :=
    [0x99999999, 0x47ae147a, 0x0624dd2f, 0xa36e2eb1, 0x4f8b588e, 0x0c6f7a0b, 0xad7f29ab, 0x5798ee23, 0x12e0be82,
     0xb7cdfd9d, 0x5fd7fe17, 0x19799812, 0xc25c2684]

  /** Each entry of the table of powers of 5 is 5 times the one before, and the first is 5. */
  lemma {:induction false} Pow5Table(b: nat)
    requires 1 <= b <= 17
    ensures Pow(5, b) == POW5[b - 1] + if b >= 14 then POW5_HIGH[b - 14] * B else 0
  {
    if b > 1 {
      Pow5Table(b - 1);
    }
  }

  /** Powers of 2, for reference. */
  const POW2: seq<nat> :=
    [1, 2, 4, 8, 16, 32, 64, 128, 256, 512, 1024, 2048, 4096, 8192, 16384, 32768, 65536, 131072, 262144, 524288, 1048576,
     2097152, 4194304, 8388608, 16777216, 33554432, 67108864, 134217728, 268435456, 536870912, 1073741824, 2147483648,
     4294967296]

  lemma {:induction false} Pow2Table(k: nat)
    requires k <= 32
    ensures Pow(2, k) == POW2[k]
  {
    if k > 0 {
      Pow2Table(k - 1);
    }
  }

  /** The inverse is determined by its bounds. */
  lemma InverseIs(d: Limb, v: Limb)
    requires d >= 0x8000_0000 && (v + B) * d < B * B <= (v + B) * d + d
    ensures v == Udiv1NormInit(d)
  {
    hide Udiv1NormInit;
    var w: Limb := Udiv1NormInit(d);
    if v < w {
      MulLe(v + 1 + B, w + B, d, d);
      MulSub(d, v + B + 1, 1);
    } else if w < v {
      MulLe(w + 1 + B, v + B, d, d);
      MulSub(d, w + B + 1, 1);
    }
  }

  /** The inverses in the table are those that udiv1norm_init computes for the shifted powers. */
  lemma Pow5InvTable(b: nat)
    requires 1 <= b <= 13
    ensures var s := Clz32(POW5[b - 1]);
            s < 32 && 0x8000_0000 <= POW5[b - 1] * Pow(2, s) < B
            && POW5_INV[b - 1] == Udiv1NormInit(POW5[b - 1] * Pow(2, s))
  {
    if b <= 4 {
      Pow5InvTable1(b);
    } else if b <= 7 {
      Pow5InvTable2(b);
    } else if b <= 10 {
      Pow5InvTable3(b);
    } else {
      Pow5InvTable4(b);
    }
  }

  lemma Pow5InvTable1(b: nat)
    requires 1 <= b <= 4
    ensures var s := Clz32(POW5[b - 1]);
            s < 32 && 0x8000_0000 <= POW5[b - 1] * Pow(2, s) < B
            && POW5_INV[b - 1] == Udiv1NormInit(POW5[b - 1] * Pow(2, s))
  {
    hide Udiv1NormInit, Clz32, Pow;
    match b
    case 1 => NormalizedInverse(0x00000005, 29, 536870912, 4, 0x99999999);
    case 2 => NormalizedInverse(0x00000019, 27, 134217728, 16, 0x47ae147a);
    case 3 => NormalizedInverse(0x0000007d, 25, 33554432, 64, 0x0624dd2f);
    case _ => NormalizedInverse(0x00000271, 22, 4194304, 512, 0xa36e2eb1);
  }

  lemma Pow5InvTable2(b: nat)
    requires 5 <= b <= 7
    ensures var s := Clz32(POW5[b - 1]);
            s < 32 && 0x8000_0000 <= POW5[b - 1] * Pow(2, s) < B
            && POW5_INV[b - 1] == Udiv1NormInit(POW5[b - 1] * Pow(2, s))
  {
    hide Udiv1NormInit, Clz32, Pow;
    match b
    case 5 => NormalizedInverse(0x00000c35, 20, 1048576, 2048, 0x4f8b588e);
    case 6 => NormalizedInverse(0x00003d09, 18, 262144, 8192, 0x0c6f7a0b);
    case _ => NormalizedInverse(0x0001312d, 15, 32768, 65536, 0xad7f29ab);
  }

  lemma Pow5InvTable3(b: nat)
    requires 8 <= b <= 10
    ensures var s := Clz32(POW5[b - 1]);
            s < 32 && 0x8000_0000 <= POW5[b - 1] * Pow(2, s) < B
            && POW5_INV[b - 1] == Udiv1NormInit(POW5[b - 1] * Pow(2, s))
  {
    hide Udiv1NormInit, Clz32, Pow;
    match b
    case 8 => NormalizedInverse(0x0005f5e1, 13, 8192, 262144, 0x5798ee23);
    case 9 => NormalizedInverse(0x001dcd65, 11, 2048, 1048576, 0x12e0be82);
    case _ => NormalizedInverse(0x009502f9, 8, 256, 8388608, 0xb7cdfd9d);
  }

  lemma Pow5InvTable4(b: nat)
    requires 11 <= b <= 13
    ensures var s := Clz32(POW5[b - 1]);
            s < 32 && 0x8000_0000 <= POW5[b - 1] * Pow(2, s) < B
            && POW5_INV[b - 1] == Udiv1NormInit(POW5[b - 1] * Pow(2, s))
  {
    hide Udiv1NormInit, Clz32, Pow;
    match b
    case 11 => NormalizedInverse(0x02e90edd, 6, 64, 33554432, 0x5fd7fe17);
    case 12 => NormalizedInverse(0x0e8d4a51, 4, 16, 134217728, 0x19799812);
    case _ => NormalizedInverse(0x48c27395, 1, 2, 1073741824, 0xc25c2684);
  }

  /** A number shifted up by s to the high bit, and its inverse. */
  lemma NormalizedInverse(w: Limb, s: nat, p: nat, h: nat, v: Limb)
    requires s < 32 && p == POW2[s] && h == POW2[31 - s] && h <= w < 2 * h && 0x8000_0000 <= w * p < B
    requires (v + B) * (w * p) < B * B <= (v + B) * (w * p) + w * p
    ensures s == Clz32(w) && w * Pow(2, s) == w * p && v == Udiv1NormInit(w * Pow(2, s))
  {
    Pow2Table(s);
    Pow2Table(31 - s);
    BitLengthIs(w, 31 - s);
    InverseIs(w * p, v);
  }

  // ----- pow_ui -----

  /** A number as 64 bits keep it. */
  function Wrap64(x: nat): (r: DLimb)
    ensures x < B * B ==> r == x
  {
    x % (B * B)
  }

  lemma WrapMul(x: nat, y: nat)
    ensures Wrap64(Wrap64(x) * y) == Wrap64(x * y)
  {
    var q, m := x / (B * B), B * B;
    assert x == q * m + Wrap64(x);
    assert x * y == (q * y) * m + Wrap64(x) * y by { MulAssoc(q, y, m); MulAssoc(q, m, y); assert y * m == m * y; }
    SameRest(Wrap64(x) * y, q * y);
  }

  lemma SameRest(x: nat, k: nat)
    ensures (k * (B * B) + x) % (B * B) == x % (B * B)
  {
  }

  /** The squaring loop of pow_ui, in 64 bits. */
  method PowBySquaring(a: Limb, b: Limb) returns (r: DLimb)
    requires b >= 1
    ensures r == Wrap64(Pow(a, b))
  {
    hide Pow, BitLength, HighBits, Wrap64;
    r := a;
    var i := BitLength(b) - 2;
    LimbBits(b);
    TopBit(a, b);
    BottomBit(b);
    while i >= 0
      invariant -1 <= i < 32 && r == Wrap64(Pow(a, HighBits(b, Pow(2, i + 1))))
    {
      SquareStep(a, b, i);
      ghost var x := Pow(a, HighBits(b, Pow(2, i + 1)));
      WrapMul(x, x);
      WrapMul(x, r);
      assert x * r == r * x;
      r := Wrap64(r * r);
      if HighBits(b, Pow(2, i)) % 2 == 1 {
        WrapMul(x * x, a);
        r := Wrap64(r * a);
      }
      i := i - 1;
    }
  }

  lemma BottomBit(b: Limb)
    ensures HighBits(b, Pow(2, 0)) == b
  {
  }

  lemma TopBit(a: nat, b: Limb)
    requires b > 0
    ensures HighBits(b, Pow(2, BitLength(b) - 1)) == 1 && Pow(a, 1) == a
  {
    BitLengthBounds(b);
    var p := Pow(2, BitLength(b) - 1);
    QuotientIs(b, p, 1, b - p);
  }

  lemma SquareStep(a: nat, b: Limb, i: nat)
    ensures var x, k := Pow(a, HighBits(b, Pow(2, i + 1))), HighBits(b, Pow(2, i));
            Pow(a, k) == if k % 2 == 1 then x * x * a else x * x
  {
    NextBit(b, i);
    var k, l := HighBits(b, Pow(2, i + 1)), HighBits(b, Pow(2, i));
    PowAdd(a, k, k);
    PowAdd(a, k + k, 1);
    assert Pow(a, 1) == a;
    hide Pow, HighBits;
  }

  lemma NextBit(b: Limb, i: nat)
    ensures var k, l := HighBits(b, Pow(2, i + 1)), HighBits(b, Pow(2, i));
            l == 2 * k + l % 2
  {
    PowAdd(2, i, 1);
    assert Pow(2, i + 1) == Pow(2, i) * 2;
    DivDiv(b, Pow(2, i), 2);
  }

  lemma SmallPowers(a: nat)
    ensures Pow(a, 0) == 1 && Pow(a, 1) == a
  {
  }

  lemma TenFits(b: nat)
    requires 1 <= b <= 17
    ensures Pow(10, b) < B * B && Pow(10, b) == Pow(5, b) * Pow(2, b)
  {
    Pow5Table(17);
    Pow2Table(17);
    PowProduct(5, 2, 17);
    PowProduct(5, 2, b);
    PowMonotone(10, b, 17);
  }

  /** pow_ui: a^b in 64 bits, from the table when it is a small power of 5 or 10. */
  method PowUi(a: Limb, b: Limb) returns (r: DLimb)
    ensures r == Wrap64(Pow(a, b))
  {
    hide Pow;
    SmallPowers(a);
    if b == 0 {
      return 1;
    }
    if b == 1 {
      return a;
    }
    if (a == 5 || a == 10) && b <= 17 {
      Pow5Table(b);
      TenFits(b);
      r := POW5[b - 1];
      if b >= 14 {
        r := r + POW5_HIGH[b - 14] as int * B;
      }
      if a == 10 {
        r := r * Pow(2, b);
      }
      return r;
    }
    r := PowBySquaring(a, b);
  }

  /** pow_ui_inv: a^b shifted up to its high bit, the shift, and the inverse. */
  method PowUiInv(a: Limb, b: nat) returns (r: Limb, rInv: Limb, shift: nat)
    requires a >= 1 && b < B && Pow(a, b) < B
    ensures shift < 32 && r == Pow(a, b) * Pow(2, shift) && r >= 0x8000_0000 && rInv == Udiv1NormInit(r)
  {
    if a == 5 && 1 <= b <= 13 {
      Pow5Table(b);
      Pow5InvTable(b);
      hide Pow, Udiv1NormInit;
      r := POW5[b - 1];
      shift := Clz32(r);
      r := r * Pow(2, shift);
      rInv := POW5_INV[b - 1];
    } else {
      var w := PowUi(a, b);
      r := w;
      Normalize(r);
      shift := Clz32(r);
      r := r * Pow(2, shift);
      rInv := Udiv1NormInit(r);
    }
  }

  lemma Normalize(r: Limb)
    requires r > 0
    ensures Clz32(r) < 32 && 0x8000_0000 <= r * Pow(2, Clz32(r)) < B
  {
    hide Pow;
    var k := BitLength(r);
    BitLengthBounds(r);
    LimbBits(r);
    PowAdd(2, k - 1, 32 - k);
    PowAdd(2, k, 32 - k);
    Pow2Table(31);
    Pow32();
    var g := Pow(2, 32 - k);
    MulLe(Pow(2, k - 1), r, g, g);
    MulLe(r + 1, Pow(2, k), g, g);
    MulSub(g, r + 1, 1);
  }

  // ----- how many digits fit a limb -----

  /** radix^(digits per limb), modulo 2^32. */
  const RADIX_BASE: seq<Limb> :=
    [0x00000000, 0xcfd41b91, 0x00000000, 0x48c27395, 0x81bf1000, 0x75db9c97, 0x40000000, 0xcfd41b91,
     0x3b9aca00, 0x8c8b6d2b, 0x19a10000, 0x309f1021, 0x57f6c100, 0x98c29b81, 0x00000000, 0x18754571,
     0x247dbc80, 0x3547667b, 0x4c4b4000, 0x6b5a6e1d, 0x94ace180, 0xcaf18367, 0x0b640000, 0x0e8d4a51,
     0x1269ae40, 0x17179149, 0x1cb91000, 0x23744899, 0x2b73a840, 0x34e63b41, 0x40000000, 0x4cfa3cc1,
     0x5c13d840, 0x6d91b519, 0x81bf1000]

  /** What an entry of radix_base_table stands for: 0 is 2^32. */
  function RadixBase(radix: nat): nat
    requires 2 <= radix <= 36
  {
    if RADIX_BASE[radix - 2] == 0 then B else RADIX_BASE[radix - 2]
  }

  lemma RadixBaseTable(radix: nat)
    requires 2 <= radix <= 36
    ensures Pow(radix, DIGITS_PER_LIMB[radix - 2]) == RadixBase(radix)
  {
    if radix <= 4 {
      RadixBaseTable1(radix);
    } else if radix <= 8 {
      if radix <= 6 { RadixBaseTable2(radix); } else { RadixBaseTable2b(radix); }
    } else if radix <= 13 {
      RadixBaseTable3(radix);
    } else if radix <= 19 {
      RadixBaseTable4(radix);
    } else if radix <= 25 {
      RadixBaseTable5(radix);
    } else if radix <= 31 {
      RadixBaseTable6(radix);
    } else {
      RadixBaseTable7(radix);
    }
  }

  lemma RadixBaseTable1(radix: nat)
    requires 2 <= radix <= 4
    ensures Pow(radix, DIGITS_PER_LIMB[radix - 2]) == RadixBase(radix)
  {
    match radix
    case 2 => Pow32();
    case 3 =>
      assert Pow(3, 10) == 59049;
      PowAdd(3, 10, 10);
    case _ =>
      assert Pow(4, 8) == 65536;
      PowAdd(4, 8, 8);
  }

  lemma RadixBaseTable2(radix: nat)
    requires 5 <= radix <= 6
    ensures Pow(radix, DIGITS_PER_LIMB[radix - 2]) == RadixBase(radix)
  {
    if radix == 5 {
      assert Pow(5, 6) == 15625;
      PowAdd(5, 6, 7);
    } else {
      assert Pow(6, 6) == 46656;
      PowAdd(6, 6, 6);
    }
  }

  lemma RadixBaseTable2b(radix: nat)
    requires 7 <= radix <= 8
    ensures Pow(radix, DIGITS_PER_LIMB[radix - 2]) == RadixBase(radix)
  {
    match radix
    case 7 =>
      assert Pow(7, 5) == 16807;
      PowAdd(7, 5, 6);
    case _ =>
      assert Pow(8, 5) == 32768;
      PowAdd(8, 5, 5);
  }

  lemma RadixBaseTable3(radix: nat)
    requires 9 <= radix <= 13
    ensures Pow(radix, DIGITS_PER_LIMB[radix - 2]) == RadixBase(radix)
  {
    match radix
    case 9 =>
      assert Pow(9, 5) == 59049;
      PowAdd(9, 5, 5);
    case 10 =>
      assert Pow(10, 4) == 10000;
      PowAdd(10, 4, 5);
    case 11 =>
      assert Pow(11, 4) == 14641;
      PowAdd(11, 4, 5);
    case 12 =>
      assert Pow(12, 4) == 20736;
      PowAdd(12, 4, 4);
    case _ =>
      assert Pow(13, 4) == 28561;
      PowAdd(13, 4, 4);
  }

  lemma RadixBaseTable4(radix: nat)
    requires 14 <= radix <= 19
    ensures Pow(radix, DIGITS_PER_LIMB[radix - 2]) == RadixBase(radix)
  {
    match radix
    case 14 =>
      assert Pow(14, 4) == 38416;
      PowAdd(14, 4, 4);
    case 15 =>
      assert Pow(15, 4) == 50625;
      PowAdd(15, 4, 4);
    case 16 =>
      assert Pow(16, 4) == 65536;
      PowAdd(16, 4, 4);
    case 17 =>
      assert Pow(17, 3) == 4913;
      PowAdd(17, 3, 4);
    case 18 =>
      assert Pow(18, 3) == 5832;
      PowAdd(18, 3, 4);
    case _ =>
      assert Pow(19, 3) == 6859;
      PowAdd(19, 3, 4);
  }

  lemma RadixBaseTable5(radix: nat)
    requires 20 <= radix <= 25
    ensures Pow(radix, DIGITS_PER_LIMB[radix - 2]) == RadixBase(radix)
  {
    match radix
    case 20 =>
      assert Pow(20, 3) == 8000;
      PowAdd(20, 3, 4);
    case 21 =>
      assert Pow(21, 3) == 9261;
      PowAdd(21, 3, 4);
    case 22 =>
      assert Pow(22, 3) == 10648;
      PowAdd(22, 3, 4);
    case 23 =>
      assert Pow(23, 3) == 12167;
      PowAdd(23, 3, 4);
    case 24 =>
      assert Pow(24, 3) == 13824;
      PowAdd(24, 3, 3);
    case _ =>
      assert Pow(25, 3) == 15625;
      PowAdd(25, 3, 3);
  }

  lemma RadixBaseTable6(radix: nat)
    requires 26 <= radix <= 31
    ensures Pow(radix, DIGITS_PER_LIMB[radix - 2]) == RadixBase(radix)
  {
    match radix
    case 26 =>
      assert Pow(26, 3) == 17576;
      PowAdd(26, 3, 3);
    case 27 =>
      assert Pow(27, 3) == 19683;
      PowAdd(27, 3, 3);
    case 28 =>
      assert Pow(28, 3) == 21952;
      PowAdd(28, 3, 3);
    case 29 =>
      assert Pow(29, 3) == 24389;
      PowAdd(29, 3, 3);
    case 30 =>
      assert Pow(30, 3) == 27000;
      PowAdd(30, 3, 3);
    case _ =>
      assert Pow(31, 3) == 29791;
      PowAdd(31, 3, 3);
  }

  lemma RadixBaseTable7(radix: nat)
    requires 32 <= radix <= 36
    ensures Pow(radix, DIGITS_PER_LIMB[radix - 2]) == RadixBase(radix)
  {
    match radix
    case 32 =>
      assert Pow(32, 3) == 32768;
      PowAdd(32, 3, 3);
    case 33 =>
      assert Pow(33, 3) == 35937;
      PowAdd(33, 3, 3);
    case 34 =>
      assert Pow(34, 3) == 39304;
      PowAdd(34, 3, 3);
    case 35 =>
      assert Pow(35, 3) == 42875;
      PowAdd(35, 3, 3);
    case _ =>
      assert Pow(36, 3) == 46656;
      PowAdd(36, 3, 3);
  }
}

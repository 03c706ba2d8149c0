/** Little-endian storage of the fixed-width integers that DynBuf writes. */
module Bytes {
  type byte = b: int | 0 <= b < 256

  const TWO16 := 0x1_0000
  const TWO31 := 0x8000_0000
  const TWO32 := 0x1_0000_0000
  const INT32_MAX := 0x7fff_ffff
  const UINT32_MAX := 0xffff_ffff

  function U16(x: int): (s: seq<byte>)
    ensures |s| == 2
  {
    [x % 256, (x / 256) % 256]
  }

  /** put_u32: the low 32 bits of x, so that a negative x is stored in two's complement. */
  function U32(x: int): (s: seq<byte>)
    ensures |s| == 4
  {
    [x % 256, (x / 256) % 256, (x / 256 / 256) % 256, (x / 256 / 256 / 256) % 256]
  }

  function GetU16(s: seq<byte>, p: nat): nat
    requires p + 2 <= |s|
  {
    s[p] as int + 256 * s[p + 1] as int
  }

  function GetU32(s: seq<byte>, p: nat): nat
    requires p + 4 <= |s|
  {
    s[p] as int + 256 * s[p + 1] as int + 0x1_0000 * s[p + 2] as int + 0x100_0000 * s[p + 3] as int
  }

  /** The bytes t are stored in s from position p on. */
  ghost predicate Stored(s: seq<byte>, p: int, t: seq<byte>) {
    0 <= p && p + |t| <= |s| && s[p..p + |t|] == t
  }

  lemma StoredSplit(s: seq<byte>, p: int, a: seq<byte>, b: seq<byte>)
    ensures Stored(s, p, a + b) <==> Stored(s, p, a) && Stored(s, p + |a|, b)
  {
    if 0 <= p && p + |a| + |b| <= |s| {
      assert s[p..p + |a + b|] == s[p..p + |a|] + s[p + |a|..p + |a| + |b|];
      assert (a + b)[..|a|] == a && (a + b)[|a|..] == b;
    }
  }

  /** The cast (int)val of a stored 32-bit operand. */
  function ToInt32(v: nat): int { if v < TWO31 then v else v - TWO32 }

  lemma U16RoundTrip(x: int, s: seq<byte>, p: nat)
    requires 0 <= x < TWO16 && Stored(s, p, U16(x))
    ensures GetU16(s, p) == x
  {
    assert s[p..p + 2][0] == s[p] && s[p..p + 2][1] == s[p + 1];
  }

  lemma U32Value(x: int)
    ensures exists q :: x == TWO32 * q + GetU32(U32(x), 0)
  {
    var q1 := x / 256;
    var q2 := q1 / 256;
    var q3 := q2 / 256;
    var q4 := q3 / 256;
    assert x == 256 * q1 + x % 256;
    assert q1 == 256 * q2 + q1 % 256;
    assert q2 == 256 * q3 + q2 % 256;
    assert q3 == 256 * q4 + q3 % 256;
    assert x == TWO32 * q4 + GetU32(U32(x), 0);
  }

  lemma U32RoundTrip(x: int, s: seq<byte>, p: nat)
    requires Stored(s, p, U32(x))
    ensures 0 <= x < TWO32 ==> GetU32(s, p) == x
    ensures -TWO31 <= x < TWO31 ==> ToInt32(GetU32(s, p)) == x
  {
    var e := s[p..p + 4];
    assert s[p] == e[0] && s[p + 1] == e[1] && s[p + 2] == e[2] && s[p + 3] == e[3];
    assert GetU32(s, p) == GetU32(U32(x), 0);
    U32Value(x);
  }
}

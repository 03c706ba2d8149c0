/**
 Character properties as run-length tables: decoding a table from its start into intervals, and looking one character
 up through an index of block starts.
 */
module RunLengthTables {
  import opened Bytes
  import opened Wrappers
  import opened CharRanges

  // ----- one code of the table -----

  /** Bytes taken by the code that starts with b. */
  function Width(b: byte): (w: nat) {
    if b < 0x40 || b >= 0x80 then 1 else if b < 0x60 then 2 else 3
  }

  /** A byte below 0x40 packs two runs. */
  predicate IsPair(b: byte) {
    b < 0x40
  }

  /** The length of the run that the code at pos gives, the first one for a pair. */
  function RunLength(table: seq<byte>, pos: nat): (n: nat)
    requires pos < |table| && pos + Width(table[pos]) <= |table|
    ensures n > 0
  {
    var b: int := table[pos];
    if b < 0x40 then b / 8 + 1
    else if b >= 0x80 then b - 0x80 + 1
    else
      var b1: int := table[pos + 1];
      if b < 0x60 then (b - 0x40) * 0x100 + b1 + 1
      else (b - 0x60) * 0x1_0000 + b1 * 0x100 + table[pos + 2] as int + 1
  }

  function SecondLength(b: byte): (n: nat)
    ensures n > 0
  {
    b % 8 + 1
  }

  /** The codes from pos on fill the table exactly. */
  predicate Whole(table: seq<byte>, pos: nat)
    decreases |table| - pos
  {
    pos == |table| || (pos < |table| && pos + Width(table[pos]) <= |table| && Whole(table, pos + Width(table[pos])))
  }

  /** The decoder: the next byte, the first character of the next run, and whether that run is in the set. */
  datatype Decoder = Decoder(pos: nat, code: nat, bit: bool)

  /** Decoding the code at the current position. */
  function Advance(table: seq<byte>, d: Decoder): (e: Decoder)
    requires d.pos < |table| && Whole(table, d.pos)
    ensures d.pos < e.pos <= |table| && Whole(table, e.pos) && e.code > d.code
  {
    var b := table[d.pos];
    var code := d.code + RunLength(table, d.pos);
    if IsPair(b) then Decoder(d.pos + 1, code + SecondLength(b), d.bit)
    else Decoder(d.pos + Width(b), code, !d.bit)
  }

  // ----- decoding in a line -----

  /** Whether c, not before the current run, is in the set that the rest of the table describes. */
  predicate Member(table: seq<byte>, d: Decoder, c: int)
    requires Whole(table, d.pos)
    decreases |table| - d.pos
  {
    if d.pos == |table| then false
    else
      var code := d.code + RunLength(table, d.pos);
      var e := Advance(table, d);
      if c < code then d.bit
      else if c < e.code then !d.bit
      else Member(table, e, c)
  }

  /** The decoder gets to another state. */
  predicate Arrives(table: seq<byte>, d: Decoder, e: Decoder)
    requires Whole(table, d.pos)
    ensures Arrives(table, d, e) ==> Whole(table, e.pos) && d.code <= e.code
    decreases |table| - d.pos
  {
    d == e || (d.pos < |table| && Arrives(table, Advance(table, d), e))
  }

  /** The first character after all runs. */
  function EndCode(table: seq<byte>, d: Decoder): (n: nat)
    requires Whole(table, d.pos)
    ensures n >= d.code
    decreases |table| - d.pos
  {
    if d.pos == |table| then d.code else EndCode(table, Advance(table, d))
  }

  /** Nothing before a later state matters for the characters from there on. */
  lemma {:induction false} ArrivesSameMember(table: seq<byte>, d: Decoder, e: Decoder, c: int)
    requires Whole(table, d.pos) && Arrives(table, d, e) && c >= e.code
    ensures Member(table, d, c) == Member(table, e, c)
    decreases |table| - d.pos
  {
    if d != e {
      ArrivesSameMember(table, Advance(table, d), e, c);
    }
  }

  lemma {:induction false} ArrivesSameEnd(table: seq<byte>, d: Decoder, e: Decoder)
    requires Whole(table, d.pos) && Arrives(table, d, e)
    ensures EndCode(table, d) == EndCode(table, e)
    decreases |table| - d.pos
  {
    if d != e {
      ArrivesSameEnd(table, Advance(table, d), e);
    }
  }

  lemma {:induction false} ArrivesNext(table: seq<byte>, d: Decoder, e: Decoder)
    requires Whole(table, d.pos) && Arrives(table, d, e) && e.pos < |table|
    ensures Arrives(table, d, Advance(table, e))
    decreases |table| - d.pos
  {
    if d != e {
      ArrivesNext(table, Advance(table, d), e);
    }
  }

  const START := Decoder(0, 0, false)

  /** Where the decoding stands: the intervals found are the set up to the current run. */
  ghost predicate Decoded(s: seq<int>, table: seq<byte>, d: Decoder)
    requires Whole(table, 0)
  {
    && Normal(s) && (forall k | 0 <= k < |s| :: if d.bit then s[k] < d.code else s[k] <= d.code)
    && (forall c: int | c >= 0 :: In(s, c) <==> c < d.code && Member(table, START, c))
  }

  /** The intervals after one more code. */
  function WithCode(s: seq<int>, table: seq<byte>, d: Decoder): seq<int>
    requires d.pos < |table| && Whole(table, d.pos)
  {
    var code, end := d.code + RunLength(table, d.pos), Advance(table, d).code;
    if IsPair(table[d.pos]) then
      if d.bit then s + [d.code, code] else s + [code, end]
    else
      if d.bit then s + [d.code, end] else s
  }

  /** The runs of one code, as the interval that it adds to the set. */
  lemma CodeAdds(s: seq<int>, table: seq<byte>, d: Decoder, c: int)
    requires d.pos < |table| && Whole(table, d.pos) && |s| % 2 == 0 && c >= d.code && !In(s, c)
    ensures In(WithCode(s, table, d), c) <==> c < Advance(table, d).code && Member(table, d, c)
  {
    hide In, RunLength;
    var code, end := d.code + RunLength(table, d.pos), Advance(table, d).code;
    InPush(s, d.code, code, c);
    InPush(s, code, end, c);
    InPush(s, d.code, end, c);
  }

  lemma CodeKeeps(s: seq<int>, table: seq<byte>, d: Decoder, c: int)
    requires d.pos < |table| && Whole(table, d.pos) && |s| % 2 == 0 && c < d.code
    ensures In(WithCode(s, table, d), c) <==> In(s, c)
  {
    hide In, RunLength;
    var code, end := d.code + RunLength(table, d.pos), Advance(table, d).code;
    InPush(s, d.code, code, c);
    InPush(s, code, end, c);
    InPush(s, d.code, end, c);
  }

  lemma NormalPush(s: seq<int>, a: int, b: int)
    requires Normal(s) && a < b && forall k | 0 <= k < |s| :: s[k] < a
    ensures Normal(s + [a, b]) && forall k | 0 <= k < |s + [a, b]| :: (s + [a, b])[k] <= b
  {
  }

  lemma NormalNext(s: seq<int>, table: seq<byte>, d: Decoder)
    requires Whole(table, d.pos) && d.pos < |table| && Normal(s)
    requires forall k | 0 <= k < |s| :: if d.bit then s[k] < d.code else s[k] <= d.code
    ensures var t, e := WithCode(s, table, d), Advance(table, d);
            Normal(t) && forall k | 0 <= k < |t| :: if e.bit then t[k] < e.code else t[k] <= e.code
  {
    hide RunLength, Normal;
    var code, end := d.code + RunLength(table, d.pos), Advance(table, d).code;
    if d.bit {
      NormalPush(s, d.code, if IsPair(table[d.pos]) then code else end);
    } else if IsPair(table[d.pos]) {
      NormalPush(s, code, end);
    }
  }

  lemma DecodedNext(s: seq<int>, table: seq<byte>, d: Decoder)
    requires Whole(table, 0) && Whole(table, d.pos) && d.pos < |table| && Arrives(table, START, d) && Decoded(s, table, d)
    ensures Decoded(WithCode(s, table, d), table, Advance(table, d))
  {
    hide In, RunLength, Arrives, Member, Whole;
    var t, e := WithCode(s, table, d), Advance(table, d);
    NormalNext(s, table, d);
    forall c: int | c >= 0 ensures In(t, c) <==> c < e.code && Member(table, START, c) {
      assert In(s, c) <==> c < d.code && Member(table, START, c);
      hide NonDecreasing, StrictlyIncreasing, WithCode, Advance;
      if c >= d.code {
        ArrivesSameMember(table, START, d, c);
        CodeAdds(s, table, d, c);
      } else {
        CodeKeeps(s, table, d, c);
      }
    }
  }

  /** s lists the set that the table describes. */
  ghost predicate DecodesTo(table: seq<byte>, s: seq<int>)
    requires Whole(table, 0)
  {
    Normal(s) && forall c: int | c >= 0 :: In(s, c) <==> Member(table, START, c)
  }

  /** unicode_prop1: decode the whole table into intervals. */
  method DecodeProperty(table: seq<byte>, cr: CharRange)
    requires Whole(table, 0) && EndCode(table, START) <= UINT32_MAX && cr.points == []
    modifies cr
    ensures DecodesTo(table, cr.points)
  {
    var p, c, bit := 0, 0, false;
    ghost var d := START;
    assert forall k: nat, x: int :: !Covers([], k, x);
    while p < |table|
      invariant 0 <= p <= |table| && 0 <= c && d == Decoder(p, c, bit) && Whole(table, p) && Arrives(table, START, d)
      invariant Decoded(cr.points, table, d)
    {
      hide In, Whole, RunLength, Arrives, Decoded;
      DecodedNext(cr.points, table, d);
      ArrivesNext(table, START, d);
      ghost var next := Advance(table, d);
      ArrivesSameEnd(table, START, next);
      assert next.code <= UINT32_MAX;
      WholeFits(table, p);
      var c0 := c;
      var b := table[p];
      c := c + RunLength(table, p);
      if b < 0x40 {
        if bit {
          cr.AddInterval(c0, c);
        }
        bit := !bit;
        c0 := c;
        c := c + SecondLength(b);
      }
      p := p + Width(b);
      if bit {
        cr.AddInterval(c0, c);
      }
      bit := !bit;
      d := next;
    }
    forall x: int | x >= 0 ensures In(cr.points, x) <==> Member(table, START, x) {
      if x >= c {
        ArrivesSameMember(table, START, d, x);
      }
    }
  }

  lemma WholeFits(table: seq<byte>, pos: nat)
    requires Whole(table, pos) && pos < |table|
    ensures pos + Width(table[pos]) <= |table| && Whole(table, pos + Width(table[pos]))
  {
  }

  // ----- the index -----

  /** Three bytes, the lowest first. */
  function GetLe24(s: seq<byte>, i: nat): (v: nat)
    requires 3 * i + 2 < |s|
    ensures v < 0x100_0000
  {
    s[3 * i] as int + s[3 * i + 1] as int * 0x100 + s[3 * i + 2] as int * 0x1_0000
  }

  /** The first character of a block: the low 21 bits of its index entry. */
  function BlockCode(index: seq<byte>, i: nat): nat
    requires 3 * i + 2 < |index|
  {
    GetLe24(index, i) % 0x20_0000
  }

  /** Where a block starts in the table: near a multiple of 32, as the upper 3 bits of its entry say. */
  function BlockPos(index: seq<byte>, i: nat): nat
    requires 3 * i + 2 < |index|
  {
    (i + 1) * 32 + GetLe24(index, i) / 0x20_0000
  }

  /**
   Every entry but the last is a point that the decoder passes with the bit clear; the last one is the character after
   all runs.
   */
  ghost predicate IndexFits(table: seq<byte>, index: seq<byte>, n: nat)
    requires Whole(table, 0)
  {
    && 1 <= n && |index| == 3 * n
    && (forall i: nat | i < n - 1 :: Arrives(table, START, Decoder(BlockPos(index, i), BlockCode(index, i), false)))
    && GetLe24(index, n - 1) == EndCode(table, START) < 0x20_0000
  }

  /** get_index_pos: the block to search for c, or nothing when c is after all runs. */
  method GetIndexPos(ghost table: seq<byte>, index: seq<byte>, n: nat, c: nat) returns (r: Option<(nat, nat)>)
    requires Whole(table, 0) && IndexFits(table, index, n)
    ensures r.None? ==> c >= EndCode(table, START)
    ensures r.Some? ==> c < EndCode(table, START) && r.value.1 <= c
    ensures r.Some? ==> Arrives(table, START, Decoder(r.value.0, r.value.1, false))
  {
    if c < BlockCode(index, 0) {
      if n > 1 {
        ArrivesSameEnd(table, START, Decoder(BlockPos(index, 0), BlockCode(index, 0), false));
      }
      return Some((0, 0));
    }
    var idxMin, idxMax := 0, n - 1;
    if c >= GetLe24(index, idxMax) {
      return None;
    }
    while idxMax - idxMin > 1
      invariant 0 <= idxMin < idxMax < n && BlockCode(index, idxMin) <= c
    {
      var idx := (idxMax + idxMin) / 2;
      if c < BlockCode(index, idx) {
        idxMax := idx;
      } else {
        idxMin := idx;
      }
    }
    return Some((BlockPos(index, idxMin), BlockCode(index, idxMin)));
  }

  /** lre_is_in_table: search one block for c. */
  method IsInTable(c: nat, table: seq<byte>, index: seq<byte>, n: nat) returns (r: bool)
    requires Whole(table, 0) && IndexFits(table, index, n)
    ensures r == Member(table, START, c)
    ensures forall s: seq<int> | DecodesTo(table, s) :: r == In(s, c)
  {
    var start := GetIndexPos(table, index, n, c);
    if start.None? {
      MemberEnds(table, START, c);
      return false;
    }
    var p: nat, code: nat, bit := start.value.0, start.value.1, false;
    ghost var d := Decoder(p, code, bit);
    ArrivesSameMember(table, START, d, c);
    ArrivesSameEnd(table, START, d);
    while true
      invariant p <= |table| && d == Decoder(p, code, bit) && Whole(table, p) && code <= c < EndCode(table, d)
      invariant Member(table, START, c) == Member(table, d, c)
      decreases |table| - p
    {
      d := Advance(table, d);
      var b := table[p];
      code := code + RunLength(table, p);
      p := p + Width(b);
      if b < 0x40 {
        if c < code {
          return bit;
        }
        bit := !bit;
        code := code + SecondLength(b);
      }
      if c < code {
        return bit;
      }
      bit := !bit;
    }
  }

  lemma {:induction false} MemberEnds(table: seq<byte>, d: Decoder, c: int)
    requires Whole(table, d.pos) && c >= EndCode(table, d)
    ensures !Member(table, d, c)
    decreases |table| - d.pos
  {
    if d.pos < |table| {
      MemberEnds(table, Advance(table, d), c);
    }
  }
}

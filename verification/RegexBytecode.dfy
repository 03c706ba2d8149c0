/** The instruction set of libregexp-opcode.h, its byte encoding and its decoder. */
module RegexBytecode {
  import opened Bytes
  import opened Wrappers

  type Pair = (nat, nat)

  // Jump operands are byte offsets relative to the end of the instruction.
  datatype Instr =
    | Char(wide: bool, icase: bool, c: nat)
    | Dot
    | Any
    | LineStart(multi: bool)
    | LineEnd(multi: bool)
    | Goto(off: int)
    | Split(nextFirst: bool, off: int)
    | Match
    | Save(isEnd: bool, idx: nat)
    | SaveReset(first: nat, last: nat)
    | Loop(off: int)
    | PushI32(val: nat)
    | Drop
    | WordBoundary(negated: bool, icase: bool)
    | BackRef(backward: bool, icase: bool, idx: nat)
    | Range(wide: bool, icase: bool, pairs: seq<Pair>)
    | Look(negated: bool, off: int)
    | PushCharPos
    | CheckAdvance
    | Prev
    | SimpleGreedyQuant(off: int, min: nat, max: nat, charCount: nat)

  function Flag(b: bool): nat { if b then 1 else 0 }

  function OpCode(i: Instr): byte {
    match i
    case Char(wide, icase, _) => 1 + 2 * Flag(wide) + Flag(icase)
    case Dot => 5
    case Any => 6
    case LineStart(m) => 7 + Flag(m)
    case LineEnd(m) => 9 + Flag(m)
    case Goto(_) => 11
    case Split(nextFirst, _) => 12 + Flag(nextFirst)
    case Match => 14
    case Save(isEnd, _) => 15 + Flag(isEnd)
    case SaveReset(_, _) => 17
    case Loop(_) => 18
    case PushI32(_) => 19
    case Drop => 20
    case WordBoundary(negated, icase) => 21 + 2 * Flag(negated) + Flag(icase)
    case BackRef(backward, icase, _) => 25 + 2 * Flag(backward) + Flag(icase)
    case Range(wide, icase, _) => 29 + 2 * Flag(wide) + Flag(icase)
    case Look(negated, _) => 33 + Flag(negated)
    case PushCharPos => 35
    case CheckAdvance => 36
    case Prev => 37
    case SimpleGreedyQuant(_, _, _, _) => 38
  }

  function PairBytes(wide: bool, p: Pair): seq<byte> {
    if wide then U32(p.0) + U32(p.1) else U16(p.0) + U16(p.1)
  }

  function PairsBytes(wide: bool, pairs: seq<Pair>): (s: seq<byte>)
    ensures |s| == |pairs| * PairSize(wide)
  {
    if pairs == [] then [] else PairBytes(wide, pairs[0]) + PairsBytes(wide, pairs[1..])
  }

  function PairSize(wide: bool): nat { if wide then 8 else 4 }

  function Operands(i: Instr): seq<byte> {
    match i
    case Char(wide, _, c) => if wide then U32(c) else U16(c)
    case Goto(off) => U32(off)
    case Split(_, off) => U32(off)
    case Save(_, idx) => [idx % 256]
    case SaveReset(first, last) => [first % 256, last % 256]
    case Loop(off) => U32(off)
    case PushI32(val) => U32(val)
    case BackRef(_, _, idx) => [idx % 256]
    case Range(wide, _, pairs) => U16(|pairs|) + PairsBytes(wide, pairs)
    case Look(_, off) => U32(off)
    case SimpleGreedyQuant(off, min, max, charCount) => U32(off) + U32(min) + U32(max) + U32(charCount)
    case _ => []
  }

  function Enc(i: Instr): seq<byte> { [OpCode(i)] + Operands(i) }

  /** reopcode_info[opcode].size, plus the pairs of a range. */
  function InstrSize(i: Instr): (n: nat)
    ensures n == |Enc(i)| >= 1
  {
    match i
    case Char(wide, _, _) => if wide then 5 else 3
    case Goto(_) => 5
    case Split(_, _) => 5
    case Save(_, _) => 2
    case SaveReset(_, _) => 3
    case Loop(_) => 5
    case PushI32(_) => 5
    case BackRef(_, _, _) => 2
    case Range(wide, _, pairs) => 3 + |pairs| * PairSize(wide)
    case Look(_, _) => 5
    case SimpleGreedyQuant(_, _, _, _) => 17
    case _ => 1
  }

  predicate IsInt32(x: int) { -TWO31 <= x < TWO31 }

  predicate PairFits(wide: bool, p: Pair) {
    if wide then p.0 < TWO32 && p.1 < TWO32 else p.0 < TWO16 && p.1 < TWO16
  }

  /** Every operand fits the field it is stored in. */
  predicate Encodable(i: Instr) {
    match i
    case Char(wide, _, c) => if wide then c < TWO32 else c < TWO16
    case Goto(off) => IsInt32(off)
    case Split(_, off) => IsInt32(off)
    case Save(_, idx) => idx < 256
    case SaveReset(first, last) => first < 256 && last < 256
    case Loop(off) => IsInt32(off)
    case PushI32(val) => val < TWO32
    case BackRef(_, _, idx) => idx < 256
    case Range(wide, _, pairs) => 1 <= |pairs| < TWO16 && forall k | 0 <= k < |pairs| :: PairFits(wide, pairs[k])
    case Look(_, off) => IsInt32(off)
    case SimpleGreedyQuant(off, min, max, charCount) =>
      IsInt32(off) && min < TWO32 && max < TWO32 && charCount < TWO32
    case _ => true
  }

  function DecPairs(wide: bool, s: seq<byte>, p: nat, n: nat): seq<Pair>
    requires p + n * PairSize(wide) <= |s|
    decreases n
  {
    if n == 0 then []
    else if wide then [(GetU32(s, p), GetU32(s, p + 4))] + DecPairs(wide, s, p + 8, n - 1)
    else [(GetU16(s, p), GetU16(s, p + 2))] + DecPairs(wide, s, p + 4, n - 1)
  }

  /** Number of bytes of the fixed part of the instruction with this opcode (0: invalid opcode). */
  function FixedSize(op: byte): nat {
    if op == 0 || op > 38 then 0
    else if op <= 2 then 3
    else if op <= 4 then 5
    else if op <= 10 then 1
    else if op <= 13 then 5
    else if op == 14 then 1
    else if op <= 16 then 2
    else if op == 17 then 3
    else if op <= 19 then 5
    else if op <= 24 then 1
    else if op <= 28 then 2
    else if op <= 32 then 3
    else if op <= 34 then 5
    else if op <= 37 then 1
    else 17
  }

  /** The instruction that starts at byte pc, if one does. */
  function Fetch(s: seq<byte>, pc: int): (r: Option<Instr>)
    ensures r.Some? ==> 0 <= pc && pc + InstrSize(r.value) <= |s|
  {
    if pc < 0 || pc >= |s| then None
    else
      var op := s[pc];
      if FixedSize(op) == 0 || pc + FixedSize(op) > |s| then None
      else if op <= 2 then Some(Char(false, op == 2, GetU16(s, pc + 1)))
      else if op <= 4 then Some(Char(true, op == 4, GetU32(s, pc + 1)))
      else if op == 5 then Some(Dot)
      else if op == 6 then Some(Any)
      else if op <= 8 then Some(LineStart(op == 8))
      else if op <= 10 then Some(LineEnd(op == 10))
      else if op == 11 then Some(Goto(ToInt32(GetU32(s, pc + 1))))
      else if op <= 13 then Some(Split(op == 13, ToInt32(GetU32(s, pc + 1))))
      else if op == 14 then Some(Match)
      else if op <= 16 then Some(Save(op == 16, s[pc + 1]))
      else if op == 17 then Some(SaveReset(s[pc + 1], s[pc + 2]))
      else if op == 18 then Some(Loop(ToInt32(GetU32(s, pc + 1))))
      else if op == 19 then Some(PushI32(GetU32(s, pc + 1)))
      else if op == 20 then Some(Drop)
      else if op <= 24 then Some(WordBoundary(op >= 23, op == 22 || op == 24))
      else if op <= 28 then Some(BackRef(op >= 27, op == 26 || op == 28, s[pc + 1]))
      else if op <= 32 then
        var n := GetU16(s, pc + 1);
        var wide := op >= 31;
        if pc + 3 + n * PairSize(wide) > |s| then None
        else
          DecPairsLength(wide, s, pc + 3, n);
          Some(Range(wide, op == 30 || op == 32, DecPairs(wide, s, pc + 3, n)))
      else if op <= 34 then Some(Look(op == 34, ToInt32(GetU32(s, pc + 1))))
      else if op == 35 then Some(PushCharPos)
      else if op == 36 then Some(CheckAdvance)
      else if op == 37 then Some(Prev)
      else Some(SimpleGreedyQuant(ToInt32(GetU32(s, pc + 1)), GetU32(s, pc + 5), GetU32(s, pc + 9), GetU32(s, pc + 13)))
  }

  lemma DecPairsLength(wide: bool, s: seq<byte>, p: nat, n: nat)
    requires p + n * PairSize(wide) <= |s|
    ensures |DecPairs(wide, s, p, n)| == n
    decreases n
  {
    if n > 0 {
      DecPairsLength(wide, s, p + PairSize(wide), n - 1);
    }
  }

  lemma PairRoundTrip(wide: bool, pair: Pair, s: seq<byte>, p: nat)
    requires PairFits(wide, pair) && Stored(s, p, PairBytes(wide, pair))
    ensures p + PairSize(wide) <= |s| && DecPairs(wide, s, p, 1) == [pair]
  {
    if wide {
      StoredSplit(s, p, U32(pair.0), U32(pair.1));
      U32RoundTrip(pair.0, s, p);
      U32RoundTrip(pair.1, s, p + 4);
    } else {
      StoredSplit(s, p, U16(pair.0), U16(pair.1));
      U16RoundTrip(pair.0, s, p);
      U16RoundTrip(pair.1, s, p + 2);
    }
  }

  lemma DecPairsStep(wide: bool, s: seq<byte>, p: nat, n: nat)
    requires n >= 1 && p + n * PairSize(wide) <= |s|
    ensures DecPairs(wide, s, p, n) == DecPairs(wide, s, p, 1) + DecPairs(wide, s, p + PairSize(wide), n - 1)
  {
    assert DecPairs(wide, s, p + PairSize(wide), 0) == [];
  }

  lemma {:induction false} PairsRoundTrip(wide: bool, pairs: seq<Pair>, s: seq<byte>, p: nat)
    requires forall k | 0 <= k < |pairs| :: PairFits(wide, pairs[k])
    requires Stored(s, p, PairsBytes(wide, pairs))
    ensures p + |pairs| * PairSize(wide) <= |s| && DecPairs(wide, s, p, |pairs|) == pairs
    decreases |pairs|
  {
    if pairs == [] {
    } else {
      StoredSplit(s, p, PairBytes(wide, pairs[0]), PairsBytes(wide, pairs[1..]));
      PairRoundTrip(wide, pairs[0], s, p);
      PairsRoundTrip(wide, pairs[1..], s, p + PairSize(wide));
      DecPairsStep(wide, s, p, |pairs|);
    }
  }

  /** Decoding what was encoded gives the instruction back. */
  lemma FetchEnc(i: Instr, s: seq<byte>, pc: nat)
    requires Encodable(i) && Stored(s, pc, Enc(i))
    ensures Fetch(s, pc) == Some(i)
  {
    StoredSplit(s, pc, [OpCode(i)], Operands(i));
    assert s[pc..pc + 1][0] == s[pc];
    match i {
      case Save(_, _) => FetchBytes(i, s, pc);
      case SaveReset(_, _) => FetchBytes(i, s, pc);
      case BackRef(_, _, _) => FetchBytes(i, s, pc);
      case Char(_, _, _) => FetchChar(i, s, pc);
      case Goto(_) => FetchWord(i, s, pc, i.off);
      case Split(_, _) => FetchWord(i, s, pc, i.off);
      case Loop(_) => FetchWord(i, s, pc, i.off);
      case PushI32(_) => FetchWord(i, s, pc, i.val);
      case Look(_, _) => FetchWord(i, s, pc, i.off);
      case Range(_, _, _) => FetchRange(i, s, pc);
      case SimpleGreedyQuant(_, _, _, _) => FetchQuant(i, s, pc);
      case _ =>
    }
  }

  ghost predicate At(i: Instr, s: seq<byte>, pc: nat) {
    Encodable(i) && pc < |s| && s[pc] == OpCode(i) && Stored(s, pc + 1, Operands(i))
  }

  lemma FetchBytes(i: Instr, s: seq<byte>, pc: nat)
    requires (i.Save? || i.SaveReset? || i.BackRef?) && At(i, s, pc)
    ensures Fetch(s, pc) == Some(i)
  {
    var e := s[pc + 1..pc + 1 + |Operands(i)|];
    assert e[0] == s[pc + 1];
    if i.SaveReset? { assert e[1] == s[pc + 2]; }
  }

  lemma FetchChar(i: Instr, s: seq<byte>, pc: nat)
    requires i.Char? && At(i, s, pc)
    ensures Fetch(s, pc) == Some(i)
  {
    if i.wide { U32RoundTrip(i.c, s, pc + 1); } else { U16RoundTrip(i.c, s, pc + 1); }
  }

  lemma FetchWord(i: Instr, s: seq<byte>, pc: nat, x: int)
    requires (i.Goto? && i.off == x) || (i.Split? && i.off == x) || (i.Loop? && i.off == x) ||
             (i.Look? && i.off == x) || (i.PushI32? && i.val == x)
    requires At(i, s, pc)
    ensures Fetch(s, pc) == Some(i)
  {
    U32RoundTrip(x, s, pc + 1);
  }

  lemma FetchRange(i: Instr, s: seq<byte>, pc: nat)
    requires i.Range? && At(i, s, pc)
    ensures Fetch(s, pc) == Some(i)
  {
    hide PairsBytes, DecPairs, PairFits, Fetch;
    StoredSplit(s, pc + 1, U16(|i.pairs|), PairsBytes(i.wide, i.pairs));
    U16RoundTrip(|i.pairs|, s, pc + 1);
    PairsRoundTrip(i.wide, i.pairs, s, pc + 3);
    FetchRangeOp(s, pc, i.wide, i.icase);
  }

  lemma FetchRangeOp(s: seq<byte>, pc: nat, wide: bool, icase: bool)
    requires pc + 3 <= |s| && s[pc] == 29 + 2 * Flag(wide) + Flag(icase)
    requires pc + 3 + GetU16(s, pc + 1) * PairSize(wide) <= |s|
    ensures Fetch(s, pc) == Some(Range(wide, icase, DecPairs(wide, s, pc + 3, GetU16(s, pc + 1))))
  {
  }

  lemma FetchQuantOp(s: seq<byte>, pc: nat)
    requires pc + 17 <= |s| && s[pc] == 38
    ensures Fetch(s, pc) ==
            Some(SimpleGreedyQuant(ToInt32(GetU32(s, pc + 1)), GetU32(s, pc + 5), GetU32(s, pc + 9), GetU32(s, pc + 13)))
  {
  }

  lemma FetchQuant(i: Instr, s: seq<byte>, pc: nat)
    requires i.SimpleGreedyQuant? && At(i, s, pc)
    ensures Fetch(s, pc) == Some(i)
  {
    var a, b, c, d := U32(i.off), U32(i.min), U32(i.max), U32(i.charCount);
    StoredSplit(s, pc + 1, a + b + c, d);
    StoredSplit(s, pc + 1, a + b, c);
    StoredSplit(s, pc + 1, a, b);
    U32RoundTrip(i.off, s, pc + 1);
    U32RoundTrip(i.min, s, pc + 5);
    U32RoundTrip(i.max, s, pc + 9);
    U32RoundTrip(i.charCount, s, pc + 13);
    FetchQuantOp(s, pc);
  }

  // ----- instruction sequences -----

  function EncAll(code: seq<Instr>): (s: seq<byte>)
    ensures |s| == Size(code)
  {
    if code == [] then [] else Enc(code[0]) + EncAll(code[1..])
  }

  /** Byte length of a code fragment. */
  function Size(code: seq<Instr>): nat {
    if code == [] then 0 else InstrSize(code[0]) + Size(code[1..])
  }

  lemma {:induction false} EncAllConcat(a: seq<Instr>, b: seq<Instr>)
    ensures EncAll(a + b) == EncAll(a) + EncAll(b) && Size(a + b) == Size(a) + Size(b)
    decreases |a|
  {
    if a == [] {
      assert a + b == b;
    } else {
      assert (a + b)[1..] == a[1..] + b;
      EncAllConcat(a[1..], b);
    }
  }

  lemma EncAllOne(i: Instr)
    ensures EncAll([i]) == Enc(i) && Size([i]) == InstrSize(i)
  {
    assert EncAll([]) == [];
  }
}

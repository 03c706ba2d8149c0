/** The linear scans over emitted bytes: re_need_check_advance, re_is_simple_quantifier and compute_stack_size. */
module RegexScans {
  import opened Bytes
  import opened RegexBytecode
  import opened RegexCompiler

  /** The number of pairs of each range fits its 16-bit count, so that the scans step over it. */
  ghost predicate Scannable(code: Code) {
    forall k | 0 <= k < |code| :: code[k].Range? ==> |code[k].pairs| < TWO16
  }

  lemma ScannableConcat(a: Code, b: Code)
    ensures Scannable(a + b) <==> Scannable(a) && Scannable(b)
  {
    assert forall k | 0 <= k < |a| :: (a + b)[k] == a[k];
    assert forall k | 0 <= k < |b| :: (a + b)[|a| + k] == b[k];
  }

  /** What a scan reads at the address of an instruction. */
  function ScanSize(bc: seq<byte>, pos: nat): nat
    requires pos < |bc| && (29 <= bc[pos] <= 32 ==> pos + 3 <= |bc|)
  {
    var op := bc[pos];
    FixedSize(op) + (if op == 29 || op == 30 then 4 * GetU16(bc, pos + 1) else if op == 31 || op == 32 then 8 * GetU16(bc, pos + 1) else 0)
  }

  /** The bytes from pos to the end are the instructions of rest. */
  ghost predicate Remaining(bc: seq<byte>, pos: int, rest: Code) {
    Stored(bc, pos, EncAll(rest)) && pos + Size(rest) == |bc| && Scannable(rest)
  }

  lemma RemainingAll(bc: seq<byte>, code: Code)
    requires bc == EncAll(code) && Scannable(code)
    ensures Remaining(bc, 0, code)
  {
    assert bc[0..|bc|] == bc;
  }

  lemma RemainingEnd(bc: seq<byte>, pos: int, rest: Code)
    requires Remaining(bc, pos, rest) && pos >= |bc|
    ensures rest == []
  {
  }

  /** What a scan sees at the address of an instruction. */
  lemma RemainingStep(bc: seq<byte>, pos: int, rest: Code)
    requires Remaining(bc, pos, rest) && pos < |bc|
    ensures rest != [] && 0 <= pos && bc[pos] == OpCode(rest[0]) && (29 <= bc[pos] <= 32 ==> pos + 3 <= |bc|)
    ensures ScanSize(bc, pos) == InstrSize(rest[0])
    ensures Remaining(bc, pos + InstrSize(rest[0]), rest[1..])
  {
    hide EncAll, Operands, Stored, InstrSize, OpCode;
    assert rest != [] by { assert Size([]) == 0; }
    var i := rest[0];
    assert EncAll(rest) == Enc(i) + EncAll(rest[1..]) by { ScanUnfold(rest); }
    StoredSplit(bc, pos, Enc(i), EncAll(rest[1..]));
    StoredSplit(bc, pos, [OpCode(i)], Operands(i));
    StoredByte(bc, pos, OpCode(i));
    ScanRange(bc, pos, i);
    assert forall k | 0 <= k < |rest[1..]| :: rest[1..][k] == rest[k + 1];
  }

  lemma ScanUnfold(code: Code)
    requires code != []
    ensures EncAll(code) == Enc(code[0]) + EncAll(code[1..])
  {
  }

  lemma StoredByte(bc: seq<byte>, pos: int, b: byte)
    requires Stored(bc, pos, [b])
    ensures 0 <= pos < |bc| && bc[pos] == b
  {
    assert bc[pos..pos + 1][0] == bc[pos];
  }

  lemma ScanRange(bc: seq<byte>, pos: int, i: Instr)
    requires 0 <= pos < |bc| && bc[pos] == OpCode(i) && Stored(bc, pos + 1, Operands(i))
    requires i.Range? ==> |i.pairs| < TWO16
    ensures 29 <= bc[pos] <= 32 ==> pos + 3 <= |bc|
    ensures ScanSize(bc, pos) == InstrSize(i)
  {
    if i.Range? {
      StoredSplit(bc, pos + 1, U16(|i.pairs|), PairsBytes(i.wide, i.pairs));
      U16RoundTrip(|i.pairs|, bc, pos + 1);
    }
  }

  lemma OpClass(i: Instr)
    ensures IsCharTest(i) <==> CharTestOp(OpCode(i))
    ensures IsAssertion(i) <==> AssertionOp(OpCode(i))
    ensures IsSimple(i) <==> CharTestOp(OpCode(i)) || AssertionOp(OpCode(i))
    ensures IsPredictable(i) <==> CharTestOp(OpCode(i)) || AssertionOp(OpCode(i)) || OpCode(i) in {15, 16, 17, 19, 20, 25, 26, 27, 28, 35, 37}
    ensures Effect(i) == if OpCode(i) == 19 || OpCode(i) == 35 then 1 else if OpCode(i) == 20 || OpCode(i) == 36 then -1 else 0
  {
  }

  lemma PredictableStep(code: Code)
    requires code != []
    ensures AllPredictable(code) <==> IsPredictable(code[0]) && AllPredictable(code[1..])
    ensures HasCharTest(code) <==> IsCharTest(code[0]) || HasCharTest(code[1..])
    ensures AllSimple(code) <==> IsSimple(code[0]) && AllSimple(code[1..])
    ensures CharTests(code) == (if IsCharTest(code[0]) then 1 else 0) + CharTests(code[1..])
  {
    assert forall k | 0 <= k < |code[1..]| :: code[1..][k] == code[k + 1];
    assert forall k | 1 <= k < |code| :: code[k] == code[1..][k - 1];
  }

  predicate CharTestOp(op: byte) { 1 <= op <= 6 || 29 <= op <= 32 }

  predicate AssertionOp(op: byte) { 7 <= op <= 10 || 21 <= op <= 24 }

  lemma NothingToScan()
    ensures AllPredictable([]) && !HasCharTest([])
  {
  }

  method NeedCheckAdvanceScan(bc: seq<byte>, ghost code: Code) returns (ret: bool)
    requires bc == EncAll(code) && Scannable(code)
    ensures ret == NeedCheckAdvance(code)
  {
    hide Remaining, OpCode, ScanSize, EncAll, InstrSize, IsCharTest, IsPredictable, IsAssertion, AllPredictable, HasCharTest, AllSimple, Scannable;
    ret := true;
    var pos := 0;
    ghost var rest := code;
    RemainingAll(bc, code);
    NothingToScan();
    while pos < |bc|
      invariant Remaining(bc, pos, rest)
      invariant AllPredictable(code) == AllPredictable(rest)
      invariant rest == [] ==> AllPredictable(rest) && !HasCharTest(rest)
      invariant HasCharTest(code) == (!ret || HasCharTest(rest))
      decreases |rest|
    {
      RemainingStep(bc, pos, rest);
      OpClass(rest[0]);
      PredictableStep(rest);
      var op := bc[pos];
      if CharTestOp(op) {
        ret := false;
      } else if AssertionOp(op) || op == 19 || op == 35 || op == 20 || op == 37 {
        // no effect
      } else if op == 15 || op == 16 || op == 17 || 25 <= op <= 28 {
      } else {
        return true;
      }
      pos := pos + ScanSize(bc, pos);
      rest := rest[1..];
    }
    RemainingEnd(bc, pos, rest);
  }

  lemma NoTests()
    ensures AllSimple([]) && CharTests([]) == 0
  {
  }

  method SimpleQuantifierScan(bc: seq<byte>, ghost code: Code) returns (count: int)
    requires bc == EncAll(code) && Scannable(code)
    ensures count == SimpleQuantifier(code)
  {
    hide Remaining, OpCode, ScanSize, EncAll, InstrSize, IsCharTest, IsPredictable, IsAssertion, AllPredictable, HasCharTest, AllSimple, IsSimple, Scannable, CharTests, Size;
    count := 0;
    var pos := 0;
    ghost var rest := code;
    RemainingAll(bc, code);
    NoTests();
    while pos < |bc|
      invariant Remaining(bc, pos, rest)
      invariant AllSimple(code) == AllSimple(rest) && (rest == [] ==> AllSimple(rest) && CharTests(rest) == 0)
      invariant count >= 0 && CharTests(code) == count + CharTests(rest)
      decreases |rest|
    {
      RemainingStep(bc, pos, rest);
      OpClass(rest[0]);
      PredictableStep(rest);
      var op := bc[pos];
      if CharTestOp(op) {
        count := count + 1;
      } else if !AssertionOp(op) {
        return -1;
      }
      pos := pos + ScanSize(bc, pos);
      rest := rest[1..];
    }
    RemainingEnd(bc, pos, rest);
  }

  /** The scan keeps the level on a counter; on balanced code it never goes below zero. */
  ghost predicate NeverBelow(code: Code, level: nat) {
    forall k | 0 <= k <= |code| :: level + Net(code[..k]) >= 0
  }

  lemma NeverBelowStep(code: Code, level: nat)
    requires code != [] && NeverBelow(code, level)
    ensures level + Effect(code[0]) >= 0 && NeverBelow(code[1..], level + Effect(code[0]))
  {
    assert code[..1] == [code[0]];
    assert Net(code[..1]) == Effect(code[0]) + Net([]) by { assert code[..1][1..] == []; }
    forall k | 0 <= k <= |code[1..]| ensures level + Effect(code[0]) + Net(code[1..][..k]) >= 0 {
      assert code[..k + 1][1..] == code[1..][..k];
    }
  }

  /** compute_stack_size, on the byte code after the header; -1 when it exceeds STACK_SIZE_MAX. */
  method ComputeStackSize(bc: seq<byte>, ghost code: Code) returns (max: int)
    requires bc == EncAll(code) && Scannable(code) && NeverBelow(code, 0)
    ensures max == if MaxDepth(code) > STACK_SIZE_MAX then -1 else MaxDepth(code)
  {
    hide Remaining, OpCode, ScanSize, EncAll, InstrSize, IsCharTest, IsPredictable, IsAssertion, AllPredictable, HasCharTest, AllSimple, Scannable;
    var level := 0;
    max := 0;
    var pos := 0;
    ghost var rest := code;
    RemainingAll(bc, code);
    while pos < |bc|
      invariant Remaining(bc, pos, rest)
      invariant 0 <= level <= max <= STACK_SIZE_MAX && NeverBelow(rest, level)
      invariant MaxDepth(code) == if level + MaxDepth(rest) > max then level + MaxDepth(rest) else max
      decreases |rest|
    {
      RemainingStep(bc, pos, rest);
      OpClass(rest[0]);
      NeverBelowStep(rest, level);
      var op := bc[pos];
      if op == 19 || op == 35 {
        level := level + 1;
        if level > max {
          if level > STACK_SIZE_MAX {
            return -1;
          }
          max := level;
        }
      } else if op == 20 || op == 36 {
        level := level - 1;
      }
      pos := pos + ScanSize(bc, pos);
      rest := rest[1..];
    }
    RemainingEnd(bc, pos, rest);
  }
}

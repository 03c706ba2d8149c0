/**
 lre_exec_backtrack as it runs: pc, cptr, the capture and value-stack arrays and the stack of saved states are
 updated in place. Every step is the step of RegexMachine, and execution halts because the machine does.
 */
module RegexExec {
  import opened Bytes
  import opened Wrappers
  import opened RegexSyntax
  import opened RegexBytecode
  import opened RegexReference
  import opened RegexCompiler
  import opened RegexMachine
  import opened RegexProgram
  import RegexLimits
  import opened RegexParser

  /** REOP_range: the bounds, then the binary search. The unsigned idx - 1 never wraps around, because the
      character is not below the first interval. */
  method SearchRange(wide: bool, pairs: seq<Pair>, c: nat) returns (found: bool)
    ensures found == RangeTest(wide, pairs, c)
  {
    var n := |pairs|;
    if n == 0 || c < pairs[0].0 {
      return false;
    }
    var idxMin, idxMax := 0, n - 1;
    var high := pairs[idxMax].1;
    if !wide && c >= 0xffff && high == 0xffff {
      return true;
    }
    if c > high {
      return false;
    }
    while idxMin <= idxMax
      invariant 0 <= idxMin && 0 <= idxMax < n
      invariant Search(pairs, c, 0, n - 1) == Search(pairs, c, idxMin, idxMax)
      decreases idxMax - idxMin + 1
    {
      var idx := (idxMin + idxMax) / 2;
      if c < pairs[idx].0 {
        assert idx >= 1;
        idxMax := idx - 1;
      } else if c > pairs[idx].1 {
        idxMin := idx + 1;
      } else {
        return true;
      }
    }
    return false;
  }

  /** The opcodes that only look at the input. */
  method TestSimple(s: Subject, i: Instr, pos: nat) returns (r: Test)
    requires pos <= |s.input| && IsSimple(i)
    ensures r == SimpleTest(s, i, pos)
  {
    hide RangeTest;
    if IsAssertion(i) {
      return if AssertionTest(s, i, pos) then Moves(pos) else Fails;
    }
    if pos >= |s.input| {
      return Fails;
    }
    var c := s.input[pos];
    var matches: bool;
    match i {
      case Range(wide, icase, pairs) => matches := SearchRange(wide, pairs, if icase then s.canon(c) else c);
      case Char(_, icase, val) => matches := val == if icase then s.canon(c) else c;
      case _ => matches := i.Any? || !IsLineTerminator(c);
    }
    r := if matches then Moves(pos + 1) else Fails;
  }

  /** REOP_back_reference */
  method CompareForward(s: Subject, icase: bool, start: nat, end: nat, pos: nat) returns (r: Test)
    ensures r == WalkForward(s, icase, start, end, pos)
  {
    var cptr1: nat, cptr: nat := start, pos;
    while cptr1 < end
      invariant WalkForward(s, icase, start, end, pos) == WalkForward(s, icase, cptr1, end, cptr)
      decreases end - cptr1
    {
      if cptr >= |s.input| || cptr1 >= |s.input| {
        return Fails;
      }
      var c1: CodePoint, c2: CodePoint := s.input[cptr1], s.input[cptr];
      if icase {
        c1, c2 := s.canon(c1), s.canon(c2);
      }
      if c1 != c2 {
        return Fails;
      }
      cptr1, cptr := cptr1 + 1, cptr + 1;
    }
    r := Moves(cptr);
  }

  /** REOP_backward_back_reference */
  method CompareBackward(s: Subject, icase: bool, start: nat, end: nat, pos: nat) returns (r: Test)
    ensures r == WalkBackward(s, icase, start, end, pos)
  {
    var cptr1: nat, cptr: nat := end, pos;
    while cptr1 > start
      invariant WalkBackward(s, icase, start, end, pos) == WalkBackward(s, icase, start, cptr1, cptr)
      decreases cptr1
    {
      if cptr == 0 || cptr > |s.input| || cptr1 > |s.input| {
        return Fails;
      }
      cptr1, cptr := cptr1 - 1, cptr - 1;
      var c1: CodePoint, c2: CodePoint := s.input[cptr1], s.input[cptr];
      if icase {
        c1, c2 := s.canon(c1), s.canon(c2);
      }
      if c1 != c2 {
        return Fails;
      }
    }
    r := Moves(cptr);
  }

  /** The recursive call with no_recurse set, over the atom of a simple quantifier. */
  method ExecAtom(p: Program, pc0: int, pos0: nat) returns (r: Inner)
    requires pos0 <= |p.subject.input|
    ensures r == RunAtom(p, pc0, pos0)
  {
    hide SimpleTest, Fetch, InstrSize;
    var pc: int, pos: nat := pc0, pos0;
    while true
      invariant pos <= |p.subject.input| && RunAtom(p, pc, pos) == RunAtom(p, pc0, pos0)
      decreases |p.code| - pc
    {
      var fetched := Fetch(p.code, pc);
      if fetched == None {
        return Bad;
      }
      var i := fetched.value;
      if i.Match? {
        return Matched(pos);
      }
      if !IsSimple(i) {
        return Bad;
      }
      var test := TestSimple(p.subject, i, pos);
      if test.Fails? {
        return NoMatch;
      }
      pc, pos := pc + InstrSize(i), test.pos;
    }
  }

  /** Count how often the atom matches, up to max times. */
  method ExecCount(p: Program, pc: int, pos0: nat, max: nat) returns (q: nat, pos: nat)
    requires pos0 <= |p.subject.input| && CountAtoms(p, pc, pos0, 0, max).Reached?
    ensures Reached(q, pos) == CountAtoms(p, pc, pos0, 0, max) && pos <= |p.subject.input|
  {
    hide RunAtom;
    q, pos := 0, pos0;
    while true
      invariant pos <= |p.subject.input| && CountAtoms(p, pc, pos, q, max) == CountAtoms(p, pc, pos0, 0, max)
      decreases |p.subject.input| - pos
    {
      var r := ExecAtom(p, pc, pos);
      if !r.Matched? {
        return;
      }
      pos, q := r.pos, q + 1;
      if q >= max && max != INT32_MAX {
        return;
      }
    }
  }

  class REExecContext {
    const p: Program
    const capture: array<Option<nat>>
    const stack: array<nat>
    var stackLen: nat
    var pc: int
    var cptr: nat
    var saved: seq<Saved>
    var running: bool // false in the loop at the label 'recurse'
    var ret: bool

    ghost predicate Valid()
      reads this, stack
    {
      && stack.Length == p.stackMax
      && stackLen <= stack.Length
      && (forall k | 0 <= k < |saved| :: |saved[k].st.caps| == capture.Length && |saved[k].stack| <= p.stackMax)
    }

    /** The configuration of RegexMachine that the fields stand for. */
    ghost function Abs(): Config
      requires Valid()
      reads this, capture, stack
    {
      if running then Run(pc, St(cptr, capture[..]), stack[..stackLen], saved)
      else if ret then Success(capture[..], saved)
      else Fail(saved)
    }

    constructor (buf: seq<byte>, s: Subject, start: nat)
      requires |buf| >= HEADER_LEN
      ensures p == Load(buf, s) && Valid() && fresh(capture) && fresh(stack)
      ensures Abs() == Start(buf, start) && capture.Length == 2 * (buf[2] as int)
    {
      p := Load(buf, s);
      capture := new Option<nat>[2 * buf[2]](_ => None);
      stack := new nat[buf[3]](_ => 0);
      stackLen, pc, cptr, saved, running, ret := 0, HEADER_LEN, start, [], true, false;
    }

    method NoMatch()
      requires Valid()
      modifies this
      ensures Valid() && Abs() == Fail(old(saved))
    {
      running, ret := false, false;
    }

    /** push_state */
    method PushState(kind: Kind, later: int, count: nat)
      requires Valid() && running
      modifies this`saved
      ensures Valid() && saved == old(saved) + [Saved(kind, stack[..stackLen], count, later, St(cptr, capture[..]))]
    {
      saved := saved + [Saved(kind, stack[..stackLen], count, later, St(cptr, capture[..]))];
    }

    /** memcpy of the captures of a saved state. */
    method RestoreCaptures(caps: Captures)
      requires |caps| == capture.Length
      modifies capture
      ensures capture[..] == caps
    {
      var i := 0;
      while i < capture.Length
        invariant 0 <= i <= capture.Length && capture[..i] == caps[..i]
      {
        capture[i] := caps[i];
        i := i + 1;
      }
    }

    /** memcpy of the value stack of a saved state. */
    method RestoreStack(vals: seq<nat>)
      requires |vals| <= stack.Length
      modifies stack, this`stackLen
      ensures stackLen == |vals| && stack[..stackLen] == vals
    {
      stackLen := |vals|;
      var i := 0;
      while i < stackLen
        invariant 0 <= i <= stackLen == |vals| && stack[..i] == vals[..i]
      {
        stack[i] := vals[i];
        i := i + 1;
      }
    }

    method Pop() returns (v: nat)
      requires Valid() && stackLen > 0
      modifies this`stackLen
      ensures Valid() && stackLen == old(stackLen) - 1 && v == stack[stackLen]
    {
      stackLen := stackLen - 1;
      v := stack[stackLen];
    }

    method Push(v: nat)
      requires Valid() && stackLen < stack.Length
      modifies this`stackLen, stack
      ensures Valid() && stack[..stackLen] == old(stack[..stackLen]) + [v]
    {
      stack[stackLen] := v;
      stackLen := stackLen + 1;
    }

    /** REOP_save_reset */
    method ResetRange(first: nat, last: nat)
      requires first <= last && 2 * last + 1 < capture.Length
      modifies capture
      ensures capture[..] == ResetCaps(old(capture[..]), first, last + 1 - first)
    {
      var val := first;
      while val <= last
        invariant first <= val <= last + 1
        invariant forall k | 0 <= k < capture.Length :: capture[k] == if 2 * first <= k < 2 * val then None else old(capture[k])
      {
        capture[2 * val] := None;
        capture[2 * val + 1] := None;
        val := val + 1;
      }
    }

    /** What the C code relies on when it executes i: its operands, the stack and the captures are in range. */
    ghost predicate Executable(i: Instr, next: int)
      requires Valid()
      reads this, capture, stack
    {
      && running && cptr <= |p.subject.input|
      && Exec(p, i, next, St(cptr, capture[..]), stack[..stackLen], saved) != Stuck
    }

    method StepJump(i: Instr, next: int)
      requires Valid() && Executable(i, next) && (i.Split? || i.Look? || i.Goto?)
      modifies this
      ensures Valid() && Abs() == old(Exec(p, i, next, St(cptr, capture[..]), stack[..stackLen], saved))
    {
      match i {
        case Split(nextFirst, off) =>
          PushState(SplitState, if nextFirst then next + off else next, 0);
          pc := if nextFirst then next else next + off;
        case Look(negated, off) =>
          PushState(if negated then NegativeLookaheadState else LookaheadState, next + off, 0);
          pc := next;
        case Goto(off) => pc := next + off;
      }
    }

    method StepCapture(i: Instr, next: int)
      requires Valid() && Executable(i, next) && (i.Save? || i.SaveReset?)
      modifies this, capture
      ensures Valid() && Abs() == old(Exec(p, i, next, St(cptr, capture[..]), stack[..stackLen], saved))
    {
      hide ResetCaps;
      match i {
        case Save(isEnd, idx) => capture[if isEnd then 2 * idx + 1 else 2 * idx] := Some(cptr);
        case SaveReset(first, last) => ResetRange(first, last);
      }
      pc := next;
    }

    method StepStack(i: Instr, next: int)
      requires Valid() && Executable(i, next) && (i.PushI32? || i.PushCharPos? || i.Drop?)
      modifies this, stack
      ensures Valid() && Abs() == old(Exec(p, i, next, St(cptr, capture[..]), stack[..stackLen], saved))
    {
      match i {
        case PushI32(val) => Push(val);
        case PushCharPos => Push(cptr);
        case Drop =>
          var _ := Pop();
          assert stack[..stackLen] == old(stack[..stackLen])[..stackLen];
      }
      pc := next;
    }

    method StepLoop(off: int, next: int)
      requires Valid() && Executable(Loop(off), next)
      modifies this, stack
      ensures Valid() && Abs() == old(Exec(p, Loop(off), next, St(cptr, capture[..]), stack[..stackLen], saved))
    {
      var top := stackLen - 1;
      stack[top] := stack[top] - 1;
      pc := if stack[top] != 0 then next + off else next;
      assert stack[..stackLen] == old(stack[..stackLen])[..top] + [stack[top]];
    }

    method StepCheckAdvance(next: int)
      requires Valid() && Executable(CheckAdvance, next)
      modifies this
      ensures Valid() && Abs() == old(Exec(p, CheckAdvance, next, St(cptr, capture[..]), stack[..stackLen], saved))
    {
      var v := Pop();
      assert stack[..stackLen] == old(stack[..stackLen])[..stackLen];
      if v == cptr {
        NoMatch();
      } else {
        pc := next;
      }
    }

    method StepBackRef(backward: bool, icase: bool, n: nat, next: int)
      requires Valid() && Executable(BackRef(backward, icase, n), next)
      modifies this
      ensures Valid() && Abs() == old(Exec(p, BackRef(backward, icase, n), next, St(cptr, capture[..]), stack[..stackLen], saved))
    {
      hide WalkForward, WalkBackward;
      var test := Fails;
      if 2 * n + 1 < capture.Length {
        var start, end := capture[2 * n], capture[2 * n + 1];
        if start == None || end == None {
          test := Moves(cptr);
        } else if backward {
          test := CompareBackward(p.subject, icase, start.value, end.value, cptr);
        } else {
          test := CompareForward(p.subject, icase, start.value, end.value, cptr);
        }
      }
      Advance(test, next);
    }

    /** Go on at the position a test has reached, or fail. */
    method Advance(test: Test, next: int)
      requires Valid() && running
      modifies this
      ensures Valid() && Abs() == match test {
                case Fails => Fail(old(saved))
                case Moves(q) => Run(next, St(q, old(capture[..])), old(stack[..stackLen]), old(saved)) }
    {
      if test.Fails? {
        NoMatch();
      } else {
        cptr, pc := test.pos, next;
      }
    }

    /** The end of a match, a step back, and the opcodes that only test the input. */
    method StepTest(i: Instr, next: int)
      requires Valid() && Executable(i, next)
      requires i.Match? || i.Prev? || i.Char? || i.Dot? || i.Any? || i.Range? || i.LineStart? || i.LineEnd? || i.WordBoundary?
      modifies this
      ensures Valid() && Abs() == old(Exec(p, i, next, St(cptr, capture[..]), stack[..stackLen], saved))
    {
      hide CountAtoms, BackRefTest, SimpleTest;
      if i.Match? {
        running, ret := false, true;
      } else if i.Prev? {
        Advance(if cptr == 0 then Fails else Moves(cptr - 1), next);
      } else {
        var test := TestSimple(p.subject, i, cptr);
        Advance(test, next);
      }
    }

    /** REOP_simple_greedy_quant */
    method StepQuant(off: int, min: nat, max: nat, charCount: nat, next: int)
      requires Valid() && Executable(SimpleGreedyQuant(off, min, max, charCount), next)
      modifies this
      ensures Valid()
      ensures Abs() == old(Exec(p, SimpleGreedyQuant(off, min, max, charCount), next, St(cptr, capture[..]), stack[..stackLen], saved))
    {
      hide CountAtoms;
      var q, pos := ExecCount(p, next, cptr, max);
      if q < min {
        NoMatch();
      } else {
        cptr := pos;
        if q > min {
          PushState(GreedyState, next - 16, q - min);
        }
        pc := next + off;
      }
    }

    /** One turn of the switch of lre_exec_backtrack. */
    method StepRunning()
      requires Valid() && running && Step(p, Abs()) != Stuck
      modifies this, capture, stack
      ensures Valid() && Abs() == Step(p, old(Abs()))
    {
      hide Fetch, Exec, InstrSize;
      var i := Fetch(p.code, pc).value;
      var next := pc + InstrSize(i);
      match i {
        case Split(_, _) => StepJump(i, next);
        case Look(_, _) => StepJump(i, next);
        case Goto(_) => StepJump(i, next);
        case Save(_, _) => StepCapture(i, next);
        case SaveReset(_, _) => StepCapture(i, next);
        case PushI32(_) => StepStack(i, next);
        case PushCharPos => StepStack(i, next);
        case Drop => StepStack(i, next);
        case Loop(off) => StepLoop(off, next);
        case CheckAdvance => StepCheckAdvance(next);
        case BackRef(backward, icase, n) => StepBackRef(backward, icase, n, next);
        case SimpleGreedyQuant(off, min, max, charCount) => StepQuant(off, min, max, charCount, next);
        case _ => StepTest(i, next);
      }
    }

    /** Resume a saved state, with its captures unless they are kept. */
    method PopState(rs: Saved, keepCaptures: bool)
      requires Valid() && saved != [] && saved[|saved| - 1] == rs
      modifies this, capture, stack
      ensures Valid() && Abs() == Run(rs.pc, if keepCaptures then St(rs.st.pos, old(capture[..])) else rs.st, rs.stack, old(saved)[..|old(saved)| - 1])
    {
      if !keepCaptures {
        RestoreCaptures(rs.st.caps);
      }
      pc, cptr := rs.pc, rs.st.pos;
      RestoreStack(rs.stack);
      saved := saved[..|saved| - 1];
      running := true;
    }

    /** Give back one iteration of a simple quantifier. */
    method PopGreedy(rs: Saved)
      requires Valid() && !running && !ret && saved != [] && saved[|saved| - 1] == rs && rs.kind == GreedyState
      requires Step(p, Abs()) != Stuck
      modifies this, capture, stack
      ensures Valid() && Abs() == Step(p, old(Abs()))
    {
      hide Fetch, Exec, Accept;
      var i := Fetch(p.code, rs.pc - 1).value;
      // go backward
      var back, k := rs.st.pos, 0;
      while k < i.charCount
        invariant 0 <= k <= i.charCount && back == rs.st.pos - k
      {
        back := back - 1;
        k := k + 1;
      }
      RestoreCaptures(rs.st.caps);
      RestoreStack(rs.stack);
      pc, cptr := rs.pc + 16 + i.off, back;
      var rest := saved[..|saved| - 1];
      saved := if rs.count == 1 then rest else rest + [rs.(st := St(cptr, rs.st.caps), count := rs.count - 1)];
      running := true;
    }

    /** One turn of the loop at the label 'recurse'. */
    method StepUnwinding()
      requires Valid() && !running && saved != [] && Step(p, Abs()) != Stuck
      modifies this, capture, stack
      ensures Valid() && Abs() == Step(p, old(Abs()))
    {
      hide Fetch;
      var rs := saved[|saved| - 1];
      if rs.kind == SplitState {
        if !ret {
          PopState(rs, false);
        } else {
          saved := saved[..|saved| - 1];
        }
      } else if rs.kind == GreedyState {
        if !ret {
          PopGreedy(rs);
        } else {
          saved := saved[..|saved| - 1];
        }
      } else {
        ret := (rs.kind == LookaheadState && ret) || (rs.kind == NegativeLookaheadState && !ret);
        if ret {
          // keep the captures in case of a positive lookahead
          PopState(rs, rs.kind == LookaheadState);
        } else {
          saved := saved[..|saved| - 1];
        }
      }
    }

    /** lre_exec_backtrack: n is the number of steps to the end. */
    method Execute(ghost n: nat, ghost result: Option<Captures>)
      requires Valid() && Steps(p, Abs(), n) == Done(result)
      modifies this, capture, stack
      ensures ret == result.Some? && (ret ==> result == Some(capture[..]))
    {
      hide Step;
      ghost var k := n;
      while running || saved != []
        invariant Valid() && Steps(p, Abs(), k) == Done(result)
        decreases k
      {
        StepsUnfold(p, Abs(), k, result);
        if running {
          StepRunning();
        } else {
          StepUnwinding();
        }
        k := k - 1;
      }
      StepsUnfold(p, Abs(), k, result);
      FinalStep(p, Abs(), k, result);
    }
  }

  lemma StepsUnfold(p: Program, x: Config, n: nat, result: Option<Captures>)
    requires !x.Done? && Steps(p, x, n) == Done(result)
    ensures n > 0 && Step(p, x) != Stuck && Steps(p, Step(p, x), n - 1) == Done(result)
  {
    hide Step;
    if Step(p, x) == Stuck {
      StuckStays(p, n - 1);
    }
  }

  lemma {:induction false} StuckStays(p: Program, n: nat)
    ensures Steps(p, Stuck, n) == Stuck
    decreases n
  {
    hide Fetch;
    if n > 0 {
      StuckStays(p, n - 1);
    }
  }

  lemma FinalStep(p: Program, x: Config, n: nat, result: Option<Captures>)
    requires x == Fail([]) || (x.Success? && x.saved == [])
    requires n > 0 && Steps(p, Step(p, x), n - 1) == Done(result)
    ensures result == if x.Fail? then None else Some(x.caps)
  {
    DoneStays(p, if x.Fail? then None else Some(x.caps), n - 1);
  }

  /**
   lre_compile followed by lre_exec gives the reference matcher's answer, whatever the expression and the input, unless there
   are too many groups or too many quantifiers in each other.
   */
  method CompileAndExecute(f: Flags, canon: CodePoint -> CodePoint, d: Disjunction, sticky: bool, reFlags: int, input: seq<byte>, start: nat)
    returns (r: Result<Option<Captures>, CompileError>)
    requires Wf(d) && start <= |input|
    requires Compile(f, canon, d, sticky, reFlags).Ok? ==> |Compile(f, canon, d, sticky, reFlags).value| <= INT32_MAX
    ensures r == match Compile(f, canon, d, sticky, reFlags) {
              case Err(e) => Err(e)
              case Ok(_) => Ok(First(MSearch(Subject(input, f, canon), d, sticky, St(start, NoCaptures(1 + Groups(d)))))) }
    ensures r.Ok? <==> Groups(d) <= 254 && RegexLimits.Levels(d, false) <= 255
    ensures r == Err(TooManyCaptures) <==> Groups(d) > 254
  {
    hide Step, Compile, MSearch, Wf, RegexLimits.Levels;
    RegexLimits.CompilesExactly(f, canon, d, sticky, reFlags);
    var compiled := LreCompile(f, canon, d, sticky, reFlags);
    if compiled.Err? {
      return Err(compiled.error);
    }
    var s := Subject(input, f, canon);
    CompiledExpressionIsCorrect(f, canon, d, sticky, reFlags, input, start);
    ghost var result := First(MSearch(s, d, sticky, St(start, NoCaptures(1 + Groups(d)))));
    var ctx := new REExecContext(compiled.value, s, start);
    ghost var n: nat :| Steps(ctx.p, ctx.Abs(), n) == Done(result);
    ctx.Execute(n, result);
    r := Ok(if ctx.ret then Some(ctx.capture[..]) else None);
  }
}

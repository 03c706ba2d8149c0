/** One step of lre_exec_backtrack, as a function from configurations to configurations. */
module RegexMachine {
  import opened Bytes
  import opened Wrappers
  import opened RegexSyntax
  import opened RegexBytecode
  import opened RegexReference

  datatype Kind = SplitState | LookaheadState | NegativeLookaheadState | GreedyState

  // REExecState. st holds cptr and the saved captures.
  datatype Saved = Saved(kind: Kind, stack: seq<nat>, count: nat, pc: int, st: St)

  datatype Program = Program(code: seq<byte>, subject: Subject, stackMax: nat)

  // Run: the instruction at pc is next. Fail and Success: the loop at the label 'recurse', with ret 0 or 1.
  // Stuck: the C code would abort or access memory outside of a buffer.
  datatype Config =
    | Run(pc: int, st: St, stack: seq<nat>, saved: seq<Saved>)
    | Fail(saved: seq<Saved>)
    | Success(caps: Captures, saved: seq<Saved>)
    | Done(result: Option<Captures>)
    | Stuck

  datatype Test = Moves(pos: nat) | Fails

  /** The binary search of REOP_range; the caller has checked pairs[0].0 <= c. */
  function Search(pairs: seq<Pair>, c: int, lo: int, hi: int): bool
    requires 0 <= lo && hi < |pairs|
    decreases hi - lo + 1
  {
    if lo > hi then false
    else
      var mid := (lo + hi) / 2;
      if c < pairs[mid].0 then Search(pairs, c, lo, mid - 1)
      else if c > pairs[mid].1 then Search(pairs, c, mid + 1, hi)
      else true
  }

  predicate RangeTest(wide: bool, pairs: seq<Pair>, c: int) {
    && pairs != []
    && pairs[0].0 <= c
    && ((!wide && c >= 0xffff && pairs[|pairs| - 1].1 == 0xffff) ||
        (c <= pairs[|pairs| - 1].1 && Search(pairs, c, 0, |pairs| - 1)))
  }

  function FoldIf(s: Subject, icase: bool, c: CodePoint): CodePoint { if icase then s.canon(c) else c }

  predicate CharTest(s: Subject, i: Instr, c: CodePoint) {
    match i
    case Char(_, icase, x) => FoldIf(s, icase, c) == x
    case Dot => !IsLineTerminator(c)
    case Any => true
    case Range(wide, icase, pairs) => RangeTest(wide, pairs, FoldIf(s, icase, c))
    case _ => false
  }

  predicate WordTest(s: Subject, icase: bool, p: int) {
    0 <= p < |s.input| && IsWordChar(FoldIf(s, icase, s.input[p]))
  }

  predicate AssertionTest(s: Subject, i: Instr, pos: nat)
    requires pos <= |s.input|
  {
    match i
    case LineStart(multi) => pos == 0 || (multi && IsLineTerminator(s.input[pos - 1]))
    case LineEnd(multi) => pos == |s.input| || (multi && IsLineTerminator(s.input[pos]))
    case WordBoundary(negated, icase) => (WordTest(s, icase, pos - 1) != WordTest(s, icase, pos)) != negated
    case _ => false
  }

  /** The opcodes that only look at the input: where they leave cptr, or that they fail. */
  function SimpleTest(s: Subject, i: Instr, pos: nat): (r: Test)
    requires pos <= |s.input|
    ensures r.Moves? ==> pos <= r.pos <= |s.input|
  {
    if i.Char? || i.Dot? || i.Any? || i.Range? then
      if pos < |s.input| && CharTest(s, i, s.input[pos]) then Moves(pos + 1) else Fails
    else if AssertionTest(s, i, pos) then Moves(pos) else Fails
  }

  /** REOP_back_reference: both texts are walked together, one character at a time. */
  function WalkForward(s: Subject, icase: bool, from: nat, end: nat, pos: nat): (r: Test)
    ensures r.Moves? ==> pos <= r.pos && (r.pos == pos || r.pos <= |s.input|)
    decreases end - from
  {
    if from >= end then Moves(pos)
    else if pos >= |s.input| || from >= |s.input| then Fails
    else if FoldIf(s, icase, s.input[from]) != FoldIf(s, icase, s.input[pos]) then Fails
    else WalkForward(s, icase, from + 1, end, pos + 1)
  }

  function WalkBackward(s: Subject, icase: bool, start: nat, from: nat, pos: nat): (r: Test)
    ensures r.Moves? ==> r.pos <= pos
    decreases from
  {
    if from <= start then Moves(pos)
    else if pos == 0 || pos > |s.input| || from > |s.input| then Fails
    else if FoldIf(s, icase, s.input[from - 1]) != FoldIf(s, icase, s.input[pos - 1]) then Fails
    else WalkBackward(s, icase, start, from - 1, pos - 1)
  }

  function BackRefTest(s: Subject, backward: bool, icase: bool, n: nat, st: St): Test {
    if 2 * n + 1 >= |st.caps| then Fails
    else
      match (st.caps[2 * n], st.caps[2 * n + 1])
      case (Some(a), Some(b)) =>
        if backward then WalkBackward(s, icase, a, b, st.pos) else WalkForward(s, icase, a, b, st.pos)
      case _ => Moves(st.pos)
  }

  datatype Inner = Matched(pos: nat) | NoMatch | Bad

  /** The recursive call with no_recurse: runs the atom of a simple quantifier up to its match instruction.
      An opcode that re_is_simple_quantifier does not accept is Bad. */
  function RunAtom(p: Program, pc: int, pos: nat): (r: Inner)
    requires pos <= |p.subject.input|
    ensures r.Matched? ==> pos <= r.pos <= |p.subject.input|
    decreases |p.code| - pc
  {
    match Fetch(p.code, pc)
    case None => Bad
    case Some(i) =>
      if i.Match? then Matched(pos)
      else if i.Char? || i.Dot? || i.Any? || i.Range? || i.LineStart? || i.LineEnd? || i.WordBoundary? then
        match SimpleTest(p.subject, i, pos)
        case Fails => NoMatch
        case Moves(q) => RunAtom(p, pc + InstrSize(i), q)
      else Bad
  }

  datatype Greedy = Reached(count: nat, pos: nat) | Diverges

  /** The counting loop of REOP_simple_greedy_quant, after q successful runs of the atom. An atom that matches
      without moving would be run for ever. */
  function CountAtoms(p: Program, pc: int, pos: nat, q: nat, max: nat): Greedy
    requires pos <= |p.subject.input|
    decreases |p.subject.input| - pos
  {
    match RunAtom(p, pc, pos)
    case Bad => Diverges
    case NoMatch => Reached(q, pos)
    case Matched(pos') =>
      if pos' <= pos then Diverges
      else if q + 1 >= max && max != INT32_MAX then Reached(q + 1, pos')
      else CountAtoms(p, pc, pos', q + 1, max)
  }

  /** Execute instruction i; next is the address of the instruction after it. */
  function Exec(p: Program, i: Instr, next: int, st: St, stack: seq<nat>, saved: seq<Saved>): Config
    requires st.pos <= |p.subject.input|
  {
    var s := p.subject;
    match i
    case Match => Success(st.caps, saved)
    case Split(nextFirst, off) =>
      var (now, later) := if nextFirst then (next, next + off) else (next + off, next);
      Run(now, st, stack, saved + [Saved(SplitState, stack, 0, later, st)])
    case Look(negated, off) =>
      Run(next, st, stack,
          saved + [Saved(if negated then NegativeLookaheadState else LookaheadState, stack, 0, next + off, st)])
    case Goto(off) => Run(next + off, st, stack, saved)
    case Save(isEnd, idx) =>
      var k := if isEnd then 2 * idx + 1 else 2 * idx;
      if k >= |st.caps| then Stuck else Run(next, st.(caps := st.caps[k := Some(st.pos)]), stack, saved)
    case SaveReset(first, last) =>
      if 2 * last + 1 >= |st.caps| || last < first then Stuck
      else Run(next, st.(caps := ResetCaps(st.caps, first, last + 1 - first)), stack, saved)
    case PushI32(val) =>
      if |stack| >= p.stackMax then Stuck else Run(next, st, stack + [val], saved)
    case PushCharPos =>
      if |stack| >= p.stackMax then Stuck else Run(next, st, stack + [st.pos], saved)
    case Drop =>
      if stack == [] then Stuck else Run(next, st, stack[..|stack| - 1], saved)
    case Loop(off) =>
      if stack == [] || stack[|stack| - 1] == 0 then Stuck
      else
        var n := stack[|stack| - 1] - 1;
        Run(if n != 0 then next + off else next, st, stack[..|stack| - 1] + [n], saved)
    case CheckAdvance =>
      if stack == [] then Stuck
      else if stack[|stack| - 1] == st.pos then Fail(saved)
      else Run(next, st, stack[..|stack| - 1], saved)
    case Prev =>
      if st.pos == 0 then Fail(saved) else Run(next, st.(pos := st.pos - 1), stack, saved)
    case BackRef(backward, icase, n) =>
      (match BackRefTest(s, backward, icase, n, st)
       case Fails => Fail(saved)
       case Moves(q) => Run(next, st.(pos := q), stack, saved))
    case SimpleGreedyQuant(off, min, max, _) =>
      (match CountAtoms(p, next, st.pos, 0, max)
       case Diverges => Stuck
       case Reached(q, pos) =>
         if q < min then Fail(saved)
         else
           Run(next + off, st.(pos := pos), stack,
               if q > min then saved + [Saved(GreedyState, stack, q - min, next - 16, st.(pos := pos))] else saved))
    case _ =>
      match SimpleTest(s, i, st.pos)
      case Fails => Fail(saved)
      case Moves(q) => Run(next, st.(pos := q), stack, saved)
  }

  /** No match: resume the state saved last. */
  function Backtrack(p: Program, saved: seq<Saved>): Config
    requires saved != []
  {
    var rest, rs := saved[..|saved| - 1], saved[|saved| - 1];
    match rs.kind
    case SplitState => Run(rs.pc, rs.st, rs.stack, rest)
    case LookaheadState => Fail(rest)
    case NegativeLookaheadState => Run(rs.pc, rs.st, rs.stack, rest)
    case GreedyState =>
      // rs.pc is the address of the operands; give back one iteration
      match Fetch(p.code, rs.pc - 1)
      case Some(SimpleGreedyQuant(off, _, _, charCount)) =>
        if rs.count == 0 || rs.st.pos < charCount then Stuck
        else
          var st := rs.st.(pos := rs.st.pos - charCount);
          Run(rs.pc + 16 + off, st, rs.stack, if rs.count == 1 then rest else rest + [rs.(st := st, count := rs.count - 1)])
      case _ => Stuck
  }

  /** Match: inside a lookaround, finish it; otherwise discard the state saved last. */
  function Accept(caps: Captures, saved: seq<Saved>): Config
    requires saved != []
  {
    var rest, rs := saved[..|saved| - 1], saved[|saved| - 1];
    match rs.kind
    case LookaheadState => Run(rs.pc, St(rs.st.pos, caps), rs.stack, rest)
    case NegativeLookaheadState => Fail(rest)
    case _ => Success(caps, rest)
  }

  function Step(p: Program, c: Config): Config {
    match c
    case Run(pc, st, stack, saved) =>
      if st.pos > |p.subject.input| then Stuck
      else
        (match Fetch(p.code, pc)
         case None => Stuck
         case Some(i) => Exec(p, i, pc + InstrSize(i), st, stack, saved))
    case Fail(saved) => if saved == [] then Done(None) else Backtrack(p, saved)
    case Success(caps, saved) => if saved == [] then Done(Some(caps)) else Accept(caps, saved)
    case _ => c
  }

  function Steps(p: Program, c: Config, n: nat): Config
    decreases n
  {
    if n == 0 then c else Steps(p, Step(p, c), n - 1)
  }
}

/** The code that re_parse_term, re_parse_alternative and re_parse_disjunction leave in the byte-code buffer. */
module RegexCompiler {
  import opened Bytes
  import opened RegexSyntax
  import opened RegexBytecode

  const CAPTURE_COUNT_MAX := 255
  const STACK_SIZE_MAX := 255
  const HEADER_LEN := 8

  type Code = seq<Instr>

  // ----- static analyses -----

  predicate IsCharTest(i: Instr) { i.Char? || i.Dot? || i.Any? || i.Range? }

  predicate IsAssertion(i: Instr) { i.LineStart? || i.LineEnd? || i.WordBoundary? }

  /** The opcodes whose effect on the position re_need_check_advance can predict. */
  predicate IsPredictable(i: Instr) {
    IsCharTest(i) || IsAssertion(i) || i.PushI32? || i.PushCharPos? || i.Drop? || i.Prev? || i.Save? || i.SaveReset? || i.BackRef?
  }

  predicate AllPredictable(code: Code) { forall k | 0 <= k < |code| :: IsPredictable(code[k]) }

  predicate HasCharTest(code: Code) { exists k | 0 <= k < |code| :: IsCharTest(code[k]) }

  /** re_need_check_advance: may the code succeed without moving? */
  predicate NeedCheckAdvance(code: Code) { !(AllPredictable(code) && HasCharTest(code)) }

  predicate IsSimple(i: Instr) { IsCharTest(i) || IsAssertion(i) }

  predicate AllSimple(code: Code) { forall k | 0 <= k < |code| :: IsSimple(code[k]) }

  function CharTests(code: Code): nat {
    if code == [] then 0 else (if IsCharTest(code[0]) then 1 else 0) + CharTests(code[1..])
  }

  /** re_is_simple_quantifier: the number of characters of the atom, or -1. */
  function SimpleQuantifier(code: Code): int { if AllSimple(code) then CharTests(code) else -1 }

  /** Stack effect of one instruction as compute_stack_size counts it. */
  function Effect(i: Instr): int {
    if i.PushI32? || i.PushCharPos? then 1 else if i.Drop? || i.CheckAdvance? then -1 else 0
  }

  function Net(code: Code): int {
    if code == [] then 0 else Effect(code[0]) + Net(code[1..])
  }

  /** The highest stack level reached when scanning the code from level 0. */
  function MaxDepth(code: Code): nat {
    if code == [] then 0
    else
      var rest := Effect(code[0]) + MaxDepth(code[1..]);
      if rest < 0 then 0 else rest
  }

  // ----- code generation -----

  /** Characters are matched backward by stepping back before and after the test. */
  function Directed(bw: bool, i: Instr): Code { if bw then [Prev, i, Prev] else [i] }

  function CharInstr(c: nat, icase: bool): Instr { Char(c > 0xffff, icase, c) }

  /** re_emit_range. A class with no interval becomes a character that no input contains. */
  function RangeInstr(points: Points, icase: bool): Instr {
    if points == [] then Char(true, false, UINT32_MAX)
    else
      var last := points[|points| - 1];
      var high := if last == UINT32_MAX then points[|points| - 2] else last;
      var wide := high > 0xffff;
      Range(wide, icase, Pairs(wide, points))
  }

  /** Closed intervals; with 16-bit bounds, 0xffff as the last bound means infinity. */
  function Pairs(wide: bool, points: Points): (r: seq<Pair>)
    ensures |r| == |points| / 2
  {
    if points == [] then []
    else
      var high := if points[1] == 0 then UINT32_MAX else points[1] - 1;
      [(points[0], if !wide && high == UINT32_MAX - 1 then 0xffff else high)] + Pairs(wide, points[2..])
  }

  /** The instruction of a term that matches one character. */
  function CharTermInstr(f: Flags, canon: CodePoint -> CodePoint, t: Term): Instr
    requires t.Character? || t.Period? || t.Class?
  {
    match t
    case Character(c) => CharInstr(if f.ignoreCase then canon(c) else c, f.ignoreCase)
    case Period => if f.dotAll then Any else Dot
    case Class(points) => RangeInstr(points, f.ignoreCase)
  }

  function TermCode(f: Flags, canon: CodePoint -> CodePoint, t: Term, bw: bool, cc: nat): Code
    decreases t, 0
  {
    match t
    case Character(_) => Directed(bw, CharTermInstr(f, canon, t))
    case Period => Directed(bw, CharTermInstr(f, canon, t))
    case Class(_) => Directed(bw, CharTermInstr(f, canon, t))
    case Bol => [LineStart(f.multiLine)]
    case Eol => [LineEnd(f.multiLine)]
    case Boundary(negated) => [WordBoundary(negated, f.ignoreCase)]
    case Reference(n) => [BackRef(bw, f.ignoreCase, n)]
    case Plain(d) => DisjCode(f, canon, d, bw, cc)
    case Group(d) => [Save(bw, cc)] + DisjCode(f, canon, d, bw, cc + 1) + [Save(!bw, cc)]
    case Lookaround(d, behind, negated) =>
      var body := DisjCode(f, canon, d, behind, cc);
      [Look(negated, Size(body) + 1)] + body + [Match]
    case Repeat(a, min, max, greedy) =>
      RepeatCode(TermCode(f, canon, a, bw, cc), cc, TermGroups(a), min, max, greedy)
  }

  /** The quantifier part of re_parse_term, from the code of the atom. */
  function RepeatCode(atom: Code, cc: nat, groups: nat, min: nat, max: nat, greedy: bool): Code {
    if greedy && max > 0 && SimpleQuantifier(atom) > 0 then
      [SimpleGreedyQuant(Size(atom) + 1, min, max, SimpleQuantifier(atom))] + atom + [Match]
    else if min == 1 && max == INT32_MAX && !NeedCheckAdvance(atom) then
      atom + [Split(!greedy, -(Size(atom) + 5))]
    else
      Prefix(atom, cc, groups, min) + Remainder(atom, min, max, greedy)
  }

  /** The iterations that must happen; if there are none, the captures of the atom are reset. */
  function Prefix(atom: Code, cc: nat, groups: nat, min: nat): Code {
    if min > 0 then MandatoryCode(atom, min)
    else if groups > 0 then [SaveReset(cc, cc + groups - 1)]
    else []
  }

  /** The iterations that may happen after the first min ones. */
  function Remainder(atom: Code, min: nat, max: nat, greedy: bool): Code {
    var check := NeedCheckAdvance(atom);
    if max == INT32_MAX then StarCode(atom, check, greedy)
    else if max <= min then []
    else if min == 0 && max == 1 then OptionalCode(atom, check, greedy)
    else CountedCode(atom, check, greedy, max - min)
  }

  /** The atom, between push_char_pos and check_advance if it may not move. */
  function Guarded(atom: Code, check: bool): Code {
    if check then [PushCharPos] + atom + [CheckAdvance] else atom
  }

  function OptionalCode(atom: Code, check: bool, greedy: bool): Code {
    [Split(greedy, Size(Guarded(atom, check)))] + Guarded(atom, check)
  }

  function StarCode(atom: Code, check: bool, greedy: bool): Code {
    var n := Size(Guarded(atom, check));
    [Split(greedy, n + 5)] + Guarded(atom, check) + [Goto(-(n + 10))]
  }

  /** Up to max more iterations, counted down on the value stack. */
  function CountedCode(atom: Code, check: bool, greedy: bool, max: nat): Code {
    var n := Size(Guarded(atom, check));
    [PushI32(max)] + ([Split(greedy, n + 5)] + Guarded(atom, check) + [Loop(-(n + 10))]) + [Drop]
  }

  function MandatoryCode(atom: Code, min: nat): Code {
    if min == 1 then atom else [PushI32(min)] + (atom + [Loop(-(Size(atom) + 5))]) + [Drop]
  }

  function AltCode(f: Flags, canon: CodePoint -> CodePoint, a: Alternative, bw: bool, cc: nat): Code
    decreases a, 0
  {
    match a
    case Empty => []
    case Snoc(init, last) =>
      var first := AltCode(f, canon, init, bw, cc);
      var next := TermCode(f, canon, last, bw, cc + AltGroups(init));
      if bw then next + first else first + next
  }

  function DisjCode(f: Flags, canon: CodePoint -> CodePoint, d: Disjunction, bw: bool, cc: nat): Code
    decreases d, 0
  {
    match d
    case Single(a) => AltCode(f, canon, a, bw, cc)
    case Or(init, a) =>
      OrCode(DisjCode(f, canon, init, bw, cc), AltCode(f, canon, a, bw, cc + Groups(init)))
  }

  function OrCode(left: Code, right: Code): Code {
    [Split(true, Size(left) + 5)] + left + ([Goto(Size(right))] + right)
  }

  /** lre_compile: unless sticky, try later start positions; group 0 is the whole match. */
  function SearchLoop(sticky: bool): Code { if sticky then [] else [Split(false, 6), Any, Goto(-11)] }

  function WholeCode(f: Flags, canon: CodePoint -> CodePoint, d: Disjunction): Code {
    [Save(false, 0)] + DisjCode(f, canon, d, false, 1) + [Save(true, 0)] + [Match]
  }

  function ProgramCode(f: Flags, canon: CodePoint -> CodePoint, d: Disjunction, sticky: bool): Code {
    SearchLoop(sticky) + WholeCode(f, canon, d)
  }
}

/**
 The parser's code generation as it happens: one byte buffer that is appended to, shifted and patched in place.
 Each method leaves exactly the bytes of the functions in RegexCompiler. The pattern is given as a syntax tree;
 reading its text is not part of this model.
 */
module RegexParser {
  import opened Bytes
  import opened Wrappers
  import opened RegexSyntax
  import opened RegexBytecode
  import opened RegexCompiler
  import opened RegexScans
  import opened RegexFacts
  import opened RegexProgram

  // ----- sizes, for termination -----

  function TermNodes(t: Term): nat {
    match t
    case Plain(b) => 1 + Nodes(b)
    case Group(b) => 1 + Nodes(b)
    case Lookaround(b, _, _) => 1 + Nodes(b)
    case Repeat(a, _, _, _) => 1 + TermNodes(a)
    case _ => 1
  }

  function AltNodes(a: Alternative): nat {
    match a
    case Empty => 1
    case Snoc(init, last) => 1 + AltNodes(init) + TermNodes(last)
  }

  function Nodes(d: Disjunction): nat {
    match d
    case Single(a) => 1 + AltNodes(a)
    case Or(init, a) => 1 + Nodes(init) + AltNodes(a)
  }

  // ----- the loops of the parser run over lists -----

  function Terms(a: Alternative): seq<Term> {
    match a
    case Empty => []
    case Snoc(init, last) => Terms(init) + [last]
  }

  function Alternatives(d: Disjunction): (s: seq<Alternative>)
    ensures |s| >= 1
  {
    match d
    case Single(a) => [a]
    case Or(init, a) => Alternatives(init) + [a]
  }

  /** The alternative made of the first n terms of a. */
  function FirstTerms(a: Alternative, n: nat): (r: Alternative)
    requires n <= |Terms(a)|
    ensures Terms(r) == Terms(a)[..n]
  {
    if n == |Terms(a)| then a else FirstTerms(a.init, n)
  }

  function FirstAlternatives(d: Disjunction, n: nat): (r: Disjunction)
    requires 1 <= n <= |Alternatives(d)|
    ensures Alternatives(r) == Alternatives(d)[..n]
  {
    if n == |Alternatives(d)| then d else FirstAlternatives(d.init, n)
  }

  lemma {:induction false} FirstTermsStep(a: Alternative, n: nat)
    requires n < |Terms(a)|
    ensures FirstTerms(a, n + 1) == Snoc(FirstTerms(a, n), Terms(a)[n])
    ensures TermNodes(Terms(a)[n]) < AltNodes(a) && AltGroups(FirstTerms(a, n + 1)) <= AltGroups(a)
    ensures AltWf(a) ==> TermWf(Terms(a)[n])
    decreases a
  {
    if n + 1 < |Terms(a)| {
      FirstTermsStep(a.init, n);
      assert FirstTerms(a, n) == FirstTerms(a.init, n);
    } else {
      assert Terms(a.init) == Terms(a)[..n];
      assert FirstTerms(a.init, n) == a.init;
    }
  }

  lemma {:induction false} FirstTermsEmpty(a: Alternative)
    ensures FirstTerms(a, 0) == Empty
    decreases a
  {
    if a.Snoc? {
      FirstTermsEmpty(a.init);
    }
  }

  lemma {:induction false} FirstAlternativesStep(d: Disjunction, n: nat)
    requires 1 <= n < |Alternatives(d)|
    ensures FirstAlternatives(d, n + 1) == Or(FirstAlternatives(d, n), Alternatives(d)[n])
    ensures AltNodes(Alternatives(d)[n]) < Nodes(d) && Groups(FirstAlternatives(d, n + 1)) <= Groups(d)
    ensures Wf(d) ==> AltWf(Alternatives(d)[n])
    decreases d
  {
    if n + 1 < |Alternatives(d)| {
      FirstAlternativesStep(d.init, n);
    } else {
      assert Alternatives(d.init) == Alternatives(d)[..n];
      assert FirstAlternatives(d.init, n) == d.init;
    }
  }

  lemma DisjStep(f: Flags, canon: CodePoint -> CodePoint, d: Disjunction, n: nat, bw: bool, cc: nat)
    requires 1 <= n < |Alternatives(d)|
    ensures var first := FirstAlternatives(d, n);
            var next := FirstAlternatives(d, n + 1);
            && Groups(next) == Groups(first) + AltGroups(Alternatives(d)[n]) <= Groups(d)
            && DisjCode(f, canon, next, bw, cc) ==
               OrCode(DisjCode(f, canon, first, bw, cc), AltCode(f, canon, Alternatives(d)[n], bw, cc + Groups(first)))
  {
    hide OrCode, AltCode;
    FirstAlternativesStep(d, n);
  }

  lemma AllAlternatives(d: Disjunction)
    ensures FirstAlternatives(d, |Alternatives(d)|) == d
  {
  }

  lemma DisjStart(f: Flags, canon: CodePoint -> CodePoint, d: Disjunction, bw: bool, cc: nat)
    ensures var first := FirstAlternatives(d, 1);
            && Groups(first) == AltGroups(Alternatives(d)[0])
            && DisjCode(f, canon, first, bw, cc) == AltCode(f, canon, Alternatives(d)[0], bw, cc)
  {
    hide AltCode;
    FirstAlternative(d);
  }

  lemma {:induction false} FirstAlternative(d: Disjunction)
    ensures FirstAlternatives(d, 1) == Single(Alternatives(d)[0])
    ensures AltNodes(Alternatives(d)[0]) < Nodes(d) && AltGroups(Alternatives(d)[0]) <= Groups(d)
    ensures Wf(d) ==> AltWf(Alternatives(d)[0])
    decreases d
  {
    if d.Or? {
      FirstAlternative(d.init);
      assert Alternatives(d)[0] == Alternatives(d.init)[0];
    }
  }

  // ----- bytes -----

  lemma EncAround(i: Instr, code: Code, j: Instr)
    ensures EncAll([i] + code + [j]) == Enc(i) + EncAll(code) + Enc(j)
  {
    hide EncAll, Enc;
    EncAllConcat([i] + code, [j]);
    EncAllConcat([i], code);
    EncAllOne(i);
    EncAllOne(j);
  }

  lemma PairsStep(wide: bool, points: Points, i: nat)
    requires NormalPoints(points) && i < |points| && i % 2 == 0
    ensures points[i + 1] > 0
    ensures var h := points[i + 1] - 1;
            var high := if !wide && h == UINT32_MAX - 1 then 0xffff else h;
            PairsBytes(wide, Pairs(wide, points[i..])) ==
            (if wide then U32(points[i]) + U32(high) else U16(points[i]) + U16(high)) +
            PairsBytes(wide, Pairs(wide, points[i + 2..]))
  {
    hide U16, U32;
    assert points[i..][2..] == points[i + 2..];
    assert points[i] < points[i + 1];
    var ps := Pairs(wide, points[i..]);
    assert ps[1..] == Pairs(wide, points[i + 2..]);
  }

  lemma QuantBytes(pre: seq<byte>, off: nat, min: nat, max: nat, count: nat, atom: Code)
    ensures pre + [38] + U32(off) + U32(min) + U32(max) + U32(count) + (EncAll(atom) + [14]) ==
            pre + EncAll([SimpleGreedyQuant(off, min, max, count)] + atom + [Match])
  {
    hide EncAll, U32;
    var i := SimpleGreedyQuant(off, min, max, count);
    EncAround(i, atom, Match);
    QuantHead(pre, off, min, max, count);
    assert Enc(Match) == [14];
    hide Enc;
    assert (pre + Enc(i)) + (EncAll(atom) + [14]) == pre + (Enc(i) + EncAll(atom) + [14]);
  }

  lemma QuantHead(pre: seq<byte>, off: nat, min: nat, max: nat, count: nat)
    ensures pre + [38] + U32(off) + U32(min) + U32(max) + U32(count) == pre + Enc(SimpleGreedyQuant(off, min, max, count))
  {
    hide U32;
    var a, b, c, d := U32(off), U32(min), U32(max), U32(count);
    assert pre + [38] + a + b + c + d == pre + ([38] + a + b + c + d);
  }

  lemma NoPairs(wide: bool, points: Points)
    requires points == []
    ensures PairsBytes(wide, Pairs(wide, points)) == []
  {
  }

  lemma EncNothing()
    ensures EncAll([]) == []
  {
  }

  /** The encodings of the instructions that the emitters write byte by byte. */
  lemma EncForms(n: int, greedy: bool)
    ensures Enc(Goto(n)) == [11] + U32(n) && Enc(Split(greedy, n)) == [12 + Flag(greedy)] + U32(n)
    ensures Enc(Loop(n)) == [18] + U32(n) && Enc(Look(greedy, n)) == [33 + Flag(greedy)] + U32(n)
    ensures Enc(Drop) == [20] && Enc(Match) == [14] && Enc(PushCharPos) == [35] && Enc(CheckAdvance) == [36]
  {
    hide U32;
  }

  lemma EncPush(n: nat)
    ensures Enc(PushI32(n)) == [19] + U32(n) && |Enc(PushI32(n))| == 5
  {
    hide U32;
  }

  lemma EncSave(bw: bool, index: byte)
    ensures Enc(Save(bw, index)) == [15 + Flag(bw)] + [index]
  {
  }

  // The lemmas below are stated with concatenations nested to the left, as appending builds them.

  lemma After(pre: seq<byte>, a: seq<byte>, b: seq<byte>)
    ensures pre + (a + b) == pre + a + b
  {
  }

  lemma EncAroundAfter(pre: seq<byte>, i: Instr, code: Code, j: Instr)
    ensures pre + EncAll([i] + code + [j]) == pre + Enc(i) + EncAll(code) + Enc(j)
  {
    hide EncAll, Enc;
    EncAround(i, code, j);
    After(pre, Enc(i) + EncAll(code), Enc(j));
    After(pre, Enc(i), EncAll(code));
  }

  /** The bytes of an atom, guarded or not, appended to pre. */
  function GuardBytes(pre: seq<byte>, atom: seq<byte>, check: bool): seq<byte> {
    if check then pre + [35] + atom + [36] else pre + atom
  }

  lemma GuardedAfter(pre: seq<byte>, atom: Code, check: bool)
    ensures pre + EncAll(Guarded(atom, check)) == GuardBytes(pre, EncAll(atom), check)
    ensures Size(Guarded(atom, check)) == Size(atom) + 2 * Flag(check)
  {
    hide EncAll, Enc, Size;
    EncForms(0, true);
    if check {
      EncAroundAfter(pre, PushCharPos, atom, CheckAdvance);
      EncAllConcat([PushCharPos] + atom, [CheckAdvance]);
      EncAllConcat([PushCharPos], atom);
      EncAllOne(PushCharPos);
      EncAllOne(CheckAdvance);
    }
  }

  lemma OptionalBytes(pre: seq<byte>, atom: Code, check: bool, greedy: bool)
    ensures GuardBytes(pre + ([12 + Flag(greedy)] + U32(Size(atom) + 2 * Flag(check))), EncAll(atom), check) ==
            pre + EncAll(OptionalCode(atom, check, greedy))
  {
    hide EncAll, Enc, U32, Guarded, Size, GuardBytes;
    EncForms(Size(atom) + 2 * Flag(check), greedy);
    var g := Guarded(atom, check);
    var i := Split(greedy, Size(atom) + 2 * Flag(check));
    GuardedAfter(pre + Enc(i), atom, check);
    EncAllConcat([i], g);
    EncAllOne(i);
    After(pre, Enc(i), EncAll(g));
  }

  lemma StarBytes(pre: seq<byte>, atom: Code, check: bool, greedy: bool)
    ensures var all := GuardBytes(pre + ([12 + Flag(greedy)] + U32(Size(atom) + 5 + 2 * Flag(check))), EncAll(atom), check);
            all + ([11] + U32(|pre| - (|all| + 5))) == pre + EncAll(StarCode(atom, check, greedy))
  {
    hide EncAll, Enc, U32, Guarded, GuardBytes, Size;
    var g := Guarded(atom, check);
    var n := Size(atom) + 2 * Flag(check);
    EncForms(n + 5, greedy);
    EncForms(-(n + 10), greedy);
    var i, j := Split(greedy, n + 5), Goto(-(n + 10));
    GuardedAfter(pre + Enc(i), atom, check);
    assert |pre + Enc(i) + EncAll(g)| == |pre| + 5 + n;
    EncAroundAfter(pre, i, g, j);
  }

  lemma CountedBytes(pre: seq<byte>, atom: Code, check: bool, greedy: bool, max: nat)
    ensures var head := pre + ([19] + U32(max)) + ([12 + Flag(greedy)] + U32(Size(atom) + 5 + 2 * Flag(check)));
            var all := GuardBytes(head, EncAll(atom), check);
            all + ([18] + U32(|pre| + 5 - (|all| + 5))) + [20] == pre + EncAll(CountedCode(atom, check, greedy, max))
  {
    hide EncAll, Enc, U32, Guarded, GuardBytes, Size;
    var n := Size(atom) + 2 * Flag(check);
    CountedHead(pre, atom, check, greedy, max);
    CountedTail(pre, GuardBytes(pre + ([19] + U32(max)) + ([12 + Flag(greedy)] + U32(n + 5)), EncAll(atom), check), n);
    CountedEncoded(pre, Guarded(atom, check), n, greedy, max);
  }

  lemma CountedTail(pre: seq<byte>, all: seq<byte>, n: nat)
    requires |all| == |pre| + 10 + n
    ensures all + ([18] + U32(|pre| + 5 - (|all| + 5))) + [20] == all + Enc(Loop(-(n + 10))) + Enc(Drop)
  {
    hide Enc, U32;
    EncForms(-(n + 10), true);
  }

  lemma CountedHead(pre: seq<byte>, atom: Code, check: bool, greedy: bool, max: nat)
    ensures var n := Size(atom) + 2 * Flag(check);
            var all := GuardBytes(pre + ([19] + U32(max)) + ([12 + Flag(greedy)] + U32(n + 5)), EncAll(atom), check);
            && all == pre + Enc(PushI32(max)) + Enc(Split(greedy, n + 5)) + EncAll(Guarded(atom, check))
            && |all| == |pre| + 10 + n && Size(Guarded(atom, check)) == n
  {
    hide EncAll, Enc, U32, Guarded, GuardBytes, Size;
    var n := Size(atom) + 2 * Flag(check);
    EncForms(n + 5, greedy);
    EncPush(max);
    var head := pre + Enc(PushI32(max)) + Enc(Split(greedy, n + 5));
    assert |head| == |pre| + 10;
    GuardedAfter(head, atom, check);
  }

  lemma CountedEncoded(pre: seq<byte>, g: Code, n: nat, greedy: bool, max: nat)
    ensures pre + Enc(PushI32(max)) + Enc(Split(greedy, n + 5)) + EncAll(g) + Enc(Loop(-(n + 10))) + Enc(Drop) ==
            pre + EncAll([PushI32(max)] + ([Split(greedy, n + 5)] + g + [Loop(-(n + 10))]) + [Drop])
  {
    hide EncAll, Enc;
    var i, j := Split(greedy, n + 5), Loop(-(n + 10));
    EncAroundAfter(pre + Enc(PushI32(max)), i, g, j);
    EncAroundAfter(pre, PushI32(max), [i] + g + [j], Drop);
  }

  lemma MandatoryBytes(pre: seq<byte>, atom: Code, min: nat)
    ensures MandatoryCode(atom, 1) == atom
    ensures var body := pre + [19] + U32(min) + EncAll(atom);
            min != 1 ==>
              body + ([18] + U32(|pre| + 5 - (|body| + 5))) + [20] == pre + EncAll(MandatoryCode(atom, min))
  {
    hide EncAll, Enc, U32, Size;
    EncForms(-(Size(atom) + 5), true);
    EncPush(min);
    var l := Loop(-(Size(atom) + 5));
    assert |pre + [19] + U32(min) + EncAll(atom)| == |pre| + 5 + Size(atom);
    After(pre, [19], U32(min));
    MandatoryEncoded(pre, atom, min, l);
  }

  lemma MandatoryEncoded(pre: seq<byte>, atom: Code, min: nat, l: Instr)
    ensures pre + Enc(PushI32(min)) + EncAll(atom) + Enc(l) + Enc(Drop) == pre + EncAll([PushI32(min)] + (atom + [l]) + [Drop])
  {
    hide EncAll, Enc;
    EncAllConcat(atom, [l]);
    EncAllOne(l);
    After(pre + Enc(PushI32(min)), EncAll(atom), Enc(l));
    EncAroundAfter(pre, PushI32(min), atom + [l], Drop);
  }

  lemma PlusBytes(pre: seq<byte>, atom: Code, greedy: bool)
    ensures pre + EncAll(atom) + ([13 - Flag(greedy)] + U32(|pre| - (|pre| + Size(atom) + 5))) ==
            pre + EncAll(atom + [Split(!greedy, -(Size(atom) + 5))])
  {
    hide EncAll, Enc, U32, Size, Flag;
    EncForms(-(Size(atom) + 5), !greedy);
    var i := Split(!greedy, -(Size(atom) + 5));
    EncAllConcat(atom, [i]);
    EncAllOne(i);
    NotGreedy(greedy);
    assert Enc(i) == [13 - Flag(greedy)] + U32(|pre| - (|pre| + Size(atom) + 5));
    After(pre, EncAll(atom), Enc(i));
  }

  lemma NotGreedy(greedy: bool)
    ensures 12 + Flag(!greedy) == 13 - Flag(greedy)
  {
  }

  /** The atom between what is before it and after it. */
  lemma AtomInside(pre: seq<byte>, atom: seq<byte>, a: seq<byte>, b: seq<byte>)
    ensures (pre + atom + a + b)[|pre|..|pre| + |atom|] == atom && pre + atom + [] + [] == pre + atom
  {
    assert (pre + atom + a + b)[..|pre| + |atom|] == pre + atom;
  }

  /** Appending does not change what is already there. */
  lemma CopyUnchanged(pre: seq<byte>, now: seq<byte>, start: nat, len: nat)
    requires start + len <= |pre| <= |now| && now[..|pre|] == pre
    ensures now[start..start + len] == pre[start..start + len]
  {
    var a, b := now[start..start + len], pre[start..start + len];
    forall i | 0 <= i < len ensures a[i] == b[i] {
      assert now[..|pre|][start + i] == now[start + i];
    }
  }

  lemma CharBytes(pre: seq<byte>, bw: bool, i: Instr)
    ensures (if bw then pre + [37] + Enc(i) + [37] else pre + Enc(i)) == pre + EncAll(Directed(bw, i))
  {
    hide Enc, EncAll;
    EncAllOne(i);
    assert Enc(Prev) == [37] by { EncPrev(); }
    EncAroundAfter(pre, Prev, [i], Prev);
    assert [Prev, i, Prev] == [Prev] + [i] + [Prev];
  }

  lemma EncPrev()
    ensures Enc(Prev) == [37]
  {
  }

  lemma GroupBytes(pre: seq<byte>, body: Code, bw: bool, index: byte)
    ensures pre + ([15 + Flag(bw)] + [index]) + EncAll(body) + ([16 - Flag(bw)] + [index]) ==
            pre + EncAll([Save(bw, index)] + body + [Save(!bw, index)])
  {
    hide EncAll, Enc;
    EncSave(bw, index);
    EncSave(!bw, index);
    EncAroundAfter(pre, Save(bw, index), body, Save(!bw, index));
  }

  /** The code of a lookaround. */
  lemma LookParts(f: Flags, canon: CodePoint -> CodePoint, t: Term, bw: bool, cc: nat)
    requires t.Lookaround?
    ensures var body := DisjCode(f, canon, t.body, t.behind, cc);
            TermCode(f, canon, t, bw, cc) == [Look(t.negated, Size(body) + 1)] + body + [Match]
    ensures TermWf(t) == Wf(t.body) && TermGroups(t) == Groups(t.body)
  {
  }

  /** Patching the operand of the lookaround once its body is known. */
  lemma LookBytes(pre: seq<byte>, body: Code, negated: bool, buf: seq<byte>)
    requires buf == pre + ([33 + Flag(negated)] + U32(0)) + EncAll(body) + [14]
    ensures var pos := |pre| + 1;
            buf[..pos] + U32(|buf| - (pos + 4)) + buf[pos + 4..] ==
            pre + EncAll([Look(negated, Size(body) + 1)] + body + [Match])
  {
    hide EncAll, Enc, U32, Size;
    var pos := |pre| + 1;
    var n := Size(body) + 1;
    EncForms(n, negated);
    assert buf[..pos] == pre + [33 + Flag(negated)];
    assert buf[pos + 4..] == EncAll(body) + [14];
    assert |buf| - (pos + 4) == n;
    EncAroundAfter(pre, Look(negated, n), body, Match);
    After(pre, [33 + Flag(negated)], U32(n));
    After(pre + [33 + Flag(negated)] + U32(n), EncAll(body), [14]);
  }

  lemma OrBytes(pre: seq<byte>, left: Code, right: Code, buf: seq<byte>)
    requires buf == pre + [13] + U32(Size(left) + 5) + EncAll(left) + ([11] + U32(0)) + EncAll(right)
    ensures var pos := |pre| + 5 + Size(left) + 1;
            buf[..pos] + U32(|buf| - (pos + 4)) + buf[pos + 4..] == pre + EncAll(OrCode(left, right))
  {
    hide EncAll, U32, Size, OrCode;
    var head := pre + [13] + U32(Size(left) + 5) + EncAll(left);
    var pos := |pre| + 5 + Size(left) + 1;
    assert |head| == pos - 1;
    assert buf[..pos] == head + [11];
    assert buf[pos + 4..] == EncAll(right);
    OrEncoded(pre, left, right);
  }

  lemma OrSplit(left: Code, right: Code)
    ensures EncAll(OrCode(left, right)) ==
            (Enc(Split(true, Size(left) + 5)) + EncAll(left)) + (Enc(Goto(Size(right))) + EncAll(right))
  {
    hide EncAll, Enc, Size;
    var i, j := Split(true, Size(left) + 5), Goto(Size(right));
    EncAllConcat([i] + left, [j] + right);
    EncAllConcat([i], left);
    EncAllConcat([j], right);
    EncAllOne(i);
    EncAllOne(j);
  }

  lemma OrEncoded(pre: seq<byte>, left: Code, right: Code)
    ensures pre + [13] + U32(Size(left) + 5) + EncAll(left) + [11] + U32(Size(right)) + EncAll(right) == pre + EncAll(OrCode(left, right))
  {
    hide EncAll, U32, Enc, Size, OrCode;
    OrJumps(Size(left) + 5, Size(right));
    OrSplit(left, right);
    OrAssociate(pre, [13], U32(Size(left) + 5), EncAll(left), [11], U32(Size(right)), EncAll(right));
  }

  lemma OrJumps(m: int, n: int)
    ensures Enc(Split(true, m)) == [13] + U32(m) && Enc(Goto(n)) == [11] + U32(n)
  {
    hide U32;
  }

  lemma OrAssociate(pre: seq<byte>, a: seq<byte>, b: seq<byte>, c: seq<byte>, x: seq<byte>, y: seq<byte>, z: seq<byte>)
    ensures pre + a + b + c + x + y + z == pre + ((a + b + c) + (x + y + z))
  {
    After(pre, a + b + c, x + y + z);
    After(pre, a + b, c);
    After(pre, a, b);
    After(pre + a + b + c, x + y, z);
    After(pre + a + b + c, x, y);
  }

  lemma WholeBytes(header: seq<byte>, sticky: bool, body: Code)
    ensures var loop := if sticky then header else header + ([12] + U32(6)) + [6] + ([11] + U32(-11));
            loop + ([15] + [0]) + EncAll(body) + ([16] + [0]) + [14] ==
            header + EncAll(SearchLoop(sticky) + ([Save(false, 0)] + body + [Save(true, 0)] + [Match]))
  {
    hide EncAll, Enc, U32;
    LoopBytes(header, sticky);
    EncForms(0, true);
    EncSave(false, 0);
    EncSave(true, 0);
    var loop := header + EncAll(SearchLoop(sticky));
    var whole := [Save(false, 0)] + body + [Save(true, 0)];
    EncAllConcat(SearchLoop(sticky), whole + [Match]);
    EncAllConcat(whole, [Match]);
    EncAllOne(Match);
    After(header, EncAll(SearchLoop(sticky)), EncAll(whole + [Match]));
    After(loop, EncAll(whole), [14]);
    EncAroundAfter(loop, Save(false, 0), body, Save(true, 0));
  }

  lemma LoopBytes(header: seq<byte>, sticky: bool)
    ensures (if sticky then header else header + ([12] + U32(6)) + [6] + ([11] + U32(-11))) == header + EncAll(SearchLoop(sticky))
  {
    hide EncAll, Enc, U32;
    EncForms(6, false);
    EncForms(-11, false);
    EncAny();
    EncNothing();
    assert SearchLoop(false) == [Split(false, 6)] + [Any] + [Goto(-11)];
    EncAroundAfter(header, Split(false, 6), [Any], Goto(-11));
    EncAllOne(Any);
  }

  /** The encodings of the terms without sub-terms that are single instructions. */
  lemma EncLeaf(t: Term, bw: bool, f: Flags)
    requires TermWf(t)
    ensures Enc(LineStart(f.multiLine)) == [if f.multiLine then 8 else 7]
    ensures Enc(LineEnd(f.multiLine)) == [if f.multiLine then 10 else 9]
    ensures t.Boundary? ==> Enc(WordBoundary(t.negated, f.ignoreCase)) == [21 + 2 * Flag(t.negated) + Flag(f.ignoreCase)]
    ensures t.Reference? ==> Enc(BackRef(bw, f.ignoreCase, t.n)) == [25 + 2 * Flag(bw) + Flag(f.ignoreCase)] + [t.n]
  {
  }

  lemma EncAny()
    ensures Enc(Any) == [6]
  {
  }

  lemma HeaderBytes(header: seq<byte>, code: seq<byte>, reFlags: int, captureCount: byte, stackSize: byte)
    requires header == U16(reFlags) + [0] + [0] + U32(0)
    ensures var b1 := (header + code)[..2] + [captureCount] + (header + code)[3..];
            var b2 := b1[..3] + [stackSize] + b1[4..];
            b2[..4] + U32(|code|) + b2[8..] == Header(reFlags, captureCount, stackSize, |code|) + code
  {
    hide U16, U32;
    var b1 := (header + code)[..2] + [captureCount] + (header + code)[3..];
    var b2 := b1[..3] + [stackSize] + b1[4..];
    assert b2[..4] == U16(reFlags) + [captureCount] + [stackSize];
    assert b2[8..] == code;
  }

  lemma TermScannable(f: Flags, canon: CodePoint -> CodePoint, t: Term, bw: bool, cc: nat)
    requires TermWf(t)
    ensures Scannable(TermCode(f, canon, t, bw, cc))
  {
    TermSound(f, canon, t, bw, cc);
  }

  lemma ProgramScannable(f: Flags, canon: CodePoint -> CodePoint, d: Disjunction, sticky: bool)
    requires Wf(d)
    ensures Scannable(ProgramCode(f, canon, d, sticky)) && NeverBelow(ProgramCode(f, canon, d, sticky), 0)
  {
    ProgramSound(f, canon, d, sticky);
  }

  lemma NoGroups()
    ensures AltGroups(Empty) == 0
  {
  }

  lemma GroupsStep(init: Alternative, last: Term)
    ensures AltGroups(Snoc(init, last)) == AltGroups(init) + TermGroups(last)
  {
  }

  class ReParseState {
    var byteCode: seq<byte>
    var captureCount: nat
    const flags: Flags
    const canon: CodePoint -> CodePoint

    constructor (flags: Flags, canon: CodePoint -> CodePoint)
      ensures byteCode == [] && captureCount == 1 && this.flags == flags && this.canon == canon
    {
      byteCode, captureCount := [], 1;
      this.flags, this.canon := flags, canon;
    }

    // ----- DynBuf -----

    method EmitOp(op: byte)
      modifies this`byteCode
      ensures byteCode == old(byteCode) + [op]
    {
      byteCode := byteCode + [op];
    }

    method EmitOpU8(op: byte, val: byte)
      modifies this`byteCode
      ensures byteCode == old(byteCode) + ([op] + [val])
    {
      byteCode := byteCode + ([op] + [val]);
    }

    method EmitOpU16(op: byte, val: int)
      modifies this`byteCode
      ensures byteCode == old(byteCode) + ([op] + U16(val))
    {
      byteCode := byteCode + ([op] + U16(val));
    }

    /** Returns the position of the operand. */
    method EmitOpU32(op: byte, val: int) returns (pos: nat)
      modifies this`byteCode
      ensures byteCode == old(byteCode) + ([op] + U32(val)) && pos == |old(byteCode)| + 1
    {
      byteCode := byteCode + [op];
      pos := |byteCode|;
      byteCode := byteCode + U32(val);
    }

    /** A jump to the absolute position target. */
    method EmitGoto(op: byte, target: int)
      modifies this`byteCode
      ensures byteCode == old(byteCode) + ([op] + U32(target - (|old(byteCode)| + 5)))
    {
      byteCode := byteCode + [op];
      var pos := |byteCode|;
      byteCode := byteCode + U32(target - (pos + 4));
    }

    /** put_u32 at an already emitted position. */
    method PutU32(pos: nat, val: int)
      requires pos + 4 <= |byteCode|
      modifies this`byteCode
      ensures byteCode == old(byteCode)[..pos] + U32(val) + old(byteCode)[pos + 4..]
    {
      byteCode := byteCode[..pos] + U32(val) + byteCode[pos + 4..];
    }

    method PutByte(pos: nat, val: byte)
      requires pos < |byteCode|
      modifies this`byteCode
      ensures byteCode == old(byteCode)[..pos] + [val] + old(byteCode)[pos + 1..]
    {
      byteCode := byteCode[..pos] + [val] + byteCode[pos + 1..];
    }

    /** Write a byte, or a 32-bit operand, at the start of the room left in the middle of the buffer. */
    method FillByte(pos: nat, val: byte, ghost done: seq<byte>, ghost room: seq<byte>, ghost rest: seq<byte>)
      requires byteCode == done + room + rest && pos == |done| && |room| >= 1
      modifies this`byteCode
      ensures byteCode == (done + [val]) + room[1..] + rest
    {
      PutByte(pos, val);
    }

    method FillU32(pos: nat, val: int, ghost done: seq<byte>, ghost room: seq<byte>, ghost rest: seq<byte>)
      requires byteCode == done + room + rest && pos == |done| && |room| >= 4
      modifies this`byteCode
      ensures byteCode == (done + U32(val)) + room[4..] + rest
    {
      PutU32(pos, val);
    }

    /** dbuf_insert: make room for len bytes at pos. The room holds stale bytes until it is written. */
    method Insert(pos: nat, len: nat) returns (ghost gap: seq<byte>)
      requires pos <= |byteCode|
      modifies this`byteCode
      ensures |gap| == len && byteCode == old(byteCode)[..pos] + gap + old(byteCode)[pos..]
    {
      var bytes := byteCode;
      var stale: seq<byte> := seq(len, i requires 0 <= i < len => if pos + i < |bytes| then bytes[pos + i] else 0);
      byteCode := bytes[..pos] + stale + bytes[pos..];
      gap := stale;
    }

    /** dbuf_put_self: append a copy of a stretch of the buffer. */
    method PutSelf(offset: nat, len: nat)
      requires offset + len <= |byteCode|
      modifies this`byteCode
      ensures byteCode == old(byteCode) + old(byteCode)[offset..offset + len]
    {
      byteCode := byteCode + byteCode[offset..offset + len];
    }

    // ----- characters and classes -----

    method EmitChar(c: nat)
      requires c <= 0x10_ffff
      modifies this`byteCode
      ensures byteCode == old(byteCode) + Enc(CharInstr(c, flags.ignoreCase))
    {
      if c <= 0xffff {
        EmitOpU16(if flags.ignoreCase then 2 else 1, c);
      } else {
        var _ := EmitOpU32(if flags.ignoreCase then 4 else 3, c);
      }
    }

    /** re_emit_range */
    method EmitRange(points: Points)
      requires NormalPoints(points) && |points| / 2 < 65535
      modifies this`byteCode
      ensures byteCode == old(byteCode) + Enc(RangeInstr(points, flags.ignoreCase))
    {
      hide PairsBytes, Pairs, U16, U32;
      var len := |points| / 2;
      if len == 0 {
        assert points == [];
        var _ := EmitOpU32(3, UINT32_MAX);
      } else {
        var high := points[|points| - 1];
        if high == UINT32_MAX {
          high := points[|points| - 2];
        }
        var wide := high > 0xffff;
        if wide {
          EmitOpU16(if flags.ignoreCase then 32 else 31, len);
        } else {
          EmitOpU16(if flags.ignoreCase then 30 else 29, len);
        }
        assert RangeInstr(points, flags.ignoreCase) == Range(wide, flags.ignoreCase, Pairs(wide, points));
        assert byteCode == old(byteCode) + ([OpCode(RangeInstr(points, flags.ignoreCase))] + U16(|Pairs(wide, points)|));
        EmitPairs(wide, points);
      }
    }

    method EmitPairs(wide: bool, points: Points)
      requires NormalPoints(points)
      modifies this`byteCode
      ensures byteCode == old(byteCode) + PairsBytes(wide, Pairs(wide, points))
    {
      hide PairsBytes, Pairs, PairBytes, U16, U32;
      ghost var all := PairsBytes(wide, Pairs(wide, points));
      assert points[0..] == points;
      var i := 0;
      while i < |points|
        invariant 0 <= i <= |points| && i % 2 == 0
        invariant byteCode + PairsBytes(wide, Pairs(wide, points[i..])) == old(byteCode) + all
      {
        PairsStep(wide, points, i);
        var h := points[i + 1] - 1;
        if !wide && h == UINT32_MAX - 1 {
          h := 0xffff;
        }
        if wide {
          byteCode := byteCode + (U32(points[i]) + U32(h));
        } else {
          byteCode := byteCode + (U16(points[i]) + U16(h));
        }
        i := i + 2;
      }
      NoPairs(wide, points[i..]);
    }

    // ----- quantifiers -----

    /** simple_greedy_quant: append the match, then insert the instruction before the atom. */
    method EmitSimpleQuantifier(start: nat, min: nat, max: nat, count: nat, ghost pre: seq<byte>, ghost atom: Code)
      requires byteCode == pre + EncAll(atom) && start == |pre|
      modifies this`byteCode
      ensures byteCode == pre + EncAll([SimpleGreedyQuant(Size(atom) + 1, min, max, count)] + atom + [Match])
    {
      hide EncAll, U32, Size;
      EmitOp(14);
      After(pre, EncAll(atom), [14]);
      InsertQuantifier(start, min, max, count, pre, EncAll(atom) + [14]);
      QuantBytes(pre, Size(atom) + 1, min, max, count, atom);
    }

    method InsertQuantifier(start: nat, min: nat, max: nat, count: nat, ghost pre: seq<byte>, ghost rest: seq<byte>)
      requires byteCode == pre + rest && start == |pre|
      modifies this`byteCode
      ensures byteCode == pre + [38] + U32(|rest|) + U32(min) + U32(max) + U32(count) + rest
    {
      hide U32;
      ghost var room := Insert(start, 17);
      ghost var done := pre;
      var pos := start;
      FillByte(pos, 38, done, room, rest);
      done, room, pos := done + [38], room[1..], pos + 1;
      FillU32(pos, |byteCode| - start - 17, done, room, rest);
      done, room, pos := done + U32(|rest|), room[4..], pos + 4;
      FillU32(pos, min, done, room, rest);
      done, room, pos := done + U32(min), room[4..], pos + 4;
      FillU32(pos, max, done, room, rest);
      done, room, pos := done + U32(max), room[4..], pos + 4;
      FillU32(pos, count, done, room, rest);
      done, room, pos := done + U32(count), room[4..], pos + 4;
      assert room == [];
      assert byteCode == done + rest;
    }

    /** Zero or one, or zero or more: insert the split before the atom, append the check and the goto. */
    method EmitOptional(start: nat, check: bool, greedy: bool, hasGoto: bool, ghost pre: seq<byte>, ghost atom: Code)
      requires byteCode == pre + EncAll(atom) && start == |pre|
      modifies this`byteCode
      ensures byteCode == pre + EncAll(if hasGoto then StarCode(atom, check, greedy) else OptionalCode(atom, check, greedy))
    {
      hide EncAll, U32, StarCode, OptionalCode;
      InsertSplit(start, check, greedy, hasGoto, pre, atom);
      if check {
        EmitOp(36);
      }
      if hasGoto {
        EmitGoto(11, start);
        StarBytes(pre, atom, check, greedy);
      } else {
        OptionalBytes(pre, atom, check, greedy);
      }
    }

    method InsertSplit(start: nat, check: bool, greedy: bool, hasGoto: bool, ghost pre: seq<byte>, ghost atom: Code)
      requires byteCode == pre + EncAll(atom) && start == |pre|
      modifies this`byteCode
      ensures var head := pre + ([12 + Flag(greedy)] + U32(Size(atom) + 5 * Flag(hasGoto) + 2 * Flag(check)));
              byteCode == (if check then head + [35] else head) + EncAll(atom)
    {
      hide EncAll, U32;
      var len := |byteCode| - start;
      ghost var room := Insert(start, 5 + Flag(check));
      ghost var rest := EncAll(atom);
      FillByte(start, 12 + Flag(greedy), pre, room, rest);
      ghost var done := pre + [12 + Flag(greedy)];
      room := room[1..];
      FillU32(start + 1, len + 5 * Flag(hasGoto) + 2 * Flag(check), done, room, rest);
      done, room := done + U32(len + 5 * Flag(hasGoto) + 2 * Flag(check)), room[4..];
      if check {
        FillByte(start + 5, 35, done, room, rest);
        done, room := done + [35], room[1..];
      }
      assert room == [];
      assert byteCode == done + rest;
      After(pre, [12 + Flag(greedy)], U32(len + 5 * Flag(hasGoto) + 2 * Flag(check)));
    }

    /** Zero to max: the count is pushed before the split. */
    method EmitCounted(start: nat, check: bool, greedy: bool, max: nat, ghost pre: seq<byte>, ghost atom: Code)
      requires byteCode == pre + EncAll(atom) && start == |pre|
      modifies this`byteCode
      ensures byteCode == pre + EncAll(CountedCode(atom, check, greedy, max))
    {
      hide EncAll, U32, CountedCode, GuardBytes, Size, Flag;
      InsertCounted(start, check, greedy, max, pre, atom);
      EmitGoto(18, start + 5);
      EmitOp(20);
      CountedBytes(pre, atom, check, greedy, max);
    }

    method InsertCounted(start: nat, check: bool, greedy: bool, max: nat, ghost pre: seq<byte>, ghost atom: Code)
      requires byteCode == pre + EncAll(atom) && start == |pre|
      modifies this`byteCode
      ensures byteCode ==
              GuardBytes(pre + ([19] + U32(max)) + ([12 + Flag(greedy)] + U32(Size(atom) + 5 + 2 * Flag(check))),
                         EncAll(atom), check)
    {
      hide EncAll, U32, Size;
      InsertCountedHead(start, check, greedy, max, pre, atom);
      if check {
        EmitOp(36);
      }
    }

    method InsertCountedHead(start: nat, check: bool, greedy: bool, max: nat, ghost pre: seq<byte>, ghost atom: Code)
      requires byteCode == pre + EncAll(atom) && start == |pre|
      modifies this`byteCode
      ensures var head := pre + ([19] + U32(max)) + ([12 + Flag(greedy)] + U32(Size(atom) + 5 + 2 * Flag(check)));
              byteCode == (if check then head + [35] else head) + EncAll(atom)
    {
      hide EncAll, U32;
      var len := |byteCode| - start;
      ghost var room := Insert(start, 10 + Flag(check));
      ghost var rest := EncAll(atom);
      ghost var done := pre;
      var pos := start;
      FillByte(pos, 19, done, room, rest);
      done, room, pos := done + [19], room[1..], pos + 1;
      FillU32(pos, max, done, room, rest);
      done, room, pos := done + U32(max), room[4..], pos + 4;
      FillByte(pos, 12 + Flag(greedy), done, room, rest);
      done, room, pos := done + [12 + Flag(greedy)], room[1..], pos + 1;
      FillU32(pos, len + 5 + 2 * Flag(check), done, room, rest);
      done, room, pos := done + U32(len + 5 + 2 * Flag(check)), room[4..], pos + 4;
      if check {
        FillByte(pos, 35, done, room, rest);
        done, room := done + [35], room[1..];
      }
      assert room == [];
      assert byteCode == done + rest;
      After(pre, [19], U32(max));
      After(pre + ([19] + U32(max)), [12 + Flag(greedy)], U32(len + 5 + 2 * Flag(check)));
    }

    /** The mandatory iterations; returns where the atom now starts. */
    method EmitMandatory(start: nat, min: nat, ghost pre: seq<byte>, ghost atom: Code) returns (start': nat)
      requires byteCode == pre + EncAll(atom) && start == |pre|
      modifies this`byteCode
      ensures byteCode == pre + EncAll(MandatoryCode(atom, min))
      ensures start' + Size(atom) <= |byteCode| && byteCode[start'..start' + Size(atom)] == EncAll(atom)
    {
      hide EncAll, U32, MandatoryCode, Size;
      MandatoryBytes(pre, atom, min);
      start' := start;
      if min != 1 {
        InsertPush(start, min, pre, EncAll(atom));
        start' := start + 5;
        EmitGoto(18, start');
        EmitOp(20);
        AtomInside(pre + [19] + U32(min), EncAll(atom), [18] + U32(start' - (|pre| + 5 + Size(atom) + 5)), [20]);
      } else {
        AtomInside(pre, EncAll(atom), [], []);
      }
    }

    /** Insert the push of a count. */
    method InsertPush(start: nat, val: nat, ghost pre: seq<byte>, ghost rest: seq<byte>)
      requires byteCode == pre + rest && start == |pre|
      modifies this`byteCode
      ensures byteCode == pre + [19] + U32(val) + rest
    {
      hide U32;
      ghost var room := Insert(start, 5);
      FillByte(start, 19, pre, room, rest);
      FillU32(start + 1, val, pre + [19], room[1..], rest);
    }

    /** A copy of the atom, between push_char_pos and check_advance if it may not move. */
    method AppendGuarded(start: nat, len: nat, check: bool, ghost atom: seq<byte>)
      requires start + len <= |byteCode| && byteCode[start..start + len] == atom
      modifies this`byteCode
      ensures byteCode == GuardBytes(old(byteCode), atom, check)
    {
      ghost var pre := byteCode;
      if check {
        EmitOp(35);
      }
      CopyUnchanged(pre, byteCode, start, len);
      PutSelf(start, len);
      if check {
        EmitOp(36);
      }
    }

    /** After the mandatory iterations: a loop around a copy of the atom. */
    method AppendStar(start: nat, len: nat, check: bool, greedy: bool, ghost atom: Code)
      requires start + len <= |byteCode| && len == Size(atom) && byteCode[start..start + len] == EncAll(atom)
      modifies this`byteCode
      ensures byteCode == old(byteCode) + EncAll(StarCode(atom, check, greedy))
    {
      hide EncAll, U32, StarCode, Size, GuardBytes;
      ghost var pre := byteCode;
      var pos := |byteCode|;
      var _ := EmitOpU32(12 + Flag(greedy), len + 5 + 2 * Flag(check));
      CopyUnchanged(pre, byteCode, start, len);
      AppendGuarded(start, len, check, EncAll(atom));
      EmitGoto(11, pos);
      StarBytes(pre, atom, check, greedy);
    }

    method AppendCounted(start: nat, len: nat, check: bool, greedy: bool, max: nat, ghost atom: Code)
      requires start + len <= |byteCode| && len == Size(atom) && byteCode[start..start + len] == EncAll(atom)
      modifies this`byteCode
      ensures byteCode == old(byteCode) + EncAll(CountedCode(atom, check, greedy, max))
    {
      hide EncAll, U32, CountedCode, Size, GuardBytes;
      ghost var pre := byteCode;
      var _ := EmitOpU32(19, max);
      var pos := |byteCode|;
      var _ := EmitOpU32(12 + Flag(greedy), len + 5 + 2 * Flag(check));
      CopyUnchanged(pre, byteCode, start, len);
      AppendGuarded(start, len, check, EncAll(atom));
      EmitGoto(18, pos);
      EmitOp(20);
      CountedBytes(pre, atom, check, greedy, max);
    }

    /** save_reset, when the atom has captures; returns where the atom now starts. */
    method EmitReset(start: nat, lastCaptureCount: nat, ghost pre: seq<byte>, ghost atom: Code) returns (start': nat, ghost pre': seq<byte>)
      requires byteCode == pre + EncAll(atom) && start == |pre|
      requires lastCaptureCount <= captureCount <= CAPTURE_COUNT_MAX
      modifies this`byteCode
      ensures pre' == pre + EncAll(Prefix(atom, lastCaptureCount, captureCount - lastCaptureCount, 0))
      ensures byteCode == pre' + EncAll(atom) && start' == |pre'|
    {
      hide EncAll, MandatoryCode;
      EncNothing();
      start', pre' := start, pre;
      if lastCaptureCount != captureCount {
        ghost var room := Insert(start, 3);
        FillByte(start, 17, pre, room, EncAll(atom));
        FillByte(start + 1, lastCaptureCount, pre + [17], room[1..], EncAll(atom));
        FillByte(start + 2, captureCount - 1, pre + [17] + [lastCaptureCount], room[2..], EncAll(atom));
        start' := start + 3;
        pre' := pre + [17] + [lastCaptureCount] + [captureCount - 1];
        EncAllOne(SaveReset(lastCaptureCount, captureCount - 1));
        assert room[3..] == [];
      }
    }

    method EmitFromZero(start: nat, lastCaptureCount: nat, max: nat, check: bool, greedy: bool, ghost pre: seq<byte>, ghost atom: Code)
      requires byteCode == pre + EncAll(atom) && start == |pre| && check == NeedCheckAdvance(atom)
      requires lastCaptureCount <= captureCount <= CAPTURE_COUNT_MAX
      modifies this`byteCode
      ensures byteCode == pre + EncAll(Prefix(atom, lastCaptureCount, captureCount - lastCaptureCount, 0) + Remainder(atom, 0, max, greedy))
    {
      hide EncAll, U32, StarCode, CountedCode, OptionalCode, NeedCheckAdvance, Prefix, Size;
      ghost var first := Prefix(atom, lastCaptureCount, captureCount - lastCaptureCount, 0);
      var last;
      ghost var pre';
      last, pre' := EmitReset(start, lastCaptureCount, pre, atom);
      if max == 0 {
        byteCode := byteCode[..last];
        EncNothing();
      } else if max == 1 || max == INT32_MAX {
        EmitOptional(last, check, greedy, max == INT32_MAX, pre', atom);
      } else {
        EmitCounted(last, check, greedy, max, pre', atom);
      }
      assert byteCode == pre' + EncAll(Remainder(atom, 0, max, greedy));
      EncAllConcat(first, Remainder(atom, 0, max, greedy));
      After(pre, EncAll(first), EncAll(Remainder(atom, 0, max, greedy)));
    }

    method EmitFromMin(start: nat, min: nat, max: nat, check: bool, greedy: bool, ghost pre: seq<byte>, ghost atom: Code)
      requires byteCode == pre + EncAll(atom) && start == |pre| && check == NeedCheckAdvance(atom) && 0 < min <= max
      modifies this`byteCode
      ensures byteCode == pre + EncAll(MandatoryCode(atom, min) + Remainder(atom, min, max, greedy))
    {
      hide EncAll, U32, StarCode, CountedCode, MandatoryCode, NeedCheckAdvance;
      ghost var rest := Remainder(atom, min, max, greedy);
      var len := |byteCode| - start;
      var last := EmitMandatory(start, min, pre, atom);
      ghost var done := byteCode;
      if max == INT32_MAX {
        AppendStar(last, len, check, greedy, atom);
      } else if max > min {
        AppendCounted(last, len, check, greedy, max - min, atom);
      } else {
        EncNothing();
      }
      assert byteCode == done + EncAll(rest);
      EncAllConcat(MandatoryCode(atom, min), rest);
      After(pre, EncAll(MandatoryCode(atom, min)), EncAll(rest));
    }

    /** The quantifier part of re_parse_term, after the atom that starts at start has been emitted. */
    method EmitQuantifier(start: nat, lastCaptureCount: nat, min: nat, max: nat, greedy: bool, ghost pre: seq<byte>, ghost atom: Code)
      requires byteCode == pre + EncAll(atom) && start == |pre| && Scannable(atom)
      requires lastCaptureCount <= captureCount <= CAPTURE_COUNT_MAX && min <= max
      modifies this`byteCode
      ensures byteCode == pre + EncAll(RepeatCode(atom, lastCaptureCount, captureCount - lastCaptureCount, min, max, greedy))
    {
      hide EncAll, U32, StarCode, CountedCode, OptionalCode, MandatoryCode, NeedCheckAdvance, SimpleQuantifier, Scannable, Remainder, Size;
      assert byteCode[start..] == EncAll(atom);
      if greedy && max > 0 {
        var count := SimpleQuantifierScan(byteCode[start..], atom);
        if count > 0 {
          EmitSimpleQuantifier(start, min, max, count, pre, atom);
          return;
        }
      }
      var check := NeedCheckAdvanceScan(byteCode[start..], atom);
      if min == 0 {
        EmitFromZero(start, lastCaptureCount, max, check, greedy, pre, atom);
      } else if min == 1 && max == INT32_MAX && !check {
        EmitGoto(13 - Flag(greedy), start);
        PlusBytes(pre, atom, greedy);
      } else {
        EmitFromMin(start, min, max, check, greedy, pre, atom);
      }
    }

    // ----- the recursive descent -----

    /** re_parse_term */
    method ParseTerm(t: Term, bw: bool) returns (ok: bool)
      requires TermWf(t) && captureCount <= CAPTURE_COUNT_MAX
      modifies this
      ensures ok == (old(captureCount) + TermGroups(t) <= CAPTURE_COUNT_MAX)
      ensures ok ==> captureCount == old(captureCount) + TermGroups(t)
      ensures ok ==> byteCode == old(byteCode) + EncAll(TermCode(flags, canon, t, bw, old(captureCount)))
      decreases TermNodes(t), 0
    {
      hide EncAll, Wf, NormalPoints, DisjCode, RepeatCode, U32;
      ok := true;
      match t {
        case Plain(d) => ok := ParseDisjunction(d, bw);
        case Group(d) => ok := ParseGroup(t, bw);
        case Lookaround(d, behind, negated) => ok := ParseLookaround(t, bw);
        case Repeat(a, min, max, greedy) =>
          var start, lastCaptureCount := |byteCode|, captureCount;
          ghost var pre := byteCode;
          ok := ParseTerm(a, bw);
          if ok {
            TermScannable(flags, canon, a, bw, lastCaptureCount);
            EmitQuantifier(start, lastCaptureCount, min, max, greedy, pre, TermCode(flags, canon, a, bw, lastCaptureCount));
          }
        case _ => EmitLeaf(t, bw);
      }
    }

    /** '(' ... ')': the captures are saved in the order in which the two ends are reached. */
    method ParseGroup(t: Term, bw: bool) returns (ok: bool)
      requires t.Group? && TermWf(t) && captureCount <= CAPTURE_COUNT_MAX
      modifies this
      ensures ok == (old(captureCount) + TermGroups(t) <= CAPTURE_COUNT_MAX)
      ensures ok ==> captureCount == old(captureCount) + TermGroups(t)
      ensures ok ==> byteCode == old(byteCode) + EncAll(TermCode(flags, canon, t, bw, old(captureCount)))
      decreases Nodes(t.body), 1
    {
      hide EncAll, Wf, DisjCode, U32, Groups;
      ghost var pre := byteCode;
      if captureCount >= CAPTURE_COUNT_MAX {
        return false;
      }
      var index := captureCount;
      captureCount := captureCount + 1;
      EmitOpU8(15 + Flag(bw), index);
      ok := ParseDisjunction(t.body, bw);
      if ok {
        EmitOpU8(16 - Flag(bw), index);
        GroupBytes(pre, DisjCode(flags, canon, t.body, bw, index + 1), bw, index);
      }
    }

    /** A lookaround: the length of its body is patched in afterwards. */
    method ParseLookaround(t: Term, bw: bool) returns (ok: bool)
      requires t.Lookaround? && TermWf(t) && captureCount <= CAPTURE_COUNT_MAX
      modifies this
      ensures ok == (old(captureCount) + TermGroups(t) <= CAPTURE_COUNT_MAX)
      ensures ok ==> captureCount == old(captureCount) + TermGroups(t)
      ensures ok ==> byteCode == old(byteCode) + EncAll(TermCode(flags, canon, t, bw, old(captureCount)))
      decreases Nodes(t.body), 1
    {
      hide EncAll, Wf, DisjCode, U32, Groups, TermCode, TermWf, TermGroups, Size, Nodes;
      ghost var pre := byteCode;
      ghost var body := DisjCode(flags, canon, t.body, t.behind, captureCount);
      LookParts(flags, canon, t, bw, captureCount);
      var pos := EmitOpU32(33 + Flag(t.negated), 0);
      ok := ParseDisjunction(t.body, t.behind);
      if ok {
        EmitOp(14);
        LookBytes(pre, body, t.negated, byteCode);
        PutU32(pos, |byteCode| - (pos + 4));
      }
    }

    /** The terms without sub-terms. */
    method EmitLeaf(t: Term, bw: bool)
      requires !t.Plain? && !t.Group? && !t.Lookaround? && !t.Repeat? && TermWf(t)
      modifies this`byteCode
      ensures byteCode == old(byteCode) + EncAll(TermCode(flags, canon, t, bw, captureCount))
    {
      hide EncAll, NormalPoints, CharTermInstr, Directed, Enc;
      EncLeaf(t, bw, flags);
      match t {
        case Bol => EmitOp(if flags.multiLine then 8 else 7); EncAllOne(LineStart(flags.multiLine));
        case Eol => EmitOp(if flags.multiLine then 10 else 9); EncAllOne(LineEnd(flags.multiLine));
        case Boundary(negated) =>
          EmitOp(21 + 2 * Flag(negated) + Flag(flags.ignoreCase));
          EncAllOne(WordBoundary(negated, flags.ignoreCase));
        case Reference(n) =>
          EmitOpU8(25 + 2 * Flag(bw) + Flag(flags.ignoreCase), n);
          EncAllOne(BackRef(bw, flags.ignoreCase, n));
        case Character(_) => EmitCharTerm(t, bw);
        case Period => EmitCharTerm(t, bw);
        case Class(_) => EmitCharTerm(t, bw);
      }
    }

    /** A single character, class or dot, between two prev opcodes when matching backward. */
    method EmitCharTerm(t: Term, bw: bool)
      requires (t.Character? || t.Period? || t.Class?) && TermWf(t)
      modifies this`byteCode
      ensures byteCode == old(byteCode) + EncAll(Directed(bw, CharTermInstr(flags, canon, t)))
    {
      hide EncAll, NormalPoints, RangeInstr, CharInstr;
      if bw {
        EmitOp(37);
      }
      match t {
        case Character(c) => EmitChar(if flags.ignoreCase then canon(c) else c);
        case Period => EmitOp(if flags.dotAll then 6 else 5);
        case Class(points) => EmitRange(points);
      }
      if bw {
        EmitOp(37);
      }
      CharBytes(old(byteCode), bw, CharTermInstr(flags, canon, t));
    }

    /** In a lookbehind the terms run right to left: move the term just parsed before the earlier ones. */
    method MoveTermFirst(start: nat, termStart: nat)
      requires start <= termStart <= |byteCode|
      modifies this`byteCode
      ensures byteCode == old(byteCode)[..start] + old(byteCode)[termStart..] + old(byteCode)[start..termStart]
    {
      var buf := byteCode;
      var end := |buf|;
      var termSize := end - termStart;
      var room: seq<byte> := seq(termSize, _ => 0);
      var grown := buf + room;
      // memmove, then memcpy from the end
      var moved := grown[..start + termSize] + grown[start..end];
      assert moved[end..] == buf[termStart..];
      assert moved[start + termSize..end] == buf[start..termStart];
      moved := moved[..start] + moved[end..] + moved[start + termSize..end];
      byteCode := moved;
    }

    /** The body of the loop in re_parse_alternative. */
    method ParseNextTerm(t: Term, bw: bool, start: nat, ghost pre: seq<byte>, ghost earlier: Code) returns (ok: bool)
      requires TermWf(t) && captureCount <= CAPTURE_COUNT_MAX
      requires byteCode == pre + EncAll(earlier) && start == |pre|
      modifies this
      ensures ok == (old(captureCount) + TermGroups(t) <= CAPTURE_COUNT_MAX)
      ensures ok ==> captureCount == old(captureCount) + TermGroups(t)
      ensures ok ==> var next := TermCode(flags, canon, t, bw, old(captureCount));
                     byteCode == pre + EncAll(if bw then next + earlier else earlier + next)
      decreases TermNodes(t), 1
    {
      hide EncAll, TermCode, TermWf, TermGroups;
      var termStart := |byteCode|;
      ghost var next := TermCode(flags, canon, t, bw, captureCount);
      ok := ParseTerm(t, bw);
      if !ok {
        return;
      }
      if bw {
        assert byteCode[..start] == pre && byteCode[start..termStart] == EncAll(earlier) && byteCode[termStart..] == EncAll(next);
        MoveTermFirst(start, termStart);
        EncAllConcat(next, earlier);
        After(pre, EncAll(next), EncAll(earlier));
      } else {
        EncAllConcat(earlier, next);
        After(pre, EncAll(earlier), EncAll(next));
      }
    }

    /** re_parse_alternative */
    method ParseAlternative(a: Alternative, bw: bool) returns (ok: bool)
      requires AltWf(a) && captureCount <= CAPTURE_COUNT_MAX
      modifies this
      ensures ok == (old(captureCount) + AltGroups(a) <= CAPTURE_COUNT_MAX)
      ensures ok ==> captureCount == old(captureCount) + AltGroups(a)
      ensures ok ==> byteCode == old(byteCode) + EncAll(AltCode(flags, canon, a, bw, old(captureCount)))
      decreases AltNodes(a), 0
    {
      hide EncAll, TermCode, TermWf, AltWf, AltGroups;
      ghost var pre, cc := byteCode, captureCount;
      var start := |byteCode|;
      var terms := Terms(a);
      var i := 0;
      FirstTermsEmpty(a);
      EncNothing();
      NoGroups();
      while i < |terms|
        invariant 0 <= i <= |terms|
        invariant captureCount == cc + AltGroups(FirstTerms(a, i)) <= CAPTURE_COUNT_MAX
        invariant byteCode == pre + EncAll(AltCode(flags, canon, FirstTerms(a, i), bw, cc))
      {
        FirstTermsStep(a, i);
        GroupsStep(FirstTerms(a, i), terms[i]);
        ok := ParseNextTerm(terms[i], bw, start, pre, AltCode(flags, canon, FirstTerms(a, i), bw, cc));
        if !ok {
          return;
        }
        i := i + 1;
      }
      ok := true;
    }

    /** Insert a split before the first alternative. */
    method InsertFirstSplit(start: nat, len: nat, ghost pre: seq<byte>, ghost left: seq<byte>)
      requires byteCode == pre + left && start == |pre| && len == |left|
      modifies this`byteCode
      ensures byteCode == pre + [13] + U32(len + 5) + left
    {
      hide U32;
      ghost var room := Insert(start, 5);
      FillByte(start, 13, pre, room, left);
      FillU32(start + 1, len + 5, pre + [13], room[1..], left);
    }

    /** The body of the loop in re_parse_disjunction. */
    method ParseNextAlternative(a: Alternative, bw: bool, start: nat, ghost pre: seq<byte>, ghost left: Code) returns (ok: bool)
      requires AltWf(a) && captureCount <= CAPTURE_COUNT_MAX
      requires byteCode == pre + EncAll(left) && start == |pre|
      modifies this
      ensures ok == (old(captureCount) + AltGroups(a) <= CAPTURE_COUNT_MAX)
      ensures ok ==> captureCount == old(captureCount) + AltGroups(a)
      ensures ok ==> byteCode == pre + EncAll(OrCode(left, AltCode(flags, canon, a, bw, old(captureCount))))
      decreases AltNodes(a), 1
    {
      hide EncAll, AltCode, AltWf, OrCode, U32, AltGroups, Size;
      ghost var right := AltCode(flags, canon, a, bw, captureCount);
      var len := |byteCode| - start;
      InsertFirstSplit(start, len, pre, EncAll(left));
      var pos := EmitOpU32(11, 0);
      ok := ParseAlternative(a, bw);
      if !ok {
        return;
      }
      // patch the goto
      len := |byteCode| - (pos + 4);
      OrBytes(pre, left, right, byteCode);
      PutU32(pos, len);
    }

    /** re_parse_disjunction */
    method ParseDisjunction(d: Disjunction, bw: bool) returns (ok: bool)
      requires Wf(d) && captureCount <= CAPTURE_COUNT_MAX
      modifies this
      ensures ok == (old(captureCount) + Groups(d) <= CAPTURE_COUNT_MAX)
      ensures ok ==> captureCount == old(captureCount) + Groups(d)
      ensures ok ==> byteCode == old(byteCode) + EncAll(DisjCode(flags, canon, d, bw, old(captureCount)))
      decreases Nodes(d), 0
    {
      hide EncAll, AltCode, AltWf, Wf, OrCode, U32, Groups, DisjCode, FirstAlternatives, AltGroups, Alternatives;
      ghost var pre, cc := byteCode, captureCount;
      var start := |byteCode|;
      var alts := Alternatives(d);
      FirstAlternative(d);
      DisjStart(flags, canon, d, bw, cc);
      ok := ParseAlternative(alts[0], bw);
      if !ok {
        return;
      }
      var i := 1;
      while i < |alts|
        invariant 1 <= i <= |alts|
        invariant captureCount == cc + Groups(FirstAlternatives(d, i)) <= CAPTURE_COUNT_MAX
        invariant byteCode == pre + EncAll(DisjCode(flags, canon, FirstAlternatives(d, i), bw, cc))
      {
        FirstAlternativesStep(d, i);
        DisjStep(flags, canon, d, i, bw, cc);
        ok := ParseNextAlternative(alts[i], bw, start, pre, DisjCode(flags, canon, FirstAlternatives(d, i), bw, cc));
        if !ok {
          return;
        }
        i := i + 1;
      }
      AllAlternatives(d);
      ok := true;
    }
  }

  /** lre_compile, after the pattern has been read. */
  method LreCompile(flags: Flags, canon: CodePoint -> CodePoint, d: Disjunction, sticky: bool, reFlags: int) returns (r: Result<seq<byte>, CompileError>)
    requires Wf(d)
    ensures r == Compile(flags, canon, d, sticky, reFlags)
  {
    hide EncAll, Wf, U16, U32, DisjCode, Sound, MaxDepth, Size, Scannable, NeverBelow, Groups, SearchLoop, Header;
    var s := new ReParseState(flags, canon);
    s.byteCode := U16(reFlags) + [0] + [0] + U32(0);
    ghost var header := s.byteCode;
    if !sticky {
      var _ := s.EmitOpU32(12, 6);
      s.EmitOp(6);
      var _ := s.EmitOpU32(11, -11);
    }
    s.EmitOpU8(15, 0);
    ghost var before := s.byteCode;
    var ok := s.ParseDisjunction(d, false);
    if !ok {
      return Err(TooManyCaptures);
    }
    s.EmitOpU8(16, 0);
    s.EmitOp(14);
    WholeBytes(header, sticky, DisjCode(flags, canon, d, false, 1));
    ProgramScannable(flags, canon, d, sticky);
    r := FillHeader(s, reFlags, header, ProgramCode(flags, canon, d, sticky));
  }

  /** The end of lre_compile: the stack size, and what is filled into the header. */
  method FillHeader(s: ReParseState, reFlags: int, ghost header: seq<byte>, ghost code: Code) returns (r: Result<seq<byte>, CompileError>)
    requires header == U16(reFlags) + [0] + [0] + U32(0) && s.byteCode == header + EncAll(code)
    requires Scannable(code) && NeverBelow(code, 0) && s.captureCount <= CAPTURE_COUNT_MAX
    modifies s
    ensures r == if MaxDepth(code) > STACK_SIZE_MAX then Err(TooManyImbricatedQuantifiers)
                 else Ok(Header(reFlags, old(s.captureCount), MaxDepth(code), Size(code)) + EncAll(code))
  {
    hide EncAll, U16, U32, MaxDepth, Size, Scannable, NeverBelow, Header;
    assert s.byteCode[HEADER_LEN..] == EncAll(code);
    var stackSize := ComputeStackSize(s.byteCode[HEADER_LEN..], code);
    if stackSize < 0 {
      return Err(TooManyImbricatedQuantifiers);
    }
    s.PutByte(2, s.captureCount);
    s.PutByte(3, stackSize);
    s.PutU32(4, |s.byteCode| - HEADER_LEN);
    HeaderBytes(header, EncAll(code), reFlags, s.captureCount, stackSize);
    r := Ok(s.byteCode);
  }
}

/**
 Byte-code safety. A linear scan assigns to every instruction boundary the shape of the value stack: which slots
 hold loop counters and which hold positions. Compiled code passes the check that every jump connects boundaries of
 equal shape, and in every configuration that a run reaches, pc is a boundary and the stack has the shape of pc.
 */
module RegexSafety {
  import opened Bytes
  import opened Wrappers
  import opened RegexSyntax
  import opened RegexBytecode
  import opened RegexReference
  import opened RegexCompiler
  import opened RegexMachine
  import opened RegexSimulation
  import opened RegexProgram
  import opened RegexExec

  // pusher: the number of the instruction that pushed the slot
  datatype Slot = Counter(pusher: nat) | Position(pusher: nat)

  type Shape = seq<Slot>

  /** The shape after instruction i, the one with number o: loop and drop act on a counter, check_advance on a position. */
  function ShapeAfter(s: Shape, o: nat, i: Instr): Option<Shape> {
    match i
    case PushI32(_) => Some(s + [Counter(o)])
    case PushCharPos => Some(s + [Position(o)])
    case Drop => if s != [] && s[|s| - 1].Counter? then Some(s[..|s| - 1]) else None
    case CheckAdvance => if s != [] && s[|s| - 1].Position? then Some(s[..|s| - 1]) else None
    case Loop(_) => if s != [] && s[|s| - 1].Counter? then Some(s) else None
    case _ => Some(s)
  }

  /** The shape after code that starts at instruction number o. */
  function Scan(s: Shape, o: nat, code: Code): Option<Shape>
    decreases |code|
  {
    if code == [] then Some(s)
    else
      match ShapeAfter(s, o, code[0])
      case None => None
      case Some(t) => Scan(t, o + 1, code[1..])
  }

  predicate Jumps(i: Instr) { i.Goto? || i.Split? || i.Loop? || i.Look? || i.SimpleGreedyQuant? }

  function Offset(i: Instr): int
    requires Jumps(i)
  {
    match i
    case Goto(off) => off
    case Split(_, off) => off
    case Loop(off) => off
    case Look(_, off) => off
    case SimpleGreedyQuant(off, _, _, _) => off
  }

  /** The jump at instruction k lands on the boundary before instruction j, with the shape it leaves with. */
  ghost predicate Lands(s: Shape, o: nat, code: Code, k: nat, j: nat)
    requires k < |code| && Jumps(code[k])
  {
    && j <= |code|
    && Size(code[..j]) == Size(code[..k + 1]) + Offset(code[k])
    && Scan(s, o, code[..j]) == Scan(s, o, code[..k + 1])
  }

  ghost predicate JumpOk(s: Shape, o: nat, code: Code, k: nat)
    requires k < |code|
  {
    Jumps(code[k]) ==> exists j: nat :: Lands(s, o, code, k, j)
  }

  ghost predicate WellShaped(s: Shape, o: nat, code: Code) {
    Scan(s, o, code).Some? && forall k | 0 <= k < |code| :: JumpOk(s, o, code, k)
  }

  /** The fragment is well shaped and leaves the stack as it was. */
  ghost predicate Neutral(s: Shape, o: nat, code: Code) {
    WellShaped(s, o, code) && Scan(s, o, code) == Some(s)
  }

  lemma {:induction false} ScanConcat(s: Shape, o: nat, a: Code, b: Code)
    ensures Scan(s, o, a + b) == match Scan(s, o, a) { case None => None case Some(t) => Scan(t, o + |a|, b) }
    decreases |a|
  {
    if a == [] {
      assert a + b == b;
    } else {
      assert (a + b)[1..] == a[1..] + b;
      match ShapeAfter(s, o, a[0])
      case None =>
      case Some(t) => ScanConcat(t, o + 1, a[1..], b);
    }
  }

  lemma ScanOne(s: Shape, o: nat, i: Instr)
    ensures Scan(s, o, [i]) == ShapeAfter(s, o, i)
  {
    assert [i][1..] == [];
    match ShapeAfter(s, o, i)
    case None =>
    case Some(t) => assert Scan(t, o + 1, []) == Some(t);
  }

  /** Jumps inside a part of the code stay correct in the whole. */
  lemma Embed(s: Shape, o: nat, pre: Code, mid: Code, post: Code, t: Shape, k: nat)
    requires Scan(s, o, pre) == Some(t) && WellShaped(t, o + |pre|, mid) && k < |mid|
    ensures JumpOk(s, o, pre + mid + post, |pre| + k)
  {
    var code := pre + mid + post;
    assert code[|pre| + k] == mid[k];
    assert JumpOk(t, o + |pre|, mid, k);
    if Jumps(mid[k]) {
      var j: nat :| Lands(t, o + |pre|, mid, k, j);
      Prefixes(s, o, pre, mid, post, t, j);
      Prefixes(s, o, pre, mid, post, t, k + 1);
      assert Lands(s, o, code, |pre| + k, |pre| + j);
    }
  }

  lemma Prefixes(s: Shape, o: nat, pre: Code, mid: Code, post: Code, t: Shape, j: nat)
    requires Scan(s, o, pre) == Some(t) && j <= |mid|
    ensures Size((pre + mid + post)[..|pre| + j]) == Size(pre) + Size(mid[..j])
    ensures Scan(s, o, (pre + mid + post)[..|pre| + j]) == Scan(t, o + |pre|, mid[..j])
  {
    hide Size, Scan;
    assert (pre + mid + post)[..|pre| + j] == pre + mid[..j];
    EncAllConcat(pre, mid[..j]);
    ScanConcat(s, o, pre, mid[..j]);
  }

  /** A jump of the instruction after a, in a + [i] + b, to one end of a or of b. */
  lemma JumpsTo(s: Shape, o: nat, a: Code, i: Instr, b: Code, j: nat)
    requires Jumps(i) && j <= |a| + 1 + |b|
    requires var code := a + [i] + b;
             && Size(code[..j]) == Size(a) + InstrSize(i) + Offset(i)
             && Scan(s, o, code[..j]) == Scan(s, o, a + [i])
    ensures JumpOk(s, o, a + [i] + b, |a|)
  {
    var code := a + [i] + b;
    assert code[|a|] == i && code[..|a| + 1] == a + [i];
    EncAllConcat(a, [i]);
    EncAllOne(i);
    assert Lands(s, o, code, |a|, j);
  }

  lemma WellShapedConcat(s: Shape, o: nat, a: Code, b: Code)
    requires WellShaped(s, o, a) && WellShaped(Scan(s, o, a).value, o + |a|, b)
    ensures WellShaped(s, o, a + b) && Scan(s, o, a + b) == Scan(Scan(s, o, a).value, o + |a|, b)
  {
    hide Scan, JumpOk;
    var none: Code := [];
    ScanConcat(s, o, a, b);
    assert Scan(s, o, none) == Some(s) by { ScanNothing(s, o); }
    forall k | 0 <= k < |a + b| ensures JumpOk(s, o, a + b, k) {
      if k < |a| {
        Embed(s, o, none, a, b, s, k);
        assert none + a + b == a + b;
      } else {
        Embed(s, o, a, b, none, Scan(s, o, a).value, k - |a|);
        assert a + b + none == a + b;
      }
    }
  }

  lemma ScanNothing(s: Shape, o: nat)
    ensures Scan(s, o, []) == Some(s) && Size([]) == 0
  {
  }

  lemma NeutralNothing(s: Shape, o: nat)
    ensures Neutral(s, o, [])
  {
  }

  lemma NeutralConcat(s: Shape, o: nat, a: Code, b: Code)
    requires Neutral(s, o, a) && Neutral(s, o + |a|, b)
    ensures Neutral(s, o, a + b)
  {
    WellShapedConcat(s, o, a, b);
  }

  lemma NeutralOne(s: Shape, o: nat, i: Instr)
    requires !Jumps(i) && ShapeAfter(s, o, i) == Some(s)
    ensures Neutral(s, o, [i])
  {
    ScanOne(s, o, i);
  }

  /** An instruction, a neutral body and a last instruction. A jump of either goes to the start or to the end. */
  lemma ShapeAround(s: Shape, o: nat, i: Instr, code: Code, j: Instr)
    requires ShapeAfter(s, o, i).Some? && Neutral(ShapeAfter(s, o, i).value, o + 1, code)
    requires ShapeAfter(ShapeAfter(s, o, i).value, o + 1 + |code|, j).Some?
    requires Jumps(i) ==> Offset(i) == Size(code) + InstrSize(j) && ShapeAfter(s, o, i) == ShapeAfter(ShapeAfter(s, o, i).value, o + 1 + |code|, j)
    requires Jumps(j) ==> Offset(j) == -(InstrSize(i) + Size(code) + InstrSize(j)) && Some(s) == ShapeAfter(ShapeAfter(s, o, i).value, o + 1 + |code|, j)
    ensures WellShaped(s, o, [i] + code + [j]) && Scan(s, o, [i] + code + [j]) == ShapeAfter(ShapeAfter(s, o, i).value, o + 1 + |code|, j)
  {
    hide Scan, Size, InstrSize, JumpOk, ShapeAfter, Offset, Jumps;
    var t := ShapeAfter(s, o, i).value;
    var all := [i] + code + [j];
    ScanAround(s, o, i, code, j);
    ScanOne(s, o, i);
    forall k | 0 <= k < |all| ensures JumpOk(s, o, all, k) {
      if k == 0 {
        FirstJump(s, o, i, code, j);
      } else if k <= |code| {
        Embed(s, o, [i], code, [j], t, k - 1);
      } else {
        LastJump(s, o, i, code, j);
      }
    }
  }

  lemma ScanAround(s: Shape, o: nat, i: Instr, code: Code, j: Instr)
    requires ShapeAfter(s, o, i).Some? && Scan(ShapeAfter(s, o, i).value, o + 1, code) == ShapeAfter(s, o, i)
    ensures Scan(s, o, [i] + code) == ShapeAfter(s, o, i)
    ensures Scan(s, o, [i] + code + [j]) == ShapeAfter(ShapeAfter(s, o, i).value, o + 1 + |code|, j)
  {
    hide Scan, ShapeAfter;
    ScanOne(s, o, i);
    ScanConcat(s, o, [i], code);
    ScanOne(ShapeAfter(s, o, i).value, o + 1 + |code|, j);
    ScanConcat(s, o, [i] + code, [j]);
  }

  lemma FirstJump(s: Shape, o: nat, i: Instr, code: Code, j: Instr)
    requires ShapeAfter(s, o, i).Some? && Scan(ShapeAfter(s, o, i).value, o + 1, code) == ShapeAfter(s, o, i)
    requires Jumps(i) ==> Offset(i) == Size(code) + InstrSize(j) && ShapeAfter(s, o, i) == ShapeAfter(ShapeAfter(s, o, i).value, o + 1 + |code|, j)
    ensures JumpOk(s, o, [i] + code + [j], 0)
  {
    hide Scan, Size, InstrSize, JumpOk, ShapeAfter, Offset, Jumps;
    var all := [i] + code + [j];
    var none: Code := [];
    if Jumps(i) {
      ScanAround(s, o, i, code, j);
      ScanOne(s, o, i);
      SizeAround(i, code, j);
      ScanNothing(s, o);
      assert all[..|all|] == all;
      assert none + [i] == [i] && all == none + [i] + (code + [j]);
      JumpsTo(s, o, none, i, code + [j], |all|);
    } else {
      NoJump(s, o, all, 0);
    }
  }

  lemma LastJump(s: Shape, o: nat, i: Instr, code: Code, j: Instr)
    requires ShapeAfter(s, o, i).Some? && Scan(ShapeAfter(s, o, i).value, o + 1, code) == ShapeAfter(s, o, i)
    requires Jumps(j) ==> Offset(j) == -(InstrSize(i) + Size(code) + InstrSize(j)) && Some(s) == ShapeAfter(ShapeAfter(s, o, i).value, o + 1 + |code|, j)
    ensures JumpOk(s, o, [i] + code + [j], |code| + 1)
  {
    hide Scan, Size, InstrSize, JumpOk, ShapeAfter, Offset, Jumps;
    var all := [i] + code + [j];
    var none: Code := [];
    if Jumps(j) {
      ScanAround(s, o, i, code, j);
      SizeConcat([i], code);
      SizeOne(i);
      ScanNothing(s, o);
      assert all[..0] == none;
      assert all == ([i] + code) + [j] + none;
      JumpsTo(s, o, [i] + code, j, none, 0);
    } else {
      NoJump(s, o, all, |code| + 1);
    }
  }

  lemma NoJump(s: Shape, o: nat, code: Code, k: nat)
    requires k < |code| && !Jumps(code[k])
    ensures JumpOk(s, o, code, k)
  {
  }

  /** A neutral body and a last instruction that jumps back to its start. */
  lemma ShapeBack(s: Shape, o: nat, code: Code, j: Instr)
    requires Neutral(s, o, code) && Jumps(j) && ShapeAfter(s, o + |code|, j) == Some(s) && Offset(j) == -(Size(code) + InstrSize(j))
    ensures Neutral(s, o, code + [j])
  {
    hide Scan, Size, InstrSize, JumpOk, ShapeAfter, Offset;
    var all := code + [j];
    var none: Code := [];
    ScanNothing(s, o);
    ScanOne(s, o + |code|, j);
    ScanConcat(s, o, code, [j]);
    assert all[..0] == none;
    forall k | 0 <= k < |all| ensures JumpOk(s, o, all, k) {
      if k < |code| {
        assert all == none + code + [j];
        Embed(s, o, none, code, [j], s, k);
      } else {
        assert all == code + [j] + none;
        JumpsTo(s, o, code, j, none, 0);
      }
    }
  }

  /** A first instruction that may skip a neutral body. */
  lemma ShapeSkip(s: Shape, o: nat, i: Instr, code: Code)
    requires Neutral(s, o + 1, code) && Jumps(i) && ShapeAfter(s, o, i) == Some(s) && Offset(i) == Size(code)
    ensures Neutral(s, o, [i] + code)
  {
    hide Scan, Size, InstrSize, JumpOk, ShapeAfter, Offset;
    var all := [i] + code;
    var none: Code := [];
    ScanNothing(s, o);
    ScanOne(s, o, i);
    ScanConcat(s, o, [i], code);
    SizeConcat([i], code);
    SizeOne(i);
    assert all[..|all|] == all;
    forall k | 0 <= k < |all| ensures JumpOk(s, o, all, k) {
      if k == 0 {
        assert all == none + [i] + code && none + [i] == [i];
        JumpsTo(s, o, none, i, code, |all|);
      } else {
        assert all == [i] + code + none;
        Embed(s, o, [i], code, none, s, k - 1);
      }
    }
  }

  // ----- compiled code -----

  lemma {:induction false} TermNeutral(f: Flags, canon: CodePoint -> CodePoint, t: Term, bw: bool, cc: nat, s: Shape, o: nat)
    ensures Neutral(s, o, TermCode(f, canon, t, bw, cc))
    decreases t
  {
    hide Neutral, Size, RepeatCode, DisjCode, WellShaped;
    match t {
      case Plain(d) => DisjNeutral(f, canon, d, bw, cc, s, o);
      case Group(d) =>
        DisjNeutral(f, canon, d, bw, cc + 1, s, o + 1);
        NeutralAround(s, o, Save(bw, cc), DisjCode(f, canon, d, bw, cc + 1), Save(!bw, cc));
      case Lookaround(d, behind, negated) =>
        var body := DisjCode(f, canon, d, behind, cc);
        DisjNeutral(f, canon, d, behind, cc, s, o + 1);
        NeutralAround(s, o, Look(negated, Size(body) + 1), body, Match);
      case Repeat(a, min, max, greedy) =>
        forall u: Shape, v: nat ensures Neutral(u, v, TermCode(f, canon, a, bw, cc)) {
          TermNeutral(f, canon, a, bw, cc, u, v);
        }
        RepeatNeutral(TermCode(f, canon, a, bw, cc), cc, TermGroups(a), min, max, greedy, s, o);
      case Bol => NeutralOne(s, o, LineStart(f.multiLine));
      case Eol => NeutralOne(s, o, LineEnd(f.multiLine));
      case Boundary(n) => NeutralOne(s, o, WordBoundary(n, f.ignoreCase));
      case Reference(n) => NeutralOne(s, o, BackRef(bw, f.ignoreCase, n));
      case _ =>
        var i := CharTermInstr(f, canon, t);
        NeutralOne(s, o, i);
        NeutralOne(s, o + 1, i);
        NeutralAround(s, o, Prev, [i], Prev);
        assert [Prev, i, Prev] == [Prev] + [i] + [Prev];
    }
  }

  lemma NeutralAround(s: Shape, o: nat, i: Instr, code: Code, j: Instr)
    requires ShapeAfter(s, o, i).Some? && Neutral(ShapeAfter(s, o, i).value, o + 1, code)
    requires ShapeAfter(ShapeAfter(s, o, i).value, o + 1 + |code|, j) == Some(s)
    requires Jumps(i) ==> Offset(i) == Size(code) + InstrSize(j) && ShapeAfter(s, o, i) == Some(s)
    requires Jumps(j) ==> Offset(j) == -(InstrSize(i) + Size(code) + InstrSize(j))
    ensures Neutral(s, o, [i] + code + [j])
  {
    ShapeAround(s, o, i, code, j);
  }

  lemma LoopsNeutral(atom: Code, check: bool, greedy: bool, n: nat, s: Shape, o: nat)
    requires forall u: Shape, v: nat :: Neutral(u, v, atom)
    ensures Neutral(s, o, OptionalCode(atom, check, greedy)) && Neutral(s, o, StarCode(atom, check, greedy))
    ensures Neutral(s, o, CountedCode(atom, check, greedy, n)) && Neutral(s, o, MandatoryCode(atom, n))
  {
    hide Neutral, Size, Guarded;
    GuardedNeutral(atom, check);
    var g := Guarded(atom, check);
    ShapeSkip(s, o, Split(greedy, Size(g)), g);
    NeutralAround(s, o, Split(greedy, Size(g) + 5), g, Goto(-(Size(g) + 10)));
    CountersNeutral(atom, g, greedy, n, s, o);
  }

  lemma GuardedNeutral(atom: Code, check: bool)
    requires forall u: Shape, v: nat :: Neutral(u, v, atom)
    ensures forall u: Shape, v: nat :: Neutral(u, v, Guarded(atom, check))
  {
    hide Neutral;
    forall u: Shape, v: nat ensures Neutral(u, v, Guarded(atom, check)) {
      NeutralAround(u, v, PushCharPos, atom, CheckAdvance);
    }
  }

  lemma CountersNeutral(atom: Code, g: Code, greedy: bool, n: nat, s: Shape, o: nat)
    requires forall u: Shape, v: nat :: Neutral(u, v, atom)
    requires forall u: Shape, v: nat :: Neutral(u, v, g)
    ensures Neutral(s, o, [PushI32(n)] + ([Split(greedy, Size(g) + 5)] + g + [Loop(-(Size(g) + 10))]) + [Drop])
    ensures Neutral(s, o, [PushI32(n)] + (atom + [Loop(-(Size(atom) + 5))]) + [Drop])
  {
    hide Neutral, Size;
    var c := s + [Counter(o)];
    NeutralAround(c, o + 1, Split(greedy, Size(g) + 5), g, Loop(-(Size(g) + 10)));
    NeutralAround(s, o, PushI32(n), [Split(greedy, Size(g) + 5)] + g + [Loop(-(Size(g) + 10))], Drop);
    ShapeBack(c, o + 1, atom, Loop(-(Size(atom) + 5)));
    NeutralAround(s, o, PushI32(n), atom + [Loop(-(Size(atom) + 5))], Drop);
  }

  lemma RepeatNeutral(atom: Code, cc: nat, groups: nat, min: nat, max: nat, greedy: bool, s: Shape, o: nat)
    requires forall u: Shape, v: nat :: Neutral(u, v, atom)
    ensures Neutral(s, o, RepeatCode(atom, cc, groups, min, max, greedy))
  {
    hide Neutral, Size, NeedCheckAdvance, SimpleQuantifier, OptionalCode, StarCode, CountedCode, MandatoryCode;
    var check := NeedCheckAdvance(atom);
    if greedy && max > 0 && SimpleQuantifier(atom) > 0 {
      NeutralAround(s, o, SimpleGreedyQuant(Size(atom) + 1, min, max, SimpleQuantifier(atom)), atom, Match);
    } else if min == 1 && max == INT32_MAX && !check {
      ShapeBack(s, o, atom, Split(!greedy, -(Size(atom) + 5)));
    } else {
      LoopsNeutral(atom, check, greedy, min, s, o);
      LoopsNeutral(atom, check, greedy, if max > min then max - min else 0, s, o + |Prefix(atom, cc, groups, min)|);
      NeutralNothing(s, o);
      NeutralNothing(s, o + |Prefix(atom, cc, groups, min)|);
      NeutralOne(s, o, SaveReset(cc, if groups > 0 then cc + groups - 1 else 0));
      NeutralConcat(s, o, Prefix(atom, cc, groups, min), Remainder(atom, min, max, greedy));
    }
  }

  lemma {:induction false} AltNeutral(f: Flags, canon: CodePoint -> CodePoint, a: Alternative, bw: bool, cc: nat, s: Shape, o: nat)
    ensures Neutral(s, o, AltCode(f, canon, a, bw, cc))
    decreases a
  {
    hide Neutral, TermCode;
    match a {
      case Empty => NeutralNothing(s, o);
      case Snoc(init, last) =>
        var first := AltCode(f, canon, init, bw, cc);
        var next := TermCode(f, canon, last, bw, cc + AltGroups(init));
        AltNeutral(f, canon, init, bw, cc, s, if bw then o + |next| else o);
        TermNeutral(f, canon, last, bw, cc + AltGroups(init), s, if bw then o else o + |first|);
        if bw {
          NeutralConcat(s, o, next, first);
        } else {
          NeutralConcat(s, o, first, next);
        }
    }
  }

  lemma {:induction false} DisjNeutral(f: Flags, canon: CodePoint -> CodePoint, d: Disjunction, bw: bool, cc: nat, s: Shape, o: nat)
    ensures Neutral(s, o, DisjCode(f, canon, d, bw, cc))
    decreases d
  {
    hide Neutral, AltCode, OrCode;
    match d {
      case Single(a) => AltNeutral(f, canon, a, bw, cc, s, o);
      case Or(init, a) =>
        DisjNeutral(f, canon, init, bw, cc, s, o + 1);
        AltNeutral(f, canon, a, bw, cc + Groups(init), s, o + |DisjCode(f, canon, init, bw, cc)| + 2);
        OrNeutral(s, o, DisjCode(f, canon, init, bw, cc), AltCode(f, canon, a, bw, cc + Groups(init)));
    }
  }

  lemma OrNeutral(s: Shape, o: nat, left: Code, right: Code)
    requires Neutral(s, o + 1, left) && Neutral(s, o + |left| + 2, right)
    ensures Neutral(s, o, OrCode(left, right))
  {
    hide Scan, Size, JumpOk;
    var i, j := Split(true, Size(left) + 5), Goto(Size(right));
    var tail := [j] + right;
    var all := OrCode(left, right);
    var none: Code := [];
    ShapeSkip(s, o + |left| + 1, j, right);
    ScanNothing(s, o);
    ScanOne(s, o, i);
    ScanOne(s, o + |left| + 1, j);
    ScanConcat(s, o, [i], left);
    ScanConcat(s, o, [i] + left, tail);
    ScanConcat(s, o, [i] + left, [j]);
    SizeAround(i, left, j);
    var target := |left| + 2;
    assert all[..target] == [i] + left + [j];
    assert all == none + [i] + (left + tail) && none + [i] == [i];
    assert all == [i] + left + tail && all == ([i] + left) + tail + none;
    forall k | 0 <= k < |all| ensures JumpOk(s, o, all, k) {
      if k == 0 {
        JumpsTo(s, o, none, i, left + tail, target);
      } else if k <= |left| {
        Embed(s, o, [i], left, tail, s, k - 1);
      } else {
        Embed(s, o, [i] + left, tail, none, s, k - 1 - |left|);
      }
    }
  }

  lemma ProgramShaped(f: Flags, canon: CodePoint -> CodePoint, d: Disjunction, sticky: bool)
    ensures WellShaped([], 0, ProgramCode(f, canon, d, sticky))
  {
    hide Neutral, DisjCode;
    var s: Shape := [];
    var o := |SearchLoop(sticky)|;
    var body := DisjCode(f, canon, d, false, 1);
    DisjNeutral(f, canon, d, false, 1, s, o + 1);
    NeutralAround(s, o, Save(false, 0), body, Save(true, 0));
    NeutralOne(s, o + |body| + 2, Match);
    NeutralConcat(s, o, [Save(false, 0)] + body + [Save(true, 0)], [Match]);
    NeutralNothing(s, 0);
    NeutralOne(s, 1, Any);
    SizeOne(Any);
    NeutralAround(s, 0, Split(false, 6), [Any], Goto(-11));
    assert SearchLoop(false) == [Split(false, 6)] + [Any] + [Goto(-11)];
    NeutralConcat(s, 0, SearchLoop(sticky), WholeCode(f, canon, d));
    NeutralShaped(s, 0, ProgramCode(f, canon, d, sticky));
  }

  lemma NeutralShaped(s: Shape, o: nat, code: Code)
    requires Neutral(s, o, code)
    ensures WellShaped(s, o, code)
  {
  }

  // ----- runs -----

  /** The program is the given code, behind the header. */
  ghost predicate Holds(p: Program, code: Code) {
    Fits(p, HEADER_LEN, code, 0) && |p.code| == HEADER_LEN + Size(code) && WellShaped([], 0, code)
  }

  /** Positions on the value stack lie in the input. */
  ghost predicate Typed(p: Program, stack: seq<nat>, s: Shape) {
    |stack| == |s| && forall k | 0 <= k < |s| :: s[k].Position? ==> stack[k] <= |p.subject.input|
  }

  /** pc is the boundary before instruction k, and the stack has its static shape. */
  ghost predicate AtInstr(p: Program, code: Code, k: nat, pc: int, st: St, stack: seq<nat>) {
    && k <= |code|
    && pc == HEADER_LEN + Size(code[..k])
    && Scan([], 0, code[..k]).Some?
    && Typed(p, stack, Scan([], 0, code[..k]).value)
    && st.pos <= |p.subject.input|
  }

  ghost predicate AtBoundary(p: Program, code: Code, pc: int, st: St, stack: seq<nat>) {
    exists k: nat :: AtInstr(p, code, k, pc, st, stack)
  }

  /** A saved state is resumed at a boundary; a quantifier's state points to the operands of its instruction. */
  ghost predicate SavedOk(p: Program, code: Code, rs: Saved) {
    if rs.kind == GreedyState then
      exists k: nat :: AtInstr(p, code, k, rs.pc - 1, rs.st, rs.stack) && k < |code| && code[k].SimpleGreedyQuant?
    else AtBoundary(p, code, rs.pc, rs.st, rs.stack)
  }

  ghost predicate AllSavedOk(p: Program, code: Code, saved: seq<Saved>) {
    forall i | 0 <= i < |saved| :: SavedOk(p, code, saved[i])
  }

  ghost predicate Safe(p: Program, code: Code, c: Config) {
    match c
    case Run(pc, st, stack, saved) => AtBoundary(p, code, pc, st, stack) && AllSavedOk(p, code, saved)
    case Fail(saved) => AllSavedOk(p, code, saved)
    case Success(_, saved) => AllSavedOk(p, code, saved)
    case Done(_) => true
    case Stuck => false
  }

  lemma FetchInstr(p: Program, code: Code, k: nat)
    requires Holds(p, code) && k < |code| && Scan([], 0, code[..k]).Some?
    ensures Fetch(p.code, HEADER_LEN + Size(code[..k])) == Some(code[k])
    ensures Size(code[..k + 1]) == Size(code[..k]) + InstrSize(code[k])
    ensures Scan([], 0, code[..k + 1]) == ShapeAfter(Scan([], 0, code[..k]).value, k, code[k])
  {
    hide Fits, Fetch, Size, Scan, WellShaped;
    var a, b := code[..k], code[k + 1..];
    assert code == a + ([code[k]] + b);
    assert code[..k + 1] == a + [code[k]];
    DepthNat(code, k);
    FitsSplit(p, HEADER_LEN, a, [code[k]] + b, 0);
    FitsHead(p, HEADER_LEN + Size(a), code[k], b, Net(a));
    SizeConcat(a, [code[k]]);
    SizeOne(code[k]);
    ScanConcat([], 0, a, [code[k]]);
    ScanOne(Scan([], 0, a).value, k, code[k]);
  }

  /** The size of the shape is the level of compute_stack_size. */
  lemma {:induction false} ShapeSize(s: Shape, o: nat, code: Code)
    requires Scan(s, o, code).Some?
    ensures |Scan(s, o, code).value| == |s| + Net(code)
    decreases |code|
  {
    if code != [] {
      ShapeSize(ShapeAfter(s, o, code[0]).value, o + 1, code[1..]);
    }
  }

  lemma DepthNat(code: Code, k: nat)
    requires k <= |code| && Scan([], 0, code[..k]).Some?
    ensures Net(code[..k]) >= 0
  {
    ShapeSize([], 0, code[..k]);
  }

  /** The next instruction, or the target of a jump, is again a boundary. */
  lemma NextBoundary(p: Program, code: Code, k: nat, st: St, stack: seq<nat>)
    requires Holds(p, code) && k < |code| && Scan([], 0, code[..k + 1]).Some?
    requires Typed(p, stack, Scan([], 0, code[..k + 1]).value) && st.pos <= |p.subject.input|
    ensures AtBoundary(p, code, HEADER_LEN + Size(code[..k + 1]), st, stack)
    ensures Jumps(code[k]) ==> AtBoundary(p, code, HEADER_LEN + Size(code[..k + 1]) + Offset(code[k]), st, stack)
  {
    hide Scan, Fits, Size, Typed;
    assert AtInstr(p, code, k + 1, HEADER_LEN + Size(code[..k + 1]), st, stack);
    assert JumpOk([], 0, code, k);
    if Jumps(code[k]) {
      var j: nat :| Lands([], 0, code, k, j);
      assert AtInstr(p, code, j, HEADER_LEN + Size(code[..j]), st, stack);
    }
  }

  lemma CountInside(p: Program, pc: int, pos: nat, q: nat, max: nat)
    requires pos <= |p.subject.input|
    ensures var r := CountAtoms(p, pc, pos, q, max); r.Reached? ==> r.pos <= |p.subject.input|
    decreases |p.subject.input| - pos
  {
    hide RunAtom;
    match RunAtom(p, pc, pos)
    case Matched(pos') =>
      if pos' > pos && !(q + 1 >= max && max != INT32_MAX) {
        CountInside(p, pc, pos', q + 1, max);
      }
    case _ =>
  }

  lemma SavedPush(p: Program, code: Code, saved: seq<Saved>, rs: Saved)
    requires AllSavedOk(p, code, saved) && SavedOk(p, code, rs)
    ensures AllSavedOk(p, code, saved + [rs])
  {
  }

  /** The instructions that neither jump nor touch the value stack. */
  lemma PlainStepSafe(p: Program, code: Code, k: nat, st: St, stack: seq<nat>, saved: seq<Saved>, c: Config)
    requires Holds(p, code) && k < |code| && AtInstr(p, code, k, HEADER_LEN + Size(code[..k]), st, stack) && AllSavedOk(p, code, saved)
    requires var i := code[k];
             && !Jumps(i) && !i.PushI32? && !i.PushCharPos? && !i.Drop? && !i.CheckAdvance?
             && c == Exec(p, i, HEADER_LEN + Size(code[..k + 1]), st, stack, saved) && c != Stuck
    ensures Safe(p, code, c)
  {
    hide Holds, Fetch, SavedOk, Typed, Scan, Size, AtBoundary, BackRefTest, SimpleTest;
    FetchInstr(p, code, k);
    if c.Run? {
      if code[k].BackRef? {
        BackRefInside(p, code[k], st);
      } else if IsSimpleInstr(code[k]) {
        SimpleInside(p, code[k], st.pos);
      }
      NextBoundary(p, code, k, c.st, stack);
    }
  }

  predicate IsSimpleInstr(i: Instr) { i.Char? || i.Dot? || i.Any? || i.Range? || i.LineStart? || i.LineEnd? || i.WordBoundary? }

  lemma SimpleInside(p: Program, i: Instr, pos: nat)
    requires pos <= |p.subject.input|
    ensures SimpleTest(p.subject, i, pos).Moves? ==> SimpleTest(p.subject, i, pos).pos <= |p.subject.input|
  {
  }

  lemma BackRefInside(p: Program, i: Instr, st: St)
    requires i.BackRef? && st.pos <= |p.subject.input|
    ensures var r := BackRefTest(p.subject, i.backward, i.icase, i.idx, st); r.Moves? ==> r.pos <= |p.subject.input|
  {
  }

  /** The instructions that push or pop. */
  lemma StackStepSafe(p: Program, code: Code, k: nat, st: St, stack: seq<nat>, saved: seq<Saved>, c: Config)
    requires Holds(p, code) && k < |code| && AtInstr(p, code, k, HEADER_LEN + Size(code[..k]), st, stack) && AllSavedOk(p, code, saved)
    requires Scan([], 0, code[..k + 1]).Some?
    requires var i := code[k];
             && (i.PushI32? || i.PushCharPos? || i.Drop? || i.CheckAdvance?)
             && c == Exec(p, i, HEADER_LEN + Size(code[..k + 1]), st, stack, saved) && c != Stuck
    ensures Safe(p, code, c)
  {
    hide Holds, Fetch, SavedOk, Scan, Size, AtBoundary;
    FetchInstr(p, code, k);
    if c.Run? {
      NextBoundary(p, code, k, c.st, c.stack);
    }
  }

  lemma JumpStepSafe(p: Program, code: Code, k: nat, st: St, stack: seq<nat>, saved: seq<Saved>, c: Config)
    requires Holds(p, code) && k < |code| && AtInstr(p, code, k, HEADER_LEN + Size(code[..k]), st, stack) && AllSavedOk(p, code, saved)
    requires Scan([], 0, code[..k + 1]).Some?
    requires var i := code[k];
             && (i.Goto? || i.Split? || i.Look?)
             && c == Exec(p, i, HEADER_LEN + Size(code[..k + 1]), st, stack, saved)
    ensures Safe(p, code, c)
  {
    hide Holds, Fetch, Scan, Size, AtBoundary, Typed;
    FetchInstr(p, code, k);
    NextBoundary(p, code, k, st, stack);
    if code[k].Split? || code[k].Look? {
      SavedPush(p, code, saved, c.saved[|saved|]);
    }
  }

  lemma LoopStepSafe(p: Program, code: Code, k: nat, st: St, stack: seq<nat>, saved: seq<Saved>, c: Config)
    requires Holds(p, code) && k < |code| && AtInstr(p, code, k, HEADER_LEN + Size(code[..k]), st, stack) && AllSavedOk(p, code, saved)
    requires Scan([], 0, code[..k + 1]).Some? && code[k].Loop?
    requires c == Exec(p, code[k], HEADER_LEN + Size(code[..k + 1]), st, stack, saved) && c != Stuck
    ensures Safe(p, code, c)
  {
    hide Holds, Fetch, Scan, Size, AtBoundary, SavedOk;
    FetchInstr(p, code, k);
    NextBoundary(p, code, k, st, c.stack);
  }

  lemma QuantStepSafe(p: Program, code: Code, k: nat, st: St, stack: seq<nat>, saved: seq<Saved>, c: Config)
    requires Holds(p, code) && k < |code| && AtInstr(p, code, k, HEADER_LEN + Size(code[..k]), st, stack) && AllSavedOk(p, code, saved)
    requires Scan([], 0, code[..k + 1]).Some? && code[k].SimpleGreedyQuant?
    requires c == Exec(p, code[k], HEADER_LEN + Size(code[..k + 1]), st, stack, saved) && c != Stuck
    ensures Safe(p, code, c)
  {
    hide Holds, Fetch, Scan, Size, AtBoundary, Typed, CountAtoms;
    FetchInstr(p, code, k);
    CountInside(p, HEADER_LEN + Size(code[..k + 1]), st.pos, 0, code[k].max);
    if c.Run? {
      NextBoundary(p, code, k, c.st, stack);
      if |c.saved| > |saved| {
        var rs := c.saved[|saved|];
        assert AtInstr(p, code, k, rs.pc - 1, rs.st, rs.stack);
        SavedPush(p, code, saved, rs);
      }
    }
  }

  lemma RunStepSafe(p: Program, code: Code, c: Config)
    requires Holds(p, code) && c.Run? && Safe(p, code, c) && Step(p, c) != Stuck
    ensures Safe(p, code, Step(p, c))
  {
    hide Fetch, Exec, Size, AllSavedOk, Scan, Typed, Fits, WellShaped, ShapeAfter, SavedOk;
    var k: nat :| AtInstr(p, code, k, c.pc, c.st, c.stack);
    InstrAhead(p, code, k, c);
    FetchInstr(p, code, k);
    ScanPrefix(code, k + 1);
    InstrStepSafe(p, code, k, c.st, c.stack, c.saved, Step(p, c));
  }

  lemma InstrStepSafe(p: Program, code: Code, k: nat, st: St, stack: seq<nat>, saved: seq<Saved>, c1: Config)
    requires Holds(p, code) && k < |code| && AtInstr(p, code, k, HEADER_LEN + Size(code[..k]), st, stack) && AllSavedOk(p, code, saved)
    requires Scan([], 0, code[..k + 1]).Some?
    requires c1 == Exec(p, code[k], HEADER_LEN + Size(code[..k + 1]), st, stack, saved) && c1 != Stuck
    ensures Safe(p, code, c1)
  {
    hide Holds, AtInstr, AllSavedOk, Scan, Size, Exec, Safe;
    AtInstrInside(p, code, k, HEADER_LEN + Size(code[..k]), st, stack);
    var i := code[k];
    if i.Goto? || i.Split? || i.Look? {
      JumpStepSafe(p, code, k, st, stack, saved, c1);
    } else if i.Loop? {
      LoopStepSafe(p, code, k, st, stack, saved, c1);
    } else if i.SimpleGreedyQuant? {
      QuantStepSafe(p, code, k, st, stack, saved, c1);
    } else if i.PushI32? || i.PushCharPos? || i.Drop? || i.CheckAdvance? {
      StackStepSafe(p, code, k, st, stack, saved, c1);
    } else {
      PlainStepSafe(p, code, k, st, stack, saved, c1);
    }
  }

  lemma AtInstrInside(p: Program, code: Code, k: nat, pc: int, st: St, stack: seq<nat>)
    requires AtInstr(p, code, k, pc, st, stack)
    ensures st.pos <= |p.subject.input|
  {
  }

  lemma AtEnd(p: Program, code: Code, pc: int)
    requires Holds(p, code) && pc == HEADER_LEN + Size(code[..|code|])
    ensures Fetch(p.code, pc) == None
  {
    assert code[..|code|] == code;
  }

  lemma ScanPrefix(code: Code, k: nat)
    requires WellShaped([], 0, code) && k <= |code|
    ensures Scan([], 0, code[..k]).Some?
  {
    assert code == code[..k] + code[k..];
    ScanConcat([], 0, code[..k], code[k..]);
  }

  lemma BacktrackSafe(p: Program, code: Code, saved: seq<Saved>)
    requires Holds(p, code) && AllSavedOk(p, code, saved) && saved != [] && Backtrack(p, saved) != Stuck
    ensures Safe(p, code, Backtrack(p, saved))
  {
    hide Fetch, Holds, AtBoundary, Size, Scan, AtInstr;
    assert saved[..|saved| - 1] + [saved[|saved| - 1]] == saved;
    var rest, rs := saved[..|saved| - 1], saved[|saved| - 1];
    assert SavedOk(p, code, rs);
    assert AllSavedOk(p, code, rest);
    if rs.kind == GreedyState {
      GiveBackSafe(p, code, rest, rs, Backtrack(p, saved));
    }
  }

  lemma GiveBackSafe(p: Program, code: Code, rest: seq<Saved>, rs: Saved, c: Config)
    requires Holds(p, code) && AllSavedOk(p, code, rest) && SavedOk(p, code, rs) && rs.kind == GreedyState
    requires c == Backtrack(p, rest + [rs]) && c != Stuck
    ensures Safe(p, code, c)
  {
    hide Fetch, AtBoundary, Size, Scan, Typed, Fits, WellShaped, AllSavedOk, Backtrack;
    var k: nat :| AtInstr(p, code, k, rs.pc - 1, rs.st, rs.stack) && k < |code| && code[k].SimpleGreedyQuant?;
    FetchInstr(p, code, k);
    ScanPrefix(code, k + 1);
    GiveBackForm(p, rest, rs, code[k]);
    GivenBack(p, code, rest, rs, k, rs.st.(pos := rs.st.pos - code[k].charCount));
  }

  lemma GiveBackForm(p: Program, rest: seq<Saved>, rs: Saved, i: Instr)
    requires rs.kind == GreedyState && Fetch(p.code, rs.pc - 1) == Some(i) && i.SimpleGreedyQuant? && Backtrack(p, rest + [rs]) != Stuck
    ensures rs.count > 0 && rs.st.pos >= i.charCount
    ensures var st := rs.st.(pos := rs.st.pos - i.charCount);
            Backtrack(p, rest + [rs]) ==
            Run(rs.pc + 16 + i.off, st, rs.stack, if rs.count == 1 then rest else rest + [rs.(st := st, count := rs.count - 1)])
  {
    hide Fetch;
    assert (rest + [rs])[..|rest|] == rest && (rest + [rs])[|rest|] == rs;
  }

  lemma GivenBack(p: Program, code: Code, rest: seq<Saved>, rs: Saved, k: nat, st: St)
    requires Holds(p, code) && AllSavedOk(p, code, rest) && rs.kind == GreedyState && st.pos <= rs.st.pos
    requires AtInstr(p, code, k, rs.pc - 1, rs.st, rs.stack) && k < |code| && code[k].SimpleGreedyQuant?
    requires Scan([], 0, code[..k + 1]).Some? && Scan([], 0, code[..k + 1]) == Scan([], 0, code[..k])
    ensures AtBoundary(p, code, HEADER_LEN + Size(code[..k + 1]) + code[k].off, st, rs.stack)
    ensures rs.count > 0 ==> AllSavedOk(p, code, rest + [rs.(st := st, count := rs.count - 1)])
  {
    hide Holds, Size, Scan, Typed, AtBoundary, AllSavedOk;
    NextBoundary(p, code, k, st, rs.stack);
    if rs.count > 0 {
      var saved := rs.(st := st, count := rs.count - 1);
      assert AtInstr(p, code, k, saved.pc - 1, saved.st, saved.stack);
      SavedPush(p, code, rest, saved);
    }
  }

  lemma AcceptSafe(p: Program, code: Code, caps: Captures, saved: seq<Saved>)
    requires AllSavedOk(p, code, saved) && saved != []
    ensures Safe(p, code, Accept(caps, saved))
  {
    hide Size, Scan, Typed;
    var rest, rs := saved[..|saved| - 1], saved[|saved| - 1];
    assert SavedOk(p, code, rs);
    assert AllSavedOk(p, code, rest);
    if rs.kind == LookaheadState {
      var k: nat :| AtInstr(p, code, k, rs.pc, rs.st, rs.stack);
      assert AtInstr(p, code, k, rs.pc, St(rs.st.pos, caps), rs.stack);
    }
  }

  lemma StepSafe(p: Program, code: Code, c: Config)
    requires Holds(p, code) && Safe(p, code, c) && Step(p, c) != Stuck
    ensures Safe(p, code, Step(p, c))
  {
    hide Holds, AllSavedOk, AtBoundary, Fetch;
    match c {
      case Run(_, _, _, _) => RunStepSafe(p, code, c);
      case Fail(saved) => if saved != [] { BacktrackSafe(p, code, saved); }
      case Success(caps, saved) => if saved != [] { AcceptSafe(p, code, caps, saved); }
      case Done(_) =>
    }
  }

  lemma {:induction false} StepsSafe(p: Program, code: Code, c: Config, n: nat, m: nat, result: Option<Captures>)
    requires Holds(p, code) && Safe(p, code, c) && Steps(p, c, m) == Done(result)
    ensures Safe(p, code, Steps(p, c, n))
    decreases n
  {
    hide Step, Safe, Holds;
    if n > 0 {
      if m > 0 {
        if Step(p, c) == Stuck {
          StuckStays(p, m - 1);
        }
        StepSafe(p, code, c);
        StepsSafe(p, code, Step(p, c), n - 1, m - 1, result);
      } else {
        DoneStays(p, result, n);
      }
    }
  }

  /** pc is at instruction k, and the value stack has exactly the level of that instruction. */
  ghost predicate Located(p: Program, code: Code, k: nat, c: Config) {
    && c.Run? && k < |code|
    && c.pc == HEADER_LEN + Size(code[..k])
    && Fetch(p.code, c.pc) == Some(code[k])
    && |c.stack| == Net(code[..k]) <= p.stackMax
  }

  /** Byte-code safety of every compiled expression, in every configuration it ever reaches: execution never gets
      stuck; pc is the start of an instruction of the program; the value stack is as high as the level that
      compute_stack_size gives to that instruction, and never higher than the stack size in the header. */
  lemma CompiledExpressionIsSafe(f: Flags, canon: CodePoint -> CodePoint, d: Disjunction, sticky: bool, reFlags: int,
                                 input: seq<byte>, start: nat, n: nat)
    requires Wf(d) && start <= |input|
    requires Compile(f, canon, d, sticky, reFlags).Ok? && |Compile(f, canon, d, sticky, reFlags).value| <= INT32_MAX
    ensures var buf := Compile(f, canon, d, sticky, reFlags).value;
            var p := Load(buf, Subject(input, f, canon));
            var code := ProgramCode(f, canon, d, sticky);
            && |buf| >= HEADER_LEN && Holds(p, code)
            && var c := Steps(p, Start(buf, start), n);
            && Safe(p, code, c)
            && (c.Run? ==> exists k :: Located(p, code, k, c))
  {
    hide ProgramCode, Compile, Fits, Fetch, Size, Scan, Wf, Steps, WellShaped, MSearch, MaxDepth, AllSavedOk;
    var s := Subject(input, f, canon);
    var buf := Compile(f, canon, d, sticky, reFlags).value;
    ProgramFits(f, canon, d, sticky, reFlags, s);
    var p := Load(buf, s);
    var code := ProgramCode(f, canon, d, sticky);
    BufferSize(f, canon, d, sticky, reFlags);
    ProgramShaped(f, canon, d, sticky);
    assert Holds(p, code);
    CompiledExpressionIsCorrect(f, canon, d, sticky, reFlags, input, start);
    var result := First(MSearch(s, d, sticky, St(start, NoCaptures(1 + Groups(d)))));
    var m: nat :| Steps(p, Start(buf, start), m) == Done(result);
    StartSafe(p, code, buf, start);
    StepsSafe(p, code, Start(buf, start), n, m, result);
    var c := Steps(p, Start(buf, start), n);
    if c.Run? {
      var k: nat :| AtInstr(p, code, k, c.pc, c.st, c.stack);
      ShapeSize([], 0, code[..k]);
      LevelBound(code, k);
      StepsSafe(p, code, Start(buf, start), n + 1, m, result);
      StepsAdd(p, Start(buf, start), n, 1);
      OneStep(p, c);
      InstrAhead(p, code, k, c);
      assert Located(p, code, k, c);
    }
  }

  lemma OneStep(p: Program, c: Config)
    ensures Steps(p, c, 1) == Step(p, c)
  {
    hide Step;
    assert Steps(p, Step(p, c), 0) == Step(p, c);
  }

  /** A run that does not get stuck has an instruction to execute. */
  lemma InstrAhead(p: Program, code: Code, k: nat, c: Config)
    requires Holds(p, code) && c.Run? && AtInstr(p, code, k, c.pc, c.st, c.stack) && Step(p, c) != Stuck
    ensures k < |code| && Fetch(p.code, c.pc) == Some(code[k])
  {
    hide Fetch, Size, Scan, Exec, Fits, WellShaped, Typed;
    if k == |code| {
      AtEnd(p, code, c.pc);
    } else {
      FetchInstr(p, code, k);
    }
  }

  lemma LevelBound(code: Code, k: nat)
    requires k <= |code|
    ensures Net(code[..k]) <= MaxDepth(code)
  {
    assert code == code[..k] + code[k..];
    DepthConcat(code[..k], code[k..]);
  }

  lemma BufferSize(f: Flags, canon: CodePoint -> CodePoint, d: Disjunction, sticky: bool, reFlags: int)
    requires Compile(f, canon, d, sticky, reFlags).Ok?
    ensures |Compile(f, canon, d, sticky, reFlags).value| == HEADER_LEN + Size(ProgramCode(f, canon, d, sticky))
  {
    hide ProgramCode, EncAll;
  }

  lemma StartSafe(p: Program, code: Code, buf: seq<byte>, start: nat)
    requires |buf| >= HEADER_LEN && start <= |p.subject.input|
    ensures Safe(p, code, Start(buf, start))
  {
    var st := St(start, NoCaptures(buf[2]));
    assert code[..0] == [];
    ScanNothing([], 0);
    assert AtInstr(p, code, 0, HEADER_LEN, st, []);
  }
}

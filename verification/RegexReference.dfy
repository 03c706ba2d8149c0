/**
 The reference matcher: for a node and a state, the list of all states in which the node can succeed, most
 preferred first. A backtracking matcher explores exactly this list, so its answer is the first element.
 It follows section 22.2.2 of ECMA-262, except that a capture group writes its start when it is entered, and
 that the captures of a repeated atom are cleared once before a repetition that may be skipped.
 */
module RegexReference {
  import opened Bytes
  import opened Wrappers
  import opened RegexSyntax

  type Captures = seq<Option<nat>>

  datatype St = St(pos: nat, caps: Captures)

  // canon is lre_canonicalize for the compiled expression's Unicode mode.
  datatype Subject = Subject(input: seq<byte>, flags: Flags, canon: CodePoint -> CodePoint)

  predicate IsLineTerminator(c: int) { c == 10 || c == 13 || c == 0x2028 || c == 0x2029 }

  predicate IsWordChar(c: int) {
    ('0' as int <= c <= '9' as int) || ('a' as int <= c <= 'z' as int) || ('A' as int <= c <= 'Z' as int) || c == '_' as int
  }

  function Fold(s: Subject, c: CodePoint): CodePoint { if s.flags.ignoreCase then s.canon(c) else c }

  /** Does the single-character term t accept the character c? */
  ghost predicate Accepts(s: Subject, t: Term, c: CodePoint) {
    match t
    case Character(x) => Fold(s, c) == Fold(s, x)
    case Period => s.flags.dotAll || !IsLineTerminator(c)
    case Class(points) => InPoints(points, Fold(s, c))
    case _ => false
  }

  ghost predicate WordAt(s: Subject, p: int) {
    0 <= p < |s.input| && IsWordChar(Fold(s, s.input[p]))
  }

  /** The zero-width assertions at position p. */
  ghost predicate Holds(s: Subject, t: Term, p: nat) {
    match t
    case Bol => p == 0 || (s.flags.multiLine && p <= |s.input| && IsLineTerminator(s.input[p - 1]))
    case Eol => p == |s.input| || (s.flags.multiLine && p < |s.input| && IsLineTerminator(s.input[p]))
    case Boundary(negated) => negated == (WordAt(s, p - 1) == WordAt(s, p))
    case _ => false
  }

  ghost predicate SameChar(s: Subject, a: nat, b: nat, i: nat) {
    a + i < |s.input| && b + i < |s.input| && Fold(s, s.input[a + i]) == Fold(s, s.input[b + i])
  }

  /** The n characters from position a on equal those from position b on. */
  ghost predicate SameText(s: Subject, a: nat, b: nat, n: nat) {
    forall i: nat | i < n :: SameChar(s, a, b, i)
  }

  /** A back reference to group n: an unset group matches the empty string. */
  ghost function MReference(s: Subject, n: nat, bw: bool, st: St): (L: seq<St>)
    ensures AllAhead(s, bw, st, L)
  {
    if 2 * n + 1 >= |st.caps| then []
    else
      match (st.caps[2 * n], st.caps[2 * n + 1])
      case (Some(a), Some(b)) =>
        var len := if a <= b then b - a else 0;
        if bw then
          if len <= st.pos && SameText(s, a, st.pos - len, len) then [st.(pos := st.pos - len)] else []
        else if SameText(s, a, st.pos, len) then
          assert len > 0 ==> SameChar(s, a, st.pos, len - 1);
          [st.(pos := st.pos + len)]
        else []
      case _ => [st]
  }

  ghost function SetCap(st: St, i: nat): St {
    if i < |st.caps| then st.(caps := st.caps[i := Some(st.pos)]) else st
  }

  ghost function SetCapAll(L: seq<St>, i: nat): seq<St> {
    if L == [] then [] else [SetCap(L[0], i)] + SetCapAll(L[1..], i)
  }

  /** Unset the groups first, ..., first + count - 1. */
  function ResetCaps(caps: Captures, first: nat, count: nat): (r: Captures)
    ensures |r| == |caps|
  {
    seq(|caps|, i requires 0 <= i < |caps| => if 2 * first <= i < 2 * (first + count) then None else caps[i])
  }

  /** The states that are not at position p. */
  ghost function Moved(L: seq<St>, p: nat): (r: seq<St>)
    ensures forall i | 0 <= i < |r| :: r[i].pos != p && r[i] in L
  {
    if L == [] then [] else (if L[0].pos != p then [L[0]] else []) + Moved(L[1..], p)
  }

  datatype Count = Infinite | Finite(n: nat)

  function Dec(c: Count): Count { if c.Finite? && c.n > 0 then Finite(c.n - 1) else c }

  /** A quantifier bound of INT32_MAX stands for infinity. */
  function Bound(max: nat): Count { if max == INT32_MAX then Infinite else Finite(max) }

  /** r lies ahead of st in the direction of matching, and has as many capture slots. */
  ghost predicate Ahead(s: Subject, bw: bool, st: St, r: St) {
    && |r.caps| == |st.caps|
    && (if bw then r.pos <= st.pos else st.pos <= r.pos && (r.pos == st.pos || r.pos <= |s.input|))
  }

  ghost predicate AllAhead(s: Subject, bw: bool, st: St, L: seq<St>) {
    forall i | 0 <= i < |L| :: Ahead(s, bw, st, L[i])
  }

  /** Characters left in the direction of matching. */
  function Left(s: Subject, bw: bool, pos: nat): nat {
    if bw then pos else if pos <= |s.input| then |s.input| - pos else 0
  }

  /** The most characters left in any of the states (-1 if there is none). */
  ghost function MaxLeft(s: Subject, bw: bool, L: seq<St>): (m: int)
    ensures forall i | 0 <= i < |L| :: Left(s, bw, L[i].pos) <= m
    ensures m == -1 || exists i | 0 <= i < |L| :: Left(s, bw, L[i].pos) == m
  {
    if L == [] then -1
    else
      var m := MaxLeft(s, bw, L[1..]);
      if m <= Left(s, bw, L[0].pos) then Left(s, bw, L[0].pos)
      else
        assert exists i | 0 <= i < |L[1..]| :: Left(s, bw, L[1..][i].pos) == m && L[1..][i] == L[i + 1];
        m
  }

  lemma AheadStep(s: Subject, bw: bool, from: seq<St>, A: seq<St>, B: seq<St>)
    requires from != [] && AllAhead(s, bw, from[0], A)
    requires forall st | AllAhead(s, bw, st, from[1..]) :: AllAhead(s, bw, st, B)
    ensures forall st | AllAhead(s, bw, st, from) :: AllAhead(s, bw, st, A + B)
  {
    forall st | AllAhead(s, bw, st, from)
      ensures AllAhead(s, bw, st, A + B)
    {
      assert Ahead(s, bw, st, from[0]);
      forall i | 0 <= i < |from[1..]| ensures Ahead(s, bw, st, from[1..][i]) {
        assert from[1..][i] == from[i + 1];
      }
      assert AllAhead(s, bw, st, B);
      forall i | 0 <= i < |A + B| ensures Ahead(s, bw, st, (A + B)[i]) {
        if i < |A| {
          assert Ahead(s, bw, from[0], A[i]);
        } else {
          assert Ahead(s, bw, st, B[i - |A|]);
        }
      }
    }
  }

  /** All results of a term. cc is the number of capture groups opened to the left of it. */
  ghost function MTerm(s: Subject, t: Term, bw: bool, cc: nat, st: St): (L: seq<St>)
    ensures AllAhead(s, bw, st, L)
    decreases t, 0, 0, 0, 0
  {
    match t
    case Character(_) => OneChar(s, t, bw, st)
    case Period => OneChar(s, t, bw, st)
    case Class(_) => OneChar(s, t, bw, st)
    case Bol => if Holds(s, t, st.pos) then [st] else []
    case Eol => if Holds(s, t, st.pos) then [st] else []
    case Boundary(_) => if Holds(s, t, st.pos) then [st] else []
    case Reference(n) => MReference(s, n, bw, st)
    case Plain(d) => MDisj(s, d, bw, cc, st)
    case Group(d) =>
      var L := MDisj(s, d, bw, cc + 1, SetCap(st, 2 * cc + (if bw then 1 else 0)));
      SetCapAllAhead(s, bw, st, L, 2 * cc + (if bw then 0 else 1));
      SetCapAll(L, 2 * cc + (if bw then 0 else 1))
    case Lookaround(d, behind, negated) =>
      var L := MDisj(s, d, behind, cc, st);
      if negated then (if L == [] then [st] else [])
      else if L == [] then [] else [St(st.pos, L[0].caps)]
    case Repeat(a, min, max, greedy) =>
      var st0 := if min == 0 && TermGroups(a) > 0 then st.(caps := ResetCaps(st.caps, cc, TermGroups(a))) else st;
      MRepeat(s, a, bw, cc, min, Bound(max), greedy, st0)
  }

  /** One character, in the direction of matching. */
  ghost function OneChar(s: Subject, t: Term, bw: bool, st: St): (L: seq<St>)
    ensures AllAhead(s, bw, st, L)
  {
    if bw then
      if 0 < st.pos <= |s.input| && Accepts(s, t, s.input[st.pos - 1]) then [st.(pos := st.pos - 1)] else []
    else if st.pos < |s.input| && Accepts(s, t, s.input[st.pos]) then [st.(pos := st.pos + 1)] else []
  }

  lemma SetCapAllAhead(s: Subject, bw: bool, st: St, L: seq<St>, i: nat)
    requires AllAhead(s, bw, st, L)
    ensures AllAhead(s, bw, st, SetCapAll(L, i))
  {
    if L != [] {
      SetCapAllAhead(s, bw, st, L[1..], i);
    }
  }

  /** RepeatMatcher (section 22.2.2.3.1 of ECMA-262): once min is used up, an iteration that does not move is a
      failure, and a greedy repetition prefers one more iteration to stopping. */
  ghost function MRepeat(s: Subject, a: Term, bw: bool, cc: nat, min: nat, max: Count, greedy: bool, st: St): (L: seq<St>)
    ensures AllAhead(s, bw, st, L)
    decreases a, 1, min, Left(s, bw, st.pos), 0
  {
    if max == Finite(0) then [st]
    else
      var once := MTerm(s, a, bw, cc, st);
      if min > 0 then MRepeatAll(s, a, bw, cc, min - 1, Dec(max), greedy, once)
      else
        var moved := Moved(once, st.pos);
        assert AllAhead(s, bw, st, moved);
        var more := MRepeatAll(s, a, bw, cc, 0, Dec(max), greedy, moved);
        if greedy then more + [st] else [st] + more
  }

  ghost function MRepeatAll(s: Subject, a: Term, bw: bool, cc: nat, min: nat, max: Count, greedy: bool, from: seq<St>): (L: seq<St>)
    ensures forall st | AllAhead(s, bw, st, from) :: AllAhead(s, bw, st, L)
    decreases a, 1, min, MaxLeft(s, bw, from), 1 + |from|
  {
    if from == [] then []
    else
      MaxLeftTail(s, bw, from);
      var first := MRepeat(s, a, bw, cc, min, max, greedy, from[0]);
      var rest := MRepeatAll(s, a, bw, cc, min, max, greedy, from[1..]);
      AheadStep(s, bw, from, first, rest);
      first + rest
  }

  lemma MaxLeftTail(s: Subject, bw: bool, L: seq<St>)
    requires L != []
    ensures MaxLeft(s, bw, L[1..]) <= MaxLeft(s, bw, L)
  {
  }

  /** An alternative runs its terms left to right when matching forward, right to left when matching backward. */
  ghost function MAlt(s: Subject, a: Alternative, bw: bool, cc: nat, st: St): (L: seq<St>)
    ensures AllAhead(s, bw, st, L)
    decreases a, 0, 0, 0, 0
  {
    match a
    case Empty => [st]
    case Snoc(init, last) =>
      if bw then MAltAll(s, init, bw, cc, MTerm(s, last, bw, cc + AltGroups(init), st))
      else MTermAll(s, last, bw, cc + AltGroups(init), MAlt(s, init, bw, cc, st))
  }

  ghost function MTermAll(s: Subject, t: Term, bw: bool, cc: nat, from: seq<St>): (L: seq<St>)
    ensures forall st | AllAhead(s, bw, st, from) :: AllAhead(s, bw, st, L)
    decreases t, 1, 0, 0, 1 + |from|
  {
    if from == [] then []
    else
      var first := MTerm(s, t, bw, cc, from[0]);
      var rest := MTermAll(s, t, bw, cc, from[1..]);
      AheadStep(s, bw, from, first, rest);
      first + rest
  }

  ghost function MAltAll(s: Subject, a: Alternative, bw: bool, cc: nat, from: seq<St>): (L: seq<St>)
    ensures forall st | AllAhead(s, bw, st, from) :: AllAhead(s, bw, st, L)
    decreases a, 1, 0, 0, 1 + |from|
  {
    if from == [] then []
    else
      var first := MAlt(s, a, bw, cc, from[0]);
      var rest := MAltAll(s, a, bw, cc, from[1..]);
      AheadStep(s, bw, from, first, rest);
      first + rest
  }

  ghost function MDisj(s: Subject, d: Disjunction, bw: bool, cc: nat, st: St): (L: seq<St>)
    ensures AllAhead(s, bw, st, L)
    decreases d, 0, 0, 0, 0
  {
    match d
    case Single(a) => MAlt(s, a, bw, cc, st)
    case Or(init, a) => MDisj(s, init, bw, cc, st) + MAlt(s, a, bw, cc + Groups(init), st)
  }

  /** All results of the whole expression from one start position; group 0 spans the match. */
  ghost function MWhole(s: Subject, d: Disjunction, st: St): seq<St> {
    SetCapAll(MDisj(s, d, false, 1, SetCap(st, 0)), 1)
  }

  /** Unless the sticky flag is set, later start positions are tried in order. */
  ghost function MSearch(s: Subject, d: Disjunction, sticky: bool, st: St): seq<St>
    decreases Left(s, false, st.pos)
  {
    if sticky || st.pos >= |s.input| then MWhole(s, d, st)
    else MWhole(s, d, st) + MSearch(s, d, sticky, st.(pos := st.pos + 1))
  }
}

/** Abstract syntax of the modelled regular expressions, one constructor per production the parser handles. */
module RegexSyntax {
  import opened Bytes

  type CodePoint = c: int | 0 <= c <= 0x10_ffff

  type Points = p: seq<nat> | |p| % 2 == 0 witness []

  datatype Flags = Flags(multiLine: bool, dotAll: bool, ignoreCase: bool)

  datatype Term =
    | Character(c: CodePoint)
    | Period
    | Class(points: Points)
    | Bol
    | Eol
    | Boundary(negated: bool)
    | Reference(n: nat)
    | Plain(body: Disjunction)
    | Group(body: Disjunction)
    | Lookaround(body: Disjunction, behind: bool, negated: bool)
    | Repeat(atom: Term, min: nat, max: nat, greedy: bool)

  // Terms in source order; the parser appends one term at a time.
  datatype Alternative = Empty | Snoc(init: Alternative, last: Term)

  // Alternatives in source order; the parser wraps everything parsed so far when it meets a '|'.
  datatype Disjunction = Single(alt: Alternative) | Or(init: Disjunction, alt: Alternative)

  /** Number of capture groups opened in a term, alternative or disjunction. */
  function TermGroups(t: Term): nat {
    match t
    case Plain(b) => Groups(b)
    case Group(b) => 1 + Groups(b)
    case Lookaround(b, _, _) => Groups(b)
    case Repeat(a, _, _, _) => TermGroups(a)
    case _ => 0
  }

  function AltGroups(a: Alternative): nat {
    match a
    case Empty => 0
    case Snoc(init, last) => AltGroups(init) + TermGroups(last)
  }

  function Groups(d: Disjunction): nat {
    match d
    case Single(a) => AltGroups(a)
    case Or(init, a) => Groups(init) + AltGroups(a)
  }

  /** A character set as CharRange stores it: an even number of increasing points, c is in the set
      when it lies in some [points[2k], points[2k + 1]). */
  predicate NormalPoints(points: Points) {
    && (forall i, j | 0 <= i < j < |points| :: points[i] < points[j])
    && (forall i | 0 <= i < |points| :: points[i] <= UINT32_MAX)
  }

  predicate InInterval(points: Points, k: int, c: int) {
    0 <= 2 * k && 2 * k + 1 < |points| && points[2 * k] <= c < points[2 * k + 1]
  }

  ghost predicate InPoints(points: Points, c: int) {
    exists k :: InInterval(points, k, c)
  }

  /** What the parser guarantees about the literals it stores: parse_digits saturates counts at INT32_MAX,
      back references are looked up in a table of at most 255 groups, re_emit_range limits classes. */
  predicate TermWf(t: Term) {
    match t
    case Class(points) => NormalPoints(points) && |points| / 2 < 65535
    case Reference(n) => n < 256
    case Plain(b) => Wf(b)
    case Group(b) => Wf(b)
    case Lookaround(b, _, _) => Wf(b)
    case Repeat(a, min, max, _) => TermWf(a) && min <= max <= INT32_MAX
    case _ => true
  }

  predicate AltWf(a: Alternative) {
    match a
    case Empty => true
    case Snoc(init, last) => AltWf(init) && TermWf(last)
  }

  predicate Wf(d: Disjunction) {
    match d
    case Single(a) => AltWf(a)
    case Or(init, a) => Wf(init) && AltWf(a)
  }
}

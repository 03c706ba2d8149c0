/**
 Character ranges: sets of code points held as a list of points, interval after interval, and the operations that
 rewrite such lists.
 */
module CharRanges {
  import opened Bytes
  import Rqsort

  type Point = x: int | 0 <= x <= UINT32_MAX

  // ----- what a list of points denotes -----

  /** Interval k of the list covers c. */
  ghost predicate Covers(s: seq<int>, k: nat, c: int) {
    2 * k + 1 < |s| && s[2 * k] <= c < s[2 * k + 1]
  }

  /** c is in the set. */
  ghost predicate In(s: seq<int>, c: int) {
    exists k: nat :: Covers(s, k, c)
  }

  ghost predicate NonDecreasing(s: seq<int>) {
    forall i, j | 0 <= i < j < |s| :: s[i] <= s[j]
  }

  ghost predicate StrictlyIncreasing(s: seq<int>) {
    forall i, j | 0 <= i < j < |s| :: s[i] < s[j]
  }

  /** A list that the operations accept: whole intervals, from left to right, possibly empty or touching. */
  ghost predicate Ordered(s: seq<int>) {
    |s| % 2 == 0 && NonDecreasing(s)
  }

  /** The form that the operations produce: no interval is empty, no two intervals touch. */
  ghost predicate Normal(s: seq<int>) {
    |s| % 2 == 0 && StrictlyIncreasing(s)
  }

  // ----- counting points: the parity view -----

  /** How many points of the list are at most c. */
  ghost function Count(s: seq<int>, c: int): (n: nat)
    ensures n <= |s|
  {
    if s == [] then 0 else Count(s[..|s| - 1], c) + if s[|s| - 1] <= c then 1 else 0
  }

  ghost predicate Odd(s: seq<int>, c: int) {
    Count(s, c) % 2 == 1
  }

  lemma {:induction false} CountAll(s: seq<int>, c: int)
    requires forall i | 0 <= i < |s| :: s[i] <= c
    ensures Count(s, c) == |s|
  {
    if s != [] {
      CountAll(s[..|s| - 1], c);
    }
  }

  lemma {:induction false} CountNone(s: seq<int>, c: int)
    requires forall i | 0 <= i < |s| :: c < s[i]
    ensures Count(s, c) == 0
  {
    if s != [] {
      CountNone(s[..|s| - 1], c);
    }
  }

  lemma CountPush(s: seq<int>, v: int, c: int)
    ensures Count(s + [v], c) == Count(s, c) + if v <= c then 1 else 0
  {
    assert (s + [v])[..|s|] == s;
  }

  lemma CountTake(s: seq<int>, i: nat, c: int)
    requires i < |s|
    ensures Count(s[..i + 1], c) == Count(s[..i], c) + if s[i] <= c then 1 else 0
  {
    assert s[..i + 1][..i] == s[..i];
  }

  /** In an ordered list, a code point is in the set exactly when an odd number of points is at most it. */
  lemma {:induction false} ParityIsMembership(s: seq<int>, c: int)
    requires Ordered(s)
    ensures Odd(s, c) <==> In(s, c)
  {
    hide In, Count, NonDecreasing;
    NothingInEmpty(c);
    if s != [] {
      var n := |s|;
      var t, x, y := s[..n - 2], s[n - 2], s[n - 1];
      LastTwo(s);
      ParityIsMembership(t, c);
      CountTake(s, n - 1, c);
      CountTake(s, n - 2, c);
      assert s[..n] == s;
      LastInterval(s, c);
      if x <= c < y {
        CountAll(t, c);
      }
    }
  }

  lemma NothingInEmpty(c: int)
    ensures !In([], c) && Count([], c) == 0
  {
  }

  lemma LastTwo(s: seq<int>)
    requires Ordered(s) && s != []
    ensures |s| >= 2 && Ordered(s[..|s| - 2]) && s[|s| - 2] <= s[|s| - 1]
    ensures forall i | 0 <= i < |s| - 2 :: s[i] <= s[|s| - 2]
  {
  }

  lemma LastInterval(s: seq<int>, c: int)
    requires |s| % 2 == 0 && |s| > 0
    ensures In(s, c) <==> Covers(s, |s| / 2 - 1, c) || In(s[..|s| - 2], c)
  {
    var n, t := |s|, s[..|s| - 2];
    if In(s, c) {
      var k: nat :| Covers(s, k, c);
      assert k == n / 2 - 1 || Covers(t, k, c);
    } else if In(t, c) {
      var k: nat :| Covers(t, k, c);
      assert Covers(s, k, c);
    }
  }

  /** Two normal lists that denote the same set are the same list. */
  lemma {:induction false} NormalFormUnique(s: seq<int>, t: seq<int>)
    requires StrictlyIncreasing(s) && StrictlyIncreasing(t)
    requires forall c: int :: Odd(s, c) <==> Odd(t, c)
    ensures s == t
    decreases |s|
  {
    if s == [] || t == [] || s[|s| - 1] != t[|t| - 1] {
      if s != [] && (t == [] || t[|t| - 1] < s[|s| - 1]) {
        LastPoint(s, t);
      } else if t != [] {
        LastPoint(t, s);
      }
    } else {
      var s', t' := s[..|s| - 1], t[..|t| - 1];
      forall c: int ensures Odd(s', c) <==> Odd(t', c) {
        assert Odd(s, c) <==> Odd(t, c);
      }
      NormalFormUnique(s', t');
    }
  }

  /** The last point of a list is a place where its set changes, and no other list that ends before it does. */
  lemma LastPoint(s: seq<int>, t: seq<int>)
    requires StrictlyIncreasing(s) && StrictlyIncreasing(t) && s != []
    requires t == [] || t[|t| - 1] < s[|s| - 1]
    ensures exists c: int :: Odd(s, c) != Odd(t, c)
  {
    var x := s[|s| - 1];
    CountAll(s, x);
    CountAll(s[..|s| - 1], x - 1);
    CountAll(t, x);
    CountAll(t, x - 1);
    assert Odd(s, x) != Odd(t, x) || Odd(s, x - 1) != Odd(t, x - 1);
  }

  // ----- the operations -----

  datatype RangeOp = Union | Inter | Xor | Sub {
    predicate Of(a: bool, b: bool) {
      match this
      case Union => a || b
      case Inter => a && b
      case Xor => a != b
      case Sub => a && !b
    }
  }

  /** No point of s is after a point of t from position l on. */
  ghost predicate UpTo(s: seq<int>, t: seq<int>, l: nat) {
    forall x, y | 0 <= x < |s| && l <= y < |t| :: s[x] <= t[y]
  }

  /** Where cr_op stands after the first i points of a and the first j points of b. */
  ghost predicate Merged(s: seq<int>, a: seq<int>, b: seq<int>, i: nat, j: nat, op: RangeOp) {
    && i <= |a| && j <= |b| && NonDecreasing(s)
    && (|s| % 2 == 1) == op.Of(i % 2 == 1, j % 2 == 1)
    && UpTo(b[..j], a, i) && UpTo(a[..i], b, j) && UpTo(s, a, i) && UpTo(s, b, j)
    && (forall c: int :: Odd(s, c) == op.Of(Odd(a[..i], c), Odd(b[..j], c)))
  }

  lemma UpToStep(t: seq<int>, a: seq<int>, i: nat, i': nat, v: int)
    requires NonDecreasing(a) && i <= i' <= i + 1 && i' <= |a| && UpTo(t, a, i) && (i < |a| ==> v <= a[i])
    ensures UpTo(t, a, i') && UpTo(t + [v], a, i')
    ensures (forall x | 0 <= x < |t| :: t[x] <= v) ==> i' > i && v == a[i] ==> forall x | 0 <= x < i' :: a[x] <= v
  {
  }

  /** Taking the next point v, from a or b or both, and adding it where the in/out status changes. */
  lemma MergeStep(s: seq<int>, a: seq<int>, b: seq<int>, i: nat, j: nat, i': nat, j': nat, v: int, op: RangeOp)
    requires Merged(s, a, b, i, j, op) && NonDecreasing(a) && NonDecreasing(b)
    requires i <= i' <= i + 1 && j <= j' <= j + 1 && i' + j' > i + j && i' <= |a| && j' <= |b|
    requires (i' > i ==> a[i] == v) && (j' > j ==> b[j] == v)
    requires (i < |a| ==> v <= a[i]) && (j < |b| ==> v <= b[j])
    ensures Merged(if op.Of(i' % 2 == 1, j' % 2 == 1) != (|s| % 2 == 1) then s + [v] else s, a, b, i', j', op)
  {
    hide Odd, RangeOp.Of, UpTo, NonDecreasing, Below;
    var t := if op.Of(i' % 2 == 1, j' % 2 == 1) != (|s| % 2 == 1) then s + [v] else s;
    MergeBelow(s, a, b, i, j, i', j', v);
    PushLast(s, v);
    forall c: int ensures Odd(t, c) == op.Of(Odd(a[..i'], c), Odd(b[..j'], c)) {
      assert Odd(s, c) == op.Of(Odd(a[..i], c), Odd(b[..j], c));
      MergeParity(s, a, b, i, j, i', j', v, op, c);
    }
    UpToStep(s, a, i, i', v);
    UpToStep(s, b, j, j', v);
    UpToStep(b[..j], a, i, i', v);
    UpToStep(a[..i], b, j, j', v);
    assert j' > j ==> b[..j'] == b[..j] + [v];
    assert i' > i ==> a[..i'] == a[..i] + [v];
  }

  /** Everything taken so far is at most the next point. */
  lemma MergeBelow(s: seq<int>, a: seq<int>, b: seq<int>, i: nat, j: nat, i': nat, j': nat, v: int)
    requires i <= |a| && j <= |b| && NonDecreasing(a) && NonDecreasing(b)
    requires UpTo(b[..j], a, i) && UpTo(a[..i], b, j) && UpTo(s, a, i) && UpTo(s, b, j)
    requires i <= i' <= i + 1 && j <= j' <= j + 1 && i' + j' > i + j && i' <= |a| && j' <= |b|
    requires (i' > i ==> a[i] == v) && (j' > j ==> b[j] == v)
    ensures Below(s, v) && Below(a[..i'], v) && Below(b[..j'], v)
  {
    if i' > i {
      assert forall k | 0 <= k < i :: a[k] <= a[i];
    } else {
      assert forall k | 0 <= k < j :: b[k] <= b[j];
    }
  }

  lemma PushLast(s: seq<int>, v: int)
    requires NonDecreasing(s) && Below(s, v)
    ensures NonDecreasing(s + [v])
  {
  }

  lemma MergeParity(s: seq<int>, a: seq<int>, b: seq<int>, i: nat, j: nat, i': nat, j': nat, v: int, op: RangeOp, c: int)
    requires i <= i' <= i + 1 && j <= j' <= j + 1 && i' <= |a| && j' <= |b|
    requires (i' > i ==> a[i] == v) && (j' > j ==> b[j] == v)
    requires Odd(s, c) == op.Of(Odd(a[..i], c), Odd(b[..j], c))
    requires Below(s, v) && Below(a[..i'], v) && Below(b[..j'], v)
    ensures var t := if op.Of(i' % 2 == 1, j' % 2 == 1) != (|s| % 2 == 1) then s + [v] else s;
            Odd(t, c) == op.Of(Odd(a[..i'], c), Odd(b[..j'], c))
  {
    hide RangeOp.Of, Count;
    var t := if op.Of(i' % 2 == 1, j' % 2 == 1) != (|s| % 2 == 1) then s + [v] else s;
    if v <= c {
      assert Below(t, v);
      BelowCount(t, v, c);
      BelowCount(a[..i'], v, c);
      BelowCount(b[..j'], v, c);
      ParityAdjusted(s, v, op, i', j');
    } else {
      CountPush(s, v, c);
      if i' > i { CountTake(a, i, c); }
      if j' > j { CountTake(b, j, c); }
    }
  }

  lemma ParityAdjusted(s: seq<int>, v: int, op: RangeOp, i: nat, j: nat)
    ensures var t := if op.Of(i % 2 == 1, j % 2 == 1) != (|s| % 2 == 1) then s + [v] else s;
            (|t| % 2 == 1) == op.Of(i % 2 == 1, j % 2 == 1)
  {
  }

  ghost predicate Below(s: seq<int>, v: int) {
    forall k | 0 <= k < |s| :: s[k] <= v
  }

  lemma BelowCount(s: seq<int>, v: int, c: int)
    requires Below(s, v) && v <= c
    ensures Count(s, c) == |s|
  {
    CountAll(s, c);
  }

  // ----- compression -----

  /** Where cr_compress stands: `out` is the normal form of the first i points of s, ready for the rest. */
  ghost predicate Compressed(out: seq<int>, s: seq<int>, i: nat) {
    && i <= |s| && |out| <= i && |out| % 2 == 0 && i % 2 == 0
    && (forall c: int :: Odd(out, c) == Odd(s[..i], c))
    && StrictlyIncreasing(out)
    && (out != [] && i < |s| ==> out[|out| - 1] < s[i])
  }

  lemma CompressSkip(out: seq<int>, s: seq<int>, i: nat)
    requires Compressed(out, s, i) && i + 1 < |s| && s[i] == s[i + 1] && Ordered(s)
    ensures Compressed(out, s, i + 2)
  {
    hide Count;
    forall c: int ensures Odd(out, c) == Odd(s[..i + 2], c) {
      assert Odd(out, c) == Odd(s[..i], c);
      CountTake(s, i, c);
      CountTake(s, i + 1, c);
    }
  }

  /** Intervals i to j of s touch, so that they have the parities of one interval. */
  ghost predicate Joined(s: seq<int>, i: nat, j: nat) {
    && i <= j && j + 1 < |s| && (j - i) % 2 == 0
    && (forall c: int :: Count(s[..j + 2], c) % 2
                    == (Count(s[..i], c) + (if s[i] <= c then 1 else 0) + (if s[j + 1] <= c then 1 else 0)) % 2)
  }

  lemma JoinStart(s: seq<int>, i: nat)
    requires i + 1 < |s|
    ensures Joined(s, i, i)
  {
    forall c: int ensures Count(s[..i + 2], c) == Count(s[..i], c) + (if s[i] <= c then 1 else 0) + (if s[i + 1] <= c then 1 else 0) {
      CountTake(s, i, c);
      CountTake(s, i + 1, c);
    }
  }

  lemma JoinNext(s: seq<int>, i: nat, j: nat)
    requires Joined(s, i, j) && j + 3 < |s| && s[j + 1] == s[j + 2]
    ensures Joined(s, i, j + 2)
  {
    hide Count;
    forall c: int ensures Count(s[..j + 4], c) % 2
                     == (Count(s[..i], c) + (if s[i] <= c then 1 else 0) + (if s[j + 3] <= c then 1 else 0)) % 2
    {
      CountTake(s, j + 2, c);
      CountTake(s, j + 3, c);
    }
  }

  lemma CompressCopy(out: seq<int>, s: seq<int>, i: nat, j: nat)
    requires Compressed(out, s, i) && Joined(s, i, j) && Ordered(s) && s[i] != s[i + 1]
    requires j + 3 < |s| ==> s[j + 1] != s[j + 2]
    ensures Compressed(out + [s[i], s[j + 1]], s, j + 2)
  {
    hide Count;
    var t := out + [s[i], s[j + 1]];
    assert s[i] < s[i + 1] <= s[j + 1];
    assert t == (out + [s[i]]) + [s[j + 1]];
    forall c: int ensures Odd(t, c) == Odd(s[..j + 2], c) {
      CountPush(out, s[i], c);
      CountPush(out + [s[i]], s[j + 1], c);
      assert Odd(out, c) == Odd(s[..i], c);
    }
  }

  ghost predicate SameSet(s: seq<int>, t: seq<int>) {
    forall c: int :: In(s, c) <==> In(t, c)
  }

  lemma ParityMeansSameSet(s: seq<int>, t: seq<int>)
    requires Ordered(s) && Ordered(t) && forall c: int :: Odd(s, c) == Odd(t, c)
    ensures SameSet(s, t)
  {
    forall c: int ensures In(s, c) <==> In(t, c) {
      ParityIsMembership(s, c);
      ParityIsMembership(t, c);
      assert Odd(s, c) == Odd(t, c);
    }
  }

  lemma {:induction false} InPush(s: seq<int>, a: int, b: int, c: int)
    requires |s| % 2 == 0
    ensures In(s + [a, b], c) <==> In(s, c) || a <= c < b
  {
    var t := s + [a, b];
    assert t[..|t| - 2] == s;
    LastInterval(t, c);
  }

  // ----- lists of intervals in any order -----

  type Interval = (Point, Point)

  ghost predicate InPairs(ps: seq<Interval>, c: int) {
    exists p | p in ps :: p.0 <= c < p.1
  }

  function Pairs(s: seq<Point>): (ps: seq<Interval>)
    requires |s| % 2 == 0
    ensures |ps| == |s| / 2 && forall k | 0 <= k < |ps| :: ps[k] == (s[2 * k], s[2 * k + 1])
  {
    seq(|s| / 2, k requires 0 <= k < |s| / 2 => (s[2 * k], s[2 * k + 1]))
  }

  lemma PairsMeaning(s: seq<Point>, c: int)
    requires |s| % 2 == 0
    ensures In(s, c) <==> InPairs(Pairs(s), c)
  {
    var ps := Pairs(s);
    if In(s, c) {
      var k: nat :| Covers(s, k, c);
      assert ps[k] in ps;
    }
    if InPairs(ps, c) {
      var p :| p in ps && p.0 <= c < p.1;
      var k :| 0 <= k < |ps| && ps[k] == p;
      assert Covers(s, k, c);
    }
  }

  /** point_cmp: by the first point of the interval. */
  function PointCmp(x: Interval, y: Interval): (d: int) {
    (if x.0 > y.0 then 1 else 0) - (if x.0 < y.0 then 1 else 0)
  }

  /** Intervals by increasing start. */
  ghost predicate ByStart(ps: seq<Interval>) {
    forall k, l | 0 <= k < l < |ps| :: ps[k].0 <= ps[l].0
  }

  /** Where the sweep stands: `out` holds the first i intervals joined, and the rest starts beyond it. */
  ghost predicate Swept(out: seq<int>, ps: seq<Interval>, i: nat) {
    && i <= |ps| && |out| % 2 == 0 && |out| <= 2 * i
    && (forall c: int :: In(out, c) <==> InPairs(ps[..i], c))
    && NonDecreasing(out) && (Proper(ps) ==> StrictlyIncreasing(out))
    && (out != [] && i < |ps| ==> out[|out| - 1] < ps[i].0)
  }

  /** The interval that is being extended, and what it stands for together with `out`. */
  ghost predicate Extending(out: seq<int>, ps: seq<Interval>, i0: nat, i: nat, end: int) {
    && i0 < i <= |ps| && ps[i0].0 <= ps[i0].1 <= end
    && (forall c: int :: InPairs(ps[..i], c) <==> In(out, c) || ps[i0].0 <= c < end)
  }

  lemma PairsTake(ps: seq<Interval>, i: nat, c: int)
    requires i < |ps|
    ensures InPairs(ps[..i + 1], c) <==> InPairs(ps[..i], c) || ps[i].0 <= c < ps[i].1
  {
    assert ps[..i + 1] == ps[..i] + [ps[i]];
  }

  lemma ExtendStart(out: seq<int>, ps: seq<Interval>, i: nat)
    requires Swept(out, ps, i) && i < |ps| && ps[i].0 <= ps[i].1
    ensures Extending(out, ps, i, i + 1, ps[i].1)
  {
    forall c: int ensures InPairs(ps[..i + 1], c) <==> In(out, c) || ps[i].0 <= c < ps[i].1 {
      PairsTake(ps, i, c);
      assert In(out, c) <==> InPairs(ps[..i], c);
    }
  }

  lemma ExtendNext(out: seq<int>, ps: seq<Interval>, i0: nat, i: nat, end: int, end': int)
    requires Extending(out, ps, i0, i, end) && i < |ps| && ps[i0].0 <= ps[i].0 <= end
    requires end' == if ps[i].1 <= end then end else ps[i].1
    ensures Extending(out, ps, i0, i + 1, end')
  {
    assert end <= end';
    hide In, InPairs;
    forall c: int ensures InPairs(ps[..i + 1], c) <==> In(out, c) || ps[i0].0 <= c < end' {
      PairsTake(ps, i, c);
      assert InPairs(ps[..i], c) <==> In(out, c) || ps[i0].0 <= c < end;
    }
  }

  lemma ExtendDone(out: seq<int>, ps: seq<Interval>, i0: nat, i: nat, end: int)
    requires Swept(out, ps, i0) && Extending(out, ps, i0, i, end) && (i < |ps| ==> end < ps[i].0)
    ensures Swept(out + [ps[i0].0, end], ps, i)
  {
    hide In, InPairs;
    var t := out + [ps[i0].0, end];
    forall c: int ensures In(t, c) <==> InPairs(ps[..i], c) {
      InPush(out, ps[i0].0, end, c);
      assert InPairs(ps[..i], c) <==> In(out, c) || ps[i0].0 <= c < end;
    }
    assert ps[i0] in ps;
  }

  /** From interval m on, the points are still those of ps. */
  ghost predicate RestIs(s: seq<int>, ps: seq<Interval>, m: nat) {
    |s| == 2 * |ps| && forall k | m <= k < |ps| :: s[2 * k] == ps[k].0 && s[2 * k + 1] == ps[k].1
  }

  lemma RestLength(s: seq<int>, ps: seq<Interval>, m: nat)
    requires RestIs(s, ps, m)
    ensures |s| == 2 * |ps|
  {
  }

  lemma RestAt(s: seq<int>, ps: seq<Interval>, m: nat, k: nat)
    requires RestIs(s, ps, m) && m <= k < |ps|
    ensures s[2 * k] == ps[k].0 && s[2 * k + 1] == ps[k].1 && ps[k] in ps
  {
  }

  lemma RestKept(s: seq<int>, ps: seq<Interval>, m0: nat, m: nat, j: nat, v: int, w: int)
    requires m0 <= m && RestIs(s, ps, m0)
    requires j + 1 < |s| && j + 2 <= 2 * m
    ensures RestIs(s[j := v][j + 1 := w], ps, m)
  {
  }

  ghost predicate Forward(ps: seq<Interval>) {
    forall p | p in ps :: p.0 <= p.1
  }

  ghost predicate Proper(ps: seq<Interval>) {
    forall p | p in ps :: p.0 < p.1
  }

  lemma ForwardAt(ps: seq<Interval>, m: nat)
    requires Forward(ps) && m < |ps|
    ensures ps[m].0 <= ps[m].1
  {
    assert ps[m] in ps;
  }

  lemma SweptNone(ps: seq<Interval>)
    ensures Swept([], ps, 0)
  {
    assert ps[..0] == [];
    assert forall k: nat, c: int :: !Covers([], k, c);
  }

  lemma SweptAll(out: seq<int>, ps: seq<Interval>)
    requires Swept(out, ps, |ps|)
    ensures Ordered(out) && (Proper(ps) ==> Normal(out))
    ensures forall c: int :: In(out, c) <==> InPairs(ps, c)
  {
    assert ps[..|ps|] == ps;
  }

  lemma SamePairs(ps: seq<Interval>, qs: seq<Interval>)
    requires multiset(ps) == multiset(qs)
    ensures forall c: int :: InPairs(ps, c) <==> InPairs(qs, c)
    ensures (Forward(ps) <==> Forward(qs)) && (Proper(ps) <==> Proper(qs))
  {
    assert forall p :: p in ps <==> p in multiset(ps);
    assert forall p :: p in qs <==> p in multiset(qs);
  }

  function Flatten(ps: seq<Interval>): (s: seq<Point>)
    ensures |s| == 2 * |ps|
    ensures forall k | 0 <= k < |ps| :: s[2 * k] == ps[k].0 && s[2 * k + 1] == ps[k].1
  {
    seq(2 * |ps|, k requires 0 <= k < 2 * |ps| => if k % 2 == 0 then ps[k / 2].0 else ps[k / 2].1)
  }

  /** The call of rqsort on the points, two at a time. */
  method SortedPairs(s: seq<Point>) returns (ps: seq<Interval>)
    requires |s| % 2 == 0
    ensures ByStart(ps) && multiset(ps) == multiset(Pairs(s))
  {
    var a := new Interval[|s| / 2](k requires 0 <= k < |s| / 2 => (s[2 * k], s[2 * k + 1]));
    assert a[..] == Pairs(s);
    Rqsort.Sort(a, PointCmp);
    ps := a[..];
    forall k, l | 0 <= k < l < |ps| ensures ps[k].0 <= ps[l].0 {
      assert PointCmp(ps[k], ps[l]) <= 0;
    }
  }

  // ----- the range object -----

  class CharRange {
    var points: seq<Point>

    constructor ()
      ensures points == []
    {
      points := [];
    }

    method AddPoint(v: Point)
      modifies this
      ensures points == old(points) + [v]
    {
      points := points + [v];
    }

    method AddInterval(c1: Point, c2: Point)
      modifies this
      ensures points == old(points) + [c1, c2]
    {
      points := points + [c1] + [c2];
    }

    /** cr_compress: in place, drop empty intervals and join intervals that touch. */
    method Compress()
      requires Ordered(points)
      modifies this
      ensures Normal(points) && SameSet(points, old(points))
      ensures forall c: int :: Odd(points, c) == Odd(old(points), c)
    {
      ghost var s := points;
      var len, i, k := |points|, 0, 0;
      assert s[..0] == [];
      hide Odd, In, SameSet, Joined, NonDecreasing, StrictlyIncreasing;
      assert Compressed(points[..k], s, i) by { assert StrictlyIncreasing([]); }
      while i + 1 < len
        invariant |points| == len && k <= i <= len && (forall m | i <= m < len :: points[m] == s[m]) && Compressed(points[..k], s, i)
      {
        if points[i] == points[i + 1] {
          CompressSkip(points[..k], s, i);
          i := i + 2;
        } else {
          var j := i;
          JoinStart(s, i);
          ghost var kept := points;
          while j + 3 < len && points[j + 1] == points[j + 2]
            invariant points == kept && j + 1 < len && Joined(s, i, j)
          {
            JoinNext(s, i, j);
            j := j + 2;
          }
          CompressCopy(points[..k], s, i, j);
          ghost var out := points[..k] + [s[i], s[j + 1]];
          points := points[k := points[i]];
          points := points[k + 1 := points[j + 1]];
          k := k + 2;
          i := j + 2;
          assert points[..k] == out;
        }
      }
      points := points[..k];
      assert s[..i] == s;
      ParityMeansSameSet(points, s);
    }

    /** The inner loop: join the intervals that start no later than the current one ends. */
    method Absorb(i0: nat, ghost out: seq<int>, ghost ps: seq<Interval>, ghost m0: nat)
        returns (i: nat, end: Point, ghost m: nat)
      requires i0 == 2 * m0 < |points| == 2 * |ps| && ByStart(ps) && RestIs(points, ps, m0)
      requires Extending(out, ps, m0, m0 + 1, ps[m0].1)
      ensures i0 < i == 2 * m <= |points| && Extending(out, ps, m0, m, end) && (m < |ps| ==> end < ps[m].0)
    {
      hide Extending, RestIs;
      RestAt(points, ps, m0, m0);
      end := points[i0 + 1];
      i, m := i0 + 2, m0 + 1;
      while i < |points|
        invariant i0 < i == 2 * m <= |points| && Extending(out, ps, m0, m, end)
      {
        RestAt(points, ps, m0, m);
        var start1, end1 := points[i], points[i + 1];
        if start1 > end {
          return;
        }
        assert ps[m0].0 <= ps[m].0;
        ExtendNext(out, ps, m0, m, end, if end1 <= end then end else end1);
        if end1 > end {
          end := end1;
        }
        i, m := i + 2, m + 1;
      }
    }

    /** The outer loop: write the joined intervals over the points, from the left. */
    method Sweep(ghost ps: seq<Interval>)
      requires RestIs(points, ps, 0) && ByStart(ps) && Forward(ps)
      modifies this
      ensures Swept(points, ps, |ps|)
    {
      hide Swept, Extending, In, InPairs, RestIs, ByStart, Forward;
      var len, i, j := |points|, 0, 0;
      assert Swept([], ps, 0) by { SweptNone(ps); }
      ghost var m := 0;
      RestLength(points, ps, m);
      while i < len
        invariant |points| == len == 2 * |ps| && 0 <= j <= i <= len && i == 2 * m
        invariant Swept(points[..j], ps, m) && RestIs(points, ps, m)
      {
        RestAt(points, ps, m, m);
        ForwardAt(ps, m);
        ExtendStart(points[..j], ps, m);
        var start := points[i];
        var end;
        ghost var out, m0 := points[..j], m;
        i, end, m := Absorb(i, out, ps, m0);
        ExtendDone(out, ps, m0, m, end);
        RestKept(points, ps, m0, m, j, start, end);
        points := points[j := start];
        points := points[j + 1 := end];
        j := j + 2;
        assert points[..j] == out + [start, end];
      }
      points := points[..j];
    }

    /** cr_sort_and_remove_overlap: from intervals in any order to disjoint ones from left to right. */
    method SortAndRemoveOverlap()
      requires |points| % 2 == 0 && Forward(Pairs(points))
      modifies this
      ensures Ordered(points) && SameSet(points, old(points))
      ensures Proper(Pairs(old(points))) ==> Normal(points)
    {
      ghost var s0 := points;
      var ps := SortedPairs(points);
      points := Flatten(ps);
      assert RestIs(points, ps, 0);
      SamePairs(Pairs(s0), ps);
      Sweep(ps);
      SweptAll(points, ps);
      forall c: int ensures In(points, c) <==> In(s0, c) {
        PairsMeaning(s0, c);
      }
    }

    /** cr_op: merge two lists of points into this empty range. */
    method Op(a: seq<Point>, b: seq<Point>, op: RangeOp)
      requires points == [] && Ordered(a) && Ordered(b)
      modifies this
      ensures Normal(points)
      ensures forall c: int :: In(points, c) <==> op.Of(In(a, c), In(b, c))
    {
      var i, j := 0, 0;
      assert a[..0] == [] && b[..0] == [];
      hide Odd, In;
      while i < |a| || j < |b|
        invariant 0 <= i <= |a| && 0 <= j <= |b| && Merged(points, a, b, i, j, op)
        decreases |a| - i + |b| - j
      {
        hide Merged, NonDecreasing;
        ghost var i0, j0, s := i, j, points;
        var v: Point;
        if i < |a| && j < |b| && a[i] == b[j] {
          v, i, j := a[i], i + 1, j + 1;
        } else if j == |b| || (i < |a| && a[i] < b[j]) {
          v, i := a[i], i + 1;
        } else {
          v, j := b[j], j + 1;
        }
        MergeStep(s, a, b, i0, j0, i, j, v, op);
        var isIn: bool;
        match op {
          case Union => isIn := i % 2 == 1 || j % 2 == 1;
          case Inter => isIn := i % 2 == 1 && j % 2 == 1;
          case Xor => isIn := (i % 2 == 1) != (j % 2 == 1);
          case Sub => isIn := i % 2 == 1 && !(j % 2 == 1);
        }
        if isIn != (|points| % 2 == 1) {
          AddPoint(v);
        }
      }
      assert a[..i] == a && b[..j] == b;
      ghost var merged := points;
      Compress();
      forall c: int ensures In(points, c) <==> op.Of(In(a, c), In(b, c)) {
        assert Odd(merged, c) == op.Of(Odd(a, c), Odd(b, c));
        ParityIsMembership(a, c);
        ParityIsMembership(b, c);
        ParityIsMembership(merged, c);
      }
    }

    /** cr_op1: the operation in place. */
    method Op1(b: seq<Point>, op: RangeOp)
      requires Ordered(points) && Ordered(b)
      modifies this
      ensures Normal(points)
      ensures forall c: int :: In(points, c) <==> op.Of(In(old(points), c), In(b, c))
    {
      var a := points;
      points := [];
      Op(a, b, op);
    }

    method UnionInterval(c1: Point, c2: Point)
      requires Ordered(points) && c1 <= c2 < UINT32_MAX
      modifies this
      ensures Normal(points)
      ensures forall c: int :: In(points, c) <==> In(old(points), c) || c1 <= c <= c2
    {
      var b: seq<Point> := [c1, c2 + 1];
      forall c: int ensures In(b, c) <==> c1 <= c <= c2 {
        InPush([], c1, c2 + 1, c);
        assert [] + [c1, c2 + 1] == b;
      }
      Op1(b, Union);
    }

    /** cr_invert: the complement among the code points below 2^32 - 1. */
    method Invert()
      requires Ordered(points)
      modifies this
      ensures Complement(points, old(points))
    {
      ghost var s := points;
      var len := |points|;
      points := [0] + points;
      points := points + [UINT32_MAX];
      ghost var t := points;
      assert Ordered(t);
      forall c: int ensures Odd(t, c) == ((0 <= c < UINT32_MAX) != Odd(s, c)) {
        CountPush([0] + s, UINT32_MAX, c);
        CountPrepend(0, s, c);
        if c < 0 { CountNone(s, c); }
      }
      Compress();
      forall c: int ensures In(points, c) <==> 0 <= c < UINT32_MAX && !In(s, c) {
        ParityIsMembership(points, c);
        ParityIsMembership(s, c);
        assert Odd(points, c) == Odd(t, c);
        NotInside(s, c);
      }
    }
  }

  lemma {:induction false} CountPrepend(v: int, s: seq<int>, c: int)
    ensures Count([v] + s, c) == (if v <= c then 1 else 0) + Count(s, c)
  {
    if s == [] {
      assert [v] + s == [v];
    } else {
      CountPrepend(v, s[..|s| - 1], c);
      assert ([v] + s)[..|s|] == [v] + s[..|s| - 1];
    }
  }

  lemma NotInside(s: seq<Point>, c: int)
    ensures In(s, c) ==> 0 <= c < UINT32_MAX
  {
    if In(s, c) {
      var k: nat :| Covers(s, k, c);
      assert 0 <= s[2 * k] && s[2 * k + 1] <= UINT32_MAX;
    }
  }

  /** A set has one normal list: equal sets have equal lists. */
  lemma SameSetSameList(s: seq<Point>, t: seq<Point>)
    requires Normal(s) && Normal(t) && SameSet(s, t)
    ensures s == t
  {
    forall c: int ensures Odd(s, c) <==> Odd(t, c) {
      ParityIsMembership(s, c);
      ParityIsMembership(t, c);
      assert In(s, c) <==> In(t, c);
    }
    NormalFormUnique(s, t);
  }

  /** What cr_invert promises, as a relation between the points before and after. */
  ghost predicate Complement(t: seq<Point>, s: seq<Point>) {
    Normal(t) && forall c: int :: In(t, c) <==> 0 <= c < 0xffff_ffff && !In(s, c)
  }

  /** Inverting twice restores a normal list, point by point. */
  lemma InvertTwice(s: seq<Point>, t: seq<Point>, u: seq<Point>)
    requires Normal(s) && Complement(t, s) && Complement(u, t)
    ensures u == s
  {
    forall c: int ensures In(u, c) <==> In(s, c) {
      NotInside(s, c);
      assert In(t, c) <==> 0 <= c < UINT32_MAX && !In(s, c);
    }
    SameSetSameList(u, s);
  }
}

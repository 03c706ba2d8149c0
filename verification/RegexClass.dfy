/** The code of a character class accepts exactly the characters of the class. */
module RegexClass {
  import opened Bytes
  import opened RegexSyntax
  import opened RegexBytecode
  import opened RegexReference
  import opened RegexCompiler
  import opened RegexMachine

  /** Closed intervals, none empty, in increasing order and disjoint. */
  ghost predicate SortedPairs(pairs: seq<Pair>) {
    && (forall k | 0 <= k < |pairs| :: pairs[k].0 <= pairs[k].1)
    && (forall j, k | 0 <= j < k < |pairs| :: pairs[j].1 < pairs[k].0)
  }

  ghost predicate InPair(pairs: seq<Pair>, k: int, c: int) {
    0 <= k < |pairs| && pairs[k].0 <= c <= pairs[k].1
  }

  /** The binary search finds the interval of c if there is one. */
  lemma {:induction false} SearchFinds(pairs: seq<Pair>, c: int, lo: int, hi: int)
    requires SortedPairs(pairs) && 0 <= lo && hi < |pairs|
    ensures Search(pairs, c, lo, hi) <==> exists k :: lo <= k <= hi && InPair(pairs, k, c)
    decreases hi - lo + 1
  {
    if lo <= hi {
      var mid := (lo + hi) / 2;
      if c < pairs[mid].0 {
        SearchFinds(pairs, c, lo, mid - 1);
        forall k | mid <= k <= hi ensures !InPair(pairs, k, c) {
          assert k > mid ==> pairs[mid].1 < pairs[k].0;
        }
      } else if c > pairs[mid].1 {
        SearchFinds(pairs, c, mid + 1, hi);
        forall k | lo <= k <= mid ensures !InPair(pairs, k, c) {
          assert k < mid ==> pairs[k].1 < pairs[mid].0;
        }
      } else {
        assert InPair(pairs, mid, c);
      }
    }
  }

  lemma {:induction false} PairsAt(wide: bool, points: Points, k: nat)
    requires k < |points| / 2
    ensures |Pairs(wide, points)| == |points| / 2
    ensures var high := if points[2 * k + 1] == 0 then UINT32_MAX else points[2 * k + 1] - 1;
            Pairs(wide, points)[k] == (points[2 * k], if !wide && high == UINT32_MAX - 1 then 0xffff else high)
    decreases k
  {
    if k > 0 {
      PairsAt(wide, points[2..], k - 1);
    }
  }

  /** Does the last interval reach infinity? */
  predicate Unbounded(points: Points) { points != [] && points[|points| - 1] == UINT32_MAX }

  /** The choice re_emit_range makes between 16-bit and 32-bit bounds. */
  predicate NeedsWide(points: Points) {
    points != [] && (if Unbounded(points) then points[|points| - 2] else points[|points| - 1]) > 0xffff
  }

  lemma PairsSorted(wide: bool, points: Points)
    requires NormalPoints(points) && (NeedsWide(points) ==> wide)
    ensures SortedPairs(Pairs(wide, points))
  {
    var pairs := Pairs(wide, points);
    forall k | 0 <= k < |pairs| ensures pairs[k].0 <= pairs[k].1 {
      PairsAt(wide, points, k);
      assert points[2 * k] < points[2 * k + 1];
      if 2 * k + 2 < |points| {
        assert points[2 * k + 1] < points[|points| - 1];
      }
    }
    forall j, k | 0 <= j < k < |pairs| ensures pairs[j].1 < pairs[k].0 {
      PairsAt(wide, points, j);
      PairsAt(wide, points, k);
      assert points[2 * j + 1] < points[2 * k] < points[2 * k + 1];
    }
  }

  lemma PairsEncodable(wide: bool, points: Points)
    requires NormalPoints(points) && (NeedsWide(points) ==> wide)
    ensures forall k | 0 <= k < |Pairs(wide, points)| :: PairFits(wide, Pairs(wide, points)[k])
  {
    var pairs := Pairs(wide, points);
    forall k | 0 <= k < |pairs| ensures PairFits(wide, pairs[k]) {
      PairsAt(wide, points, k);
      assert points[2 * k] < points[2 * k + 1];
      if 2 * k + 2 < |points| {
        assert points[2 * k + 1] < points[|points| - 1];
        assert points[2 * k + 1] < points[|points| - 2] || 2 * k + 1 == |points| - 2 || 2 * k + 3 == |points| ;
      }
    }
  }

  /** One interval: the closed bounds and the half-open points hold the same characters. */
  lemma PairMeaning(wide: bool, points: Points, k: nat, c: nat)
    requires NormalPoints(points) && (NeedsWide(points) ==> wide) && k < |points| / 2 && c < UINT32_MAX
    requires wide || !Unbounded(points) || 2 * k + 2 < |points| || c < 0xffff
    ensures InPair(Pairs(wide, points), k, c) <==> InInterval(points, k, c)
  {
    PairsAt(wide, points, k);
    assert points[2 * k] < points[2 * k + 1];
    if 2 * k + 2 < |points| {
      assert points[2 * k + 1] < points[|points| - 1];
    }
  }

  /** Class bytecode: the emitted range, run by the machine, accepts exactly the code points of the class. */
  lemma RangeMeaning(points: Points, c: nat)
    requires NormalPoints(points) && points != [] && c < UINT32_MAX
    ensures var wide := NeedsWide(points);
            RangeTest(wide, Pairs(wide, points), c) <==> InPoints(points, c)
  {
    hide Search, Pairs;
    var wide := NeedsWide(points);
    var pairs := Pairs(wide, points);
    var last := |pairs| - 1;
    PairsAt(wide, points, 0);
    PairsAt(wide, points, last);
    PairsSorted(wide, points);
    SearchFinds(pairs, c, 0, last);
    assert points[2 * last] < points[2 * last + 1];
    if !wide && Unbounded(points) && c >= 0xffff {
      assert InInterval(points, last, c);
    } else {
      forall k: nat | k <= last ensures InPair(pairs, k, c) <==> InInterval(points, k, c) {
        PairMeaning(wide, points, k, c);
      }
      forall k | InPair(pairs, k, c) ensures pairs[0].0 <= c <= pairs[last].1 {
        assert k > 0 ==> pairs[0].1 < pairs[k].0;
        assert k < last ==> pairs[k].1 < pairs[last].0;
      }
    }
  }

  /** The instruction of any single-character term decides like the term itself. */
  lemma CharTestMeaning(s: Subject, t: Term, c: CodePoint)
    requires t.Character? || t.Period? || t.Class?
    requires TermWf(t)
    ensures var i := CharTermInstr(s.flags, s.canon, t);
            IsCharTest(i) && (CharTest(s, i, c) <==> Accepts(s, t, c))
  {
    if t.Class? {
      if t.points != [] {
        RangeMeaning(t.points, Fold(s, c));
      }
    }
  }
}

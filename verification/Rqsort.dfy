/**
 rqsort: three-way quicksort in place, with an explicit stack of at most 50 pending segments, heapsort beyond a
 depth of 50, and insertion sort for segments of at most 6 elements.
 */
module Rqsort {
  type Cmp<!T> = (T, T) -> int

  /** A comparator that orders the elements, possibly with ties. */
  ghost predicate TotalPreorder<T(!new)>(cmp: Cmp<T>) {
    && (forall x, y :: cmp(x, y) < 0 <==> cmp(y, x) > 0)
    && (forall x, y, z :: cmp(x, y) <= 0 && cmp(y, z) <= 0 ==> cmp(x, z) <= 0)
  }

  lemma CmpFacts<T(!new)>(cmp: Cmp<T>, x: T, y: T, z: T)
    requires TotalPreorder(cmp)
    ensures cmp(x, x) == 0 && (cmp(x, y) < 0 <==> cmp(y, x) > 0) && (cmp(x, y) > 0 <==> cmp(y, x) < 0)
    ensures cmp(x, y) <= 0 && cmp(y, z) <= 0 ==> cmp(x, z) <= 0
    ensures cmp(x, y) <= 0 && cmp(y, z) < 0 ==> cmp(x, z) < 0
    ensures cmp(x, y) < 0 && cmp(y, z) <= 0 ==> cmp(x, z) < 0
  {
    assert cmp(x, y) <= 0 && cmp(y, z) <= 0 ==> cmp(x, z) <= 0;
    assert cmp(y, z) <= 0 && cmp(z, x) <= 0 ==> cmp(y, x) <= 0;
    assert cmp(z, x) <= 0 && cmp(x, y) <= 0 ==> cmp(z, y) <= 0;
  }

  // ----- permutations of a segment -----

  /** t is s with the elements of [lo, hi) rearranged. */
  ghost predicate SegPerm<T>(s: seq<T>, t: seq<T>, lo: int, hi: int) {
    && 0 <= lo <= hi <= |s| == |t|
    && t[..lo] == s[..lo] && t[hi..] == s[hi..]
    && multiset(t[lo..hi]) == multiset(s[lo..hi])
  }

  lemma SegPermTrans<T>(s: seq<T>, t: seq<T>, u: seq<T>, lo: int, hi: int)
    requires SegPerm(s, t, lo, hi) && SegPerm(t, u, lo, hi)
    ensures SegPerm(s, u, lo, hi)
  {
  }

  lemma SegPermWiden<T>(s: seq<T>, t: seq<T>, lo: int, hi: int, lo': int, hi': int)
    requires SegPerm(s, t, lo, hi) && 0 <= lo' <= lo && hi <= hi' <= |s|
    ensures SegPerm(s, t, lo', hi')
  {
    assert s[lo'..hi'] == s[..lo][lo'..] + s[lo..hi] + s[hi..][..hi' - hi];
    assert t[lo'..hi'] == t[..lo][lo'..] + t[lo..hi] + t[hi..][..hi' - hi];
    assert t[..lo'] == t[..lo][..lo'] && s[..lo'] == s[..lo][..lo'];
    DropMore(s, hi, hi');
    DropMore(t, hi, hi');
  }

  lemma DropMore<T>(s: seq<T>, hi: int, hi': int)
    requires 0 <= hi <= hi' <= |s|
    ensures s[hi..][hi' - hi..] == s[hi'..]
  {
  }

  /** Every element of the rearranged segment was in the segment. */
  lemma SegPermElem<T>(s: seq<T>, t: seq<T>, lo: int, hi: int, k: int)
    requires SegPerm(s, t, lo, hi) && 0 <= k < |t|
    ensures if lo <= k < hi then exists j :: lo <= j < hi && s[j] == t[k] else t[k] == s[k]
  {
    if lo <= k < hi {
      assert t[lo..hi][k - lo] == t[k];
      assert t[k] in multiset(t[lo..hi]);
      assert t[k] in s[lo..hi];
      var j :| 0 <= j < hi - lo && s[lo..hi][j] == t[k];
      assert s[lo + j] == t[k];
    } else if k < lo {
      assert t[..lo][k] == s[..lo][k];
    } else {
      assert t[hi..][k - hi] == s[hi..][k - hi];
    }
  }

  lemma SegPermRefl<T>(s: seq<T>, lo: int, hi: int)
    requires 0 <= lo <= hi <= |s|
    ensures SegPerm(s, s, lo, hi)
  {
  }

  lemma SwapPerm<T>(s: seq<T>, i: int, j: int, lo: int, hi: int)
    requires 0 <= lo <= i < hi <= |s| && lo <= j < hi
    ensures SegPerm(s, s[i := s[j]][j := s[i]], lo, hi)
  {
    var t := s[i := s[j]][j := s[i]];
    assert t[lo..hi] == s[lo..hi][i - lo := s[lo..hi][j - lo]][j - lo := s[lo..hi][i - lo]];
  }

  lemma WholePerm<T>(s: seq<T>, t: seq<T>, lo: int, hi: int)
    requires SegPerm(s, t, lo, hi)
    ensures multiset(t) == multiset(s)
  {
    assert s == s[..lo] + s[lo..hi] + s[hi..];
    assert t == t[..lo] + t[lo..hi] + t[hi..];
  }

  // ----- exchanges -----

  /** Exchange two elements of the segment [lo, hi), which stays a rearrangement of that of s. */
  method Swap<T>(a: array<T>, i: nat, j: nat, ghost lo: nat, ghost hi: nat, ghost s: seq<T>)
    requires lo <= i < hi <= a.Length && lo <= j < hi && SegPerm(s, a[..], lo, hi)
    modifies a
    ensures a[i] == old(a[j]) && a[j] == old(a[i])
    ensures forall m | 0 <= m < a.Length && m != i && m != j :: a[m] == old(a[m])
    ensures SegPerm(s, a[..], lo, hi)
  {
    ghost var t := a[..][i := a[j]][j := a[i]];
    SwapPerm(a[..], i, j, lo, hi);
    SegPermTrans(s, a[..], t, lo, hi);
    a[i], a[j] := a[j], a[i];
    assert a[..] == t;
  }

  /** Exchange two blocks of n elements that do not overlap. */
  method SwapBlock<T>(a: array<T>, i: nat, j: nat, n: nat, ghost lo: nat, ghost hi: nat, ghost s: seq<T>)
    requires lo <= i && i + n <= j && j + n <= hi <= a.Length && SegPerm(s, a[..], lo, hi)
    modifies a
    ensures SegPerm(s, a[..], lo, hi)
    ensures forall m | i <= m < i + n :: a[m] == old(a[m - i + j])
    ensures forall m | j <= m < j + n :: a[m] == old(a[m - j + i])
    ensures forall m | 0 <= m < a.Length && !(i <= m < i + n) && !(j <= m < j + n) :: a[m] == old(a[m])
  {
    hide SegPerm;
    ghost var t := a[..];
    var k := 0;
    while k < n
      invariant 0 <= k <= n && SegPerm(s, a[..], lo, hi)
      invariant forall m | i <= m < i + k :: a[m] == t[m - i + j]
      invariant forall m | j <= m < j + k :: a[m] == t[m - j + i]
      invariant forall m | 0 <= m < a.Length && !(i <= m < i + k) && !(j <= m < j + k) :: a[m] == t[m]
    {
      Swap(a, i + k, j + k, lo, hi, s);
      k := k + 1;
    }
  }

  /** med3: the position of a median of three elements. */
  method Med3<T>(a: array<T>, i: nat, j: nat, k: nat, cmp: Cmp<T>) returns (m: nat)
    requires i < a.Length && j < a.Length && k < a.Length
    ensures m == i || m == j || m == k
  {
    if cmp(a[i], a[j]) < 0 {
      m := if cmp(a[j], a[k]) < 0 then j else if cmp(a[i], a[k]) < 0 then k else i;
    } else {
      m := if cmp(a[j], a[k]) > 0 then j else if cmp(a[i], a[k]) < 0 then i else k;
    }
  }

  // ----- insertion sort -----

  ghost predicate Sorted<T>(s: seq<T>, cmp: Cmp<T>) {
    forall i, j | 0 <= i < j < |s| :: cmp(s[i], s[j]) <= 0
  }

  method InsertionSort<T(!new)>(a: array<T>, lo: nat, n: nat, cmp: Cmp<T>)
    requires lo + n <= a.Length
    modifies a
    ensures SegPerm(old(a[..]), a[..], lo, lo + n)
    ensures TotalPreorder(cmp) ==> Sorted(a[lo..lo + n], cmp)
  {
    hide SegPerm, TotalPreorder;
    ghost var s := a[..];
    SegPermRefl(s, lo, lo + n);
    var pi := lo + 1;
    while pi < lo + n
      invariant lo < pi && (pi <= lo + n || n == 0)
      invariant SegPerm(s, a[..], lo, lo + n)
      invariant TotalPreorder(cmp) ==> forall i, j | lo <= i < j < pi && j < lo + n :: cmp(a[i], a[j]) <= 0
      decreases lo + n - pi
    {
      Insert(a, lo, pi, lo + n, cmp, s);
      pi := pi + 1;
    }
  }

  /** Move the element at pi down to its place among the sorted elements before it. */
  method Insert<T(!new)>(a: array<T>, lo: nat, pi: nat, ghost hi: nat, cmp: Cmp<T>, ghost s: seq<T>)
    requires lo <= pi < hi <= a.Length && SegPerm(s, a[..], lo, hi)
    requires TotalPreorder(cmp) ==> forall i, j | lo <= i < j < pi :: cmp(a[i], a[j]) <= 0
    modifies a
    ensures SegPerm(s, a[..], lo, hi)
    ensures TotalPreorder(cmp) ==> forall i, j | lo <= i < j <= pi :: cmp(a[i], a[j]) <= 0
  {
    hide SegPerm, TotalPreorder;
    var pj := pi;
    while pj > lo && cmp(a[pj - 1], a[pj]) > 0
      invariant lo <= pj <= pi && SegPerm(s, a[..], lo, hi)
      invariant TotalPreorder(cmp) ==> forall i, j | lo <= i < j <= pi && j != pj :: cmp(a[i], a[j]) <= 0
      invariant TotalPreorder(cmp) ==> forall j | pj < j <= pi :: cmp(a[pj], a[j]) <= 0
    {
      if TotalPreorder(cmp) {
        CmpFacts(cmp, a[pj - 1], a[pj], a[pj]);
      }
      Swap(a, pj, pj - 1, lo, hi, s);
      pj := pj - 1;
    }
    forall i | lo <= i < pj && TotalPreorder(cmp) ensures cmp(a[i], a[pj]) <= 0 {
      CmpFacts(cmp, a[i], a[pj - 1], a[pj]);
    }
  }

  // ----- heapsort -----

  /** The child at heap position c of the heap that starts at lo is not above its parent. */
  ghost predicate Below<T>(s: seq<T>, lo: nat, c: nat, cmp: Cmp<T>)
    requires 1 <= c && lo + c < |s|
  {
    cmp(s[lo + (c - 1) / 2], s[lo + c]) >= 0
  }

  /** Heap order among the m positions after lo, for the parents at `from` and above. */
  ghost predicate Heap<T>(s: seq<T>, lo: nat, from: nat, m: nat, cmp: Cmp<T>)
    requires lo + m <= |s|
  {
    forall c: nat | 1 <= c < m && from <= (c - 1) / 2 :: Below(s, lo, c, cmp)
  }

  lemma {:induction false} HeapTop<T(!new)>(s: seq<T>, lo: nat, m: nat, k: nat, cmp: Cmp<T>)
    requires lo + m <= |s| && k < m && Heap(s, lo, 0, m, cmp) && TotalPreorder(cmp)
    ensures cmp(s[lo], s[lo + k]) >= 0
  {
    hide TotalPreorder;
    if k == 0 {
      CmpFacts(cmp, s[lo], s[lo], s[lo]);
    } else {
      var p := (k - 1) / 2;
      HeapTop(s, lo, m, p, cmp);
      assert Below(s, lo, k, cmp);
      CmpFacts(cmp, s[lo], s[lo + p], s[lo + k]);
      CmpFacts(cmp, s[lo + k], s[lo + p], s[lo]);
      CmpFacts(cmp, s[lo], s[lo + k], s[lo]);
    }
  }

  /** Heap order for the parents at root and above, except between r and its children; its parent covers for r. */
  ghost predicate HeapBut<T>(s: seq<T>, lo: nat, root: nat, r: nat, m: nat, cmp: Cmp<T>)
    requires lo + m <= |s|
  {
    && (forall c: nat | 1 <= c < m && root <= (c - 1) / 2 && c != 2 * r + 1 && c != 2 * r + 2 :: Below(s, lo, c, cmp))
    && root <= r
    && (r > root ==> root <= (r - 1) / 2 && (2 * r + 1 < m ==> cmp(s[lo + (r - 1) / 2], s[lo + 2 * r + 1]) >= 0))
    && (r > root ==> 2 * r + 2 < m ==> cmp(s[lo + (r - 1) / 2], s[lo + 2 * r + 2]) >= 0)
  }

  lemma SiftStep<T(!new)>(s: seq<T>, t: seq<T>, lo: nat, root: nat, r: nat, c: nat, m: nat, cmp: Cmp<T>)
    requires lo + m <= |s| && HeapBut(s, lo, root, r, m, cmp) && TotalPreorder(cmp)
    requires (c == 2 * r + 1 || c == 2 * r + 2) && c < m
    requires 2 * r + 1 < m ==> cmp(s[lo + c], s[lo + 2 * r + 1]) >= 0
    requires 2 * r + 2 < m ==> cmp(s[lo + c], s[lo + 2 * r + 2]) >= 0
    requires cmp(s[lo + r], s[lo + c]) <= 0
    requires |t| == |s| && t[lo + r] == s[lo + c] && t[lo + c] == s[lo + r]
    requires forall k | 0 <= k < |s| && k != lo + r && k != lo + c :: t[k] == s[k]
    ensures HeapBut(t, lo, root, c, m, cmp)
  {
    hide TotalPreorder;
    CmpFacts(cmp, s[lo + r], s[lo + c], s[lo + r]);
    assert (c - 1) / 2 == r;
    forall d: nat | 1 <= d < m && root <= (d - 1) / 2 && d != 2 * c + 1 && d != 2 * c + 2
      ensures Below(t, lo, d, cmp)
    {
      if d == 2 * r + 1 || d == 2 * r + 2 {
        assert (d - 1) / 2 == r;
      } else {
        assert Below(s, lo, d, cmp);
        assert (d - 1) / 2 != r && (d - 1) / 2 != c;
      }
    }
    if 2 * c + 1 < m {
      assert Below(s, lo, 2 * c + 1, cmp);
    }
    if 2 * c + 2 < m {
      assert Below(s, lo, 2 * c + 2, cmp);
    }
  }

  /** Nothing is out of order once r is not below a child that is not below the other. */
  lemma SiftDone<T(!new)>(s: seq<T>, lo: nat, root: nat, r: nat, c: nat, m: nat, cmp: Cmp<T>)
    requires lo + m <= |s| && HeapBut(s, lo, root, r, m, cmp) && TotalPreorder(cmp)
    requires 2 * r + 1 < m ==> (c == 2 * r + 1 || c == 2 * r + 2) && c < m && cmp(s[lo + r], s[lo + c]) > 0
    requires 2 * r + 1 < m ==> cmp(s[lo + c], s[lo + 2 * r + 1]) >= 0
    requires 2 * r + 2 < m ==> cmp(s[lo + c], s[lo + 2 * r + 2]) >= 0
    ensures Heap(s, lo, root, m, cmp)
  {
    hide TotalPreorder;
    forall d: nat | 1 <= d < m && root <= (d - 1) / 2 ensures Below(s, lo, d, cmp) {
      if d == 2 * r + 1 || d == 2 * r + 2 {
        assert (d - 1) / 2 == r;
        CmpFacts(cmp, s[lo + d], s[lo + c], s[lo + r]);
        CmpFacts(cmp, s[lo + c], s[lo + d], s[lo + d]);
        CmpFacts(cmp, s[lo + c], s[lo + r], s[lo + d]);
        CmpFacts(cmp, s[lo + r], s[lo + d], s[lo + d]);
      }
    }
  }

  method LargerChild<T(!new)>(a: array<T>, lo: nat, r: nat, m: nat, cmp: Cmp<T>) returns (c: nat)
    requires lo + m <= a.Length && 2 * r + 1 < m
    ensures (c == 2 * r + 1 || c == 2 * r + 2) && c < m
    ensures TotalPreorder(cmp) ==> cmp(a[lo + c], a[lo + 2 * r + 1]) >= 0
    ensures TotalPreorder(cmp) && 2 * r + 2 < m ==> cmp(a[lo + c], a[lo + 2 * r + 2]) >= 0
  {
    hide TotalPreorder;
    c := 2 * r + 1;
    if TotalPreorder(cmp) {
      CmpFacts(cmp, a[lo + c], a[lo + c], a[lo + c]);
    }
    if c < m - 1 {
      if TotalPreorder(cmp) {
        CmpFacts(cmp, a[lo + c + 1], a[lo + c + 1], a[lo + c + 1]);
        CmpFacts(cmp, a[lo + c], a[lo + c + 1], a[lo + c]);
      }
      if cmp(a[lo + c], a[lo + c + 1]) <= 0 {
        c := c + 1;
      }
    }
  }

  /** The inner loop of heapsortx: let the element at root sink below its larger children. */
  method SiftDown<T(!new)>(a: array<T>, lo: nat, root: nat, m: nat, cmp: Cmp<T>)
    requires lo + m <= a.Length
    requires TotalPreorder(cmp) ==> Heap(a[..], lo, root + 1, m, cmp)
    modifies a
    ensures SegPerm(old(a[..]), a[..], lo, lo + m)
    ensures TotalPreorder(cmp) ==> Heap(a[..], lo, root, m, cmp)
  {
    hide TotalPreorder, SegPerm, HeapBut, Heap;
    ghost var s := a[..];
    SegPermRefl(s, lo, lo + m);
    if TotalPreorder(cmp) {
      SiftStart(s, lo, root, m, cmp);
    }
    var r := root;
    while 2 * r + 1 < m
      invariant SegPerm(s, a[..], lo, lo + m)
      invariant TotalPreorder(cmp) ==> HeapBut(a[..], lo, root, r, m, cmp)
      decreases m - r
    {
      var c := LargerChild(a, lo, r, m, cmp);
      if cmp(a[lo + r], a[lo + c]) > 0 {
        if TotalPreorder(cmp) {
          SiftDone(a[..], lo, root, r, c, m, cmp);
        }
        return;
      }
      ghost var t := a[..];
      Swap(a, lo + r, lo + c, lo, lo + m, s);
      if TotalPreorder(cmp) {
        SiftStep(t, a[..], lo, root, r, c, m, cmp);
      }
      r := c;
    }
    if TotalPreorder(cmp) {
      SiftDone(a[..], lo, root, r, 0, m, cmp);
    }
  }

  lemma SiftStart<T(!new)>(s: seq<T>, lo: nat, root: nat, m: nat, cmp: Cmp<T>)
    requires lo + m <= |s| && Heap(s, lo, root + 1, m, cmp)
    ensures HeapBut(s, lo, root, root, m, cmp)
  {
    forall d: nat | 1 <= d < m && root <= (d - 1) / 2 && d != 2 * root + 1 && d != 2 * root + 2
      ensures Below(s, lo, d, cmp)
    {
      assert root + 1 <= (d - 1) / 2;
    }
  }

  /** The elements from heap position i on are in order, and not below any element before them. */
  ghost predicate TailSorted<T>(s: seq<T>, lo: nat, i: nat, n: nat, cmp: Cmp<T>)
    requires lo + n <= |s|
  {
    forall x: nat, y: nat | lo <= x < y < lo + n && lo + i <= y :: cmp(s[x], s[y]) <= 0
  }

  lemma TailKept<T>(s: seq<T>, t: seq<T>, lo: nat, i: nat, n: nat, cmp: Cmp<T>)
    requires i <= n && lo + n <= |s| && SegPerm(s, t, lo, lo + i) && TailSorted(s, lo, i, n, cmp)
    ensures TailSorted(t, lo, i, n, cmp)
  {
    forall x: nat, y: nat | lo <= x < y < lo + n && lo + i <= y ensures cmp(t[x], t[y]) <= 0 {
      SegPermElem(s, t, lo, lo + i, x);
      SegPermElem(s, t, lo, lo + i, y);
    }
  }

  /** Exchanging the top of a heap of i + 1 elements with the last one puts that one in its place. */
  lemma TopMoved<T(!new)>(s: seq<T>, t: seq<T>, lo: nat, i: nat, n: nat, cmp: Cmp<T>)
    requires 0 < i < n && lo + n <= |s| && TotalPreorder(cmp)
    requires Heap(s, lo, 0, i + 1, cmp) && TailSorted(s, lo, i + 1, n, cmp)
    requires |t| == |s| && t[lo] == s[lo + i] && t[lo + i] == s[lo]
    requires forall k | 0 <= k < |s| && k != lo && k != lo + i :: t[k] == s[k]
    ensures Heap(t, lo, 1, i, cmp) && TailSorted(t, lo, i, n, cmp)
  {
    hide TotalPreorder;
    forall c: nat | 1 <= c < i && 1 <= (c - 1) / 2 ensures Below(t, lo, c, cmp) {
      assert Below(s, lo, c, cmp);
    }
    forall x: nat, y: nat | lo <= x < y < lo + n && lo + i <= y ensures cmp(t[x], t[y]) <= 0 {
      if y == lo + i {
        var k := if x == lo then i else x - lo;
        HeapTop(s, lo, i + 1, k, cmp);
        CmpFacts(cmp, s[lo], s[lo + k], s[lo]);
      } else {
        var x' := if x == lo then lo + i else if x == lo + i then lo else x;
        assert t[x] == s[x'] && t[y] == s[y];
      }
    }
  }

  method HeapSort<T(!new)>(a: array<T>, lo: nat, n: nat, cmp: Cmp<T>)
    requires lo + n <= a.Length
    modifies a
    ensures SegPerm(old(a[..]), a[..], lo, lo + n)
    ensures TotalPreorder(cmp) ==> Sorted(a[lo..lo + n], cmp)
  {
    ghost var s := a[..];
    SegPermRefl(s, lo, lo + n);
    if n > 1 {
      var i := n / 2;
      assert Heap(a[..], lo, i, n, cmp);
      hide TotalPreorder, SegPerm, Heap;
      while i > 0
        invariant 0 <= i && SegPerm(s, a[..], lo, lo + n) && (TotalPreorder(cmp) ==> Heap(a[..], lo, i, n, cmp))
      {
        i := i - 1;
        ghost var t := a[..];
        SiftDown(a, lo, i, n, cmp);
        SegPermTrans(s, t, a[..], lo, lo + n);
      }
      SortHeap(a, lo, n, cmp, s);
    }
  }

  /** The second loop of heapsortx. */
  lemma NoTail<T>(s: seq<T>, lo: nat, n: nat, cmp: Cmp<T>)
    requires lo + n <= |s|
    ensures TailSorted(s, lo, n, n, cmp)
  {
  }

  lemma WholeTail<T(!new)>(s: seq<T>, lo: nat, n: nat, cmp: Cmp<T>)
    requires lo + n <= |s| && TailSorted(s, lo, 1, n, cmp) && TotalPreorder(cmp)
    ensures Sorted(s[lo..lo + n], cmp)
  {
  }

  /** The largest element moves behind the heap, and the heap is repaired. */
  method ExtractTop<T(!new)>(a: array<T>, lo: nat, i: nat, n: nat, cmp: Cmp<T>, ghost s: seq<T>)
    requires 0 < i < n && lo + n <= a.Length && SegPerm(s, a[..], lo, lo + n)
    requires TotalPreorder(cmp) ==> Heap(a[..], lo, 0, i + 1, cmp) && TailSorted(a[..], lo, i + 1, n, cmp)
    modifies a
    ensures SegPerm(s, a[..], lo, lo + n)
    ensures TotalPreorder(cmp) ==> Heap(a[..], lo, 0, i, cmp) && TailSorted(a[..], lo, i, n, cmp)
  {
    hide TotalPreorder, SegPerm, Heap, TailSorted;
    ghost var t := a[..];
    Swap(a, lo, lo + i, lo, lo + n, s);
    if TotalPreorder(cmp) {
      TopMoved(t, a[..], lo, i, n, cmp);
    }
    t := a[..];
    SiftDown(a, lo, 0, i, cmp);
    if TotalPreorder(cmp) {
      TailKept(t, a[..], lo, i, n, cmp);
    }
    SegPermWiden(t, a[..], lo, lo + i, lo, lo + n);
    SegPermTrans(s, t, a[..], lo, lo + n);
  }

  method SortHeap<T(!new)>(a: array<T>, lo: nat, n: nat, cmp: Cmp<T>, ghost s: seq<T>)
    requires 1 < n && lo + n <= a.Length && SegPerm(s, a[..], lo, lo + n)
    requires TotalPreorder(cmp) ==> Heap(a[..], lo, 0, n, cmp)
    modifies a
    ensures SegPerm(s, a[..], lo, lo + n)
    ensures TotalPreorder(cmp) ==> Sorted(a[lo..lo + n], cmp)
  {
    hide TotalPreorder, SegPerm, Heap, TailSorted, Sorted;
    var i := n - 1;
    NoTail(a[..], lo, n, cmp);
    while i > 0
      invariant 0 <= i < n && SegPerm(s, a[..], lo, lo + n)
      invariant TotalPreorder(cmp) ==> Heap(a[..], lo, 0, i + 1, cmp) && TailSorted(a[..], lo, i + 1, n, cmp)
    {
      ExtractTop(a, lo, i, n, cmp, s);
      i := i - 1;
    }
    if TotalPreorder(cmp) {
      WholeTail(a[..], lo, n, cmp);
    }
    assert a[..][lo..lo + n] == a[lo..lo + n];
  }

  // ----- partition -----

  /** How x compares to the pivot: -1 below it, 0 like it or the pivot itself, 1 above it. */
  ghost predicate Beside<T>(x: T, pivot: T, side: int, cmp: Cmp<T>) {
    if side < 0 then cmp(pivot, x) > 0 else if side == 0 then cmp(pivot, x) == 0 || x == pivot else cmp(pivot, x) < 0
  }

  /** All elements of [from, to) are on the same side of the pivot. */
  ghost predicate Band<T>(s: seq<T>, from: nat, to: nat, pivot: T, side: int, cmp: Cmp<T>) {
    to <= |s| && forall k | from <= k < to :: Beside(s[k], pivot, side, cmp)
  }

  /**
   The four parts during partitioning: like the pivot in [lo, plt), below it in [plt, pi), above it in [pj, pgt), like
   it in [pgt, top).
   */
  ghost predicate Parts<T>(s: seq<T>, lo: nat, plt: nat, pi: nat, pj: nat, pgt: nat, top: nat, cmp: Cmp<T>) {
    && lo < plt <= pi <= |s| && pj <= pgt <= top <= |s|
    && Band(s, lo, plt, s[lo], 0, cmp) && Band(s, plt, pi, s[lo], -1, cmp)
    && Band(s, pj, pgt, s[lo], 1, cmp) && Band(s, pgt, top, s[lo], 0, cmp)
  }

  /** The first inner loop: pass over the elements that are not above the pivot. */
  method ScanUp<T(!new)>(a: array<T>, lo: nat, plt0: nat, pi0: nat, pj: nat, ghost pgt: nat, ghost top: nat, cmp: Cmp<T>,
                         ghost s: seq<T>) returns (plt: nat, pi: nat)
    requires top <= a.Length && pi0 <= pj && Parts(a[..], lo, plt0, pi0, pj, pgt, top, cmp)
    requires SegPerm(s, a[..], lo, top)
    modifies a
    ensures pi0 <= pi <= pj && Parts(a[..], lo, plt, pi, pj, pgt, top, cmp) && SegPerm(s, a[..], lo, top)
    ensures pi < pj ==> cmp(a[lo], a[pi]) < 0
  {
    hide SegPerm;
    plt, pi := plt0, pi0;
    while pi < pj && cmp(a[lo], a[pi]) >= 0
      invariant pi0 <= pi <= pj && Parts(a[..], lo, plt, pi, pj, pgt, top, cmp) && SegPerm(s, a[..], lo, top)
    {
      if cmp(a[lo], a[pi]) == 0 {
        Swap(a, plt, pi, lo, top, s);
        plt := plt + 1;
      }
      pi := pi + 1;
    }
  }

  /** The second inner loop: pass down over the elements that are not below the pivot. */
  method ScanDown<T(!new)>(a: array<T>, lo: nat, ghost plt: nat, pi: nat, pj0: nat, pgt0: nat, ghost top: nat, cmp: Cmp<T>,
                           ghost s: seq<T>) returns (pj: int, pgt: nat)
    requires top <= a.Length && pi <= pj0 && Parts(a[..], lo, plt, pi, pj0, pgt0, top, cmp)
    requires SegPerm(s, a[..], lo, top)
    requires pi < pj0 ==> cmp(a[lo], a[pi]) < 0
    modifies a
    ensures pi - 1 <= pj < pj0 && SegPerm(s, a[..], lo, top)
    ensures Parts(a[..], lo, plt, pi, if pi < pj then pj + 1 else pi, pgt, top, cmp)
    ensures pi < pj ==> cmp(a[lo], a[pi]) < 0 && cmp(a[lo], a[pj]) > 0
  {
    hide SegPerm;
    pj, pgt := pj0 - 1, pgt0;
    while pi < pj && cmp(a[lo], a[pj]) <= 0
      invariant pi - 1 <= pj < pj0 && Parts(a[..], lo, plt, pi, pj + 1, pgt, top, cmp) && SegPerm(s, a[..], lo, top)
      invariant pi < pj0 ==> pi <= pj && cmp(a[lo], a[pi]) < 0
    {
      if cmp(a[lo], a[pj]) == 0 {
        pgt := pgt - 1;
        Swap(a, pgt, pj, lo, top, s);
      }
      pj := pj - 1;
    }
  }

  /** The scans, up to the point where they meet. */
  method Scan<T(!new)>(a: array<T>, lo: nat, top: nat, cmp: Cmp<T>, ghost s: seq<T>) returns (plt: nat, pi: nat, pgt: nat)
    requires lo < top <= a.Length && SegPerm(s, a[..], lo, top)
    modifies a
    ensures pi <= pgt && Parts(a[..], lo, plt, pi, pi, pgt, top, cmp) && SegPerm(s, a[..], lo, top)
  {
    plt, pi, pgt := lo + 1, lo + 1, top;
    var pj: int := top;
    assert Parts(a[..], lo, plt, pi, pj, pgt, top, cmp);
    hide SegPerm, Parts;
    while true
      invariant pi <= pj && Parts(a[..], lo, plt, pi, pj, pgt, top, cmp) && SegPerm(s, a[..], lo, top)
      decreases pj
    {
      plt, pi := ScanUp(a, lo, plt, pi, pj, pgt, top, cmp, s);
      pj, pgt := ScanDown(a, lo, plt, pi, pj, pgt, top, cmp, s);
      if pi >= pj {
        break;
      }
      ghost var t := a[..];
      PartsBounds(t, lo, plt, pi, pj + 1, pgt, top, cmp);
      Swap(a, pi, pj, lo, top, s);
      PartsCross(t, a[..], lo, plt, pi, pj, pgt, top, cmp);
      pi := pi + 1;
    }
  }

  lemma PartsBounds<T>(s: seq<T>, lo: nat, plt: nat, pi: nat, pj: nat, pgt: nat, top: nat, cmp: Cmp<T>)
    requires Parts(s, lo, plt, pi, pj, pgt, top, cmp)
    ensures lo < plt <= pi <= |s| && pj <= pgt <= top <= |s|
  {
  }

  lemma PartsCross<T>(s: seq<T>, t: seq<T>, lo: nat, plt: nat, pi: nat, pj: nat, pgt: nat, top: nat, cmp: Cmp<T>)
    requires Parts(s, lo, plt, pi, pj + 1, pgt, top, cmp) && pi < pj && cmp(s[lo], s[pi]) < 0 && cmp(s[lo], s[pj]) > 0
    requires |t| == |s| && t[pi] == s[pj] && t[pj] == s[pi]
    requires forall k | 0 <= k < |s| && k != pi && k != pj :: t[k] == s[k]
    ensures Parts(t, lo, plt, pi + 1, pj, pgt, top, cmp)
  {
  }

  lemma BandKept<T>(s: seq<T>, t: seq<T>, from: nat, to: nat, pivot: T, side: int, cmp: Cmp<T>)
    requires Band(s, from, to, pivot, side, cmp) && |t| == |s|
    requires forall k | from <= k < to :: t[k] == s[k]
    ensures Band(t, from, to, pivot, side, cmp)
  {
  }

  lemma BandJoin<T>(s: seq<T>, from: nat, mid: nat, to: nat, pivot: T, cmp: Cmp<T>)
    requires Band(s, from, mid, pivot, 0, cmp) && Band(s, mid, to, pivot, 0, cmp)
    ensures Band(s, from, to, pivot, 0, cmp)
  {
  }

  /** Exchange two neighbouring bands [x, y) and [y, z), by swapping the smallest span that does it. */
  method ExchangeBands<T>(a: array<T>, x: nat, y: nat, z: nat, ghost pivot: T, ghost side0: int, ghost side1: int,
                          ghost cmp: Cmp<T>, ghost lo: nat, ghost top: nat, ghost s: seq<T>)
    requires lo <= x <= y <= z <= top <= a.Length && SegPerm(s, a[..], lo, top)
    requires Band(a[..], x, y, pivot, side0, cmp) && Band(a[..], y, z, pivot, side1, cmp)
    modifies a
    ensures SegPerm(s, a[..], lo, top)
    ensures Band(a[..], x, x + (z - y), pivot, side1, cmp) && Band(a[..], x + (z - y), z, pivot, side0, cmp)
    ensures forall k | 0 <= k < a.Length && !(x <= k < z) :: a[k] == old(a[k])
  {
    hide SegPerm;
    var span := if y - x > z - y then z - y else y - x;
    SwapBlock(a, x, z - span, span, lo, top, s);
  }

  /** Move the elements like the pivot from both ends to the middle. */
  method Gather<T(!new)>(a: array<T>, lo: nat, plt: nat, pi: nat, pgt: nat, top: nat, cmp: Cmp<T>, ghost s: seq<T>)
      returns (lt: nat, gt: nat, ghost pivot: T)
    requires lo < top <= a.Length && pi <= pgt && Parts(a[..], lo, plt, pi, pi, pgt, top, cmp) && SegPerm(s, a[..], lo, top)
    modifies a
    ensures SegPerm(s, a[..], lo, top) && lt < gt <= top - lo
    ensures Band(a[..], lo, lo + lt, pivot, -1, cmp) && Band(a[..], lo + lt, lo + gt, pivot, 0, cmp)
    ensures Band(a[..], lo + gt, top, pivot, 1, cmp)
  {
    hide SegPerm, Band;
    pivot := a[lo];
    lt := pi - plt;
    gt := top - lo - (pgt - pi);
    ghost var t := a[..];
    ExchangeBands(a, lo, plt, pi, pivot, 0, -1, cmp, lo, top, s);
    BandKept(t, a[..], pi, pgt, pivot, 1, cmp);
    BandKept(t, a[..], pgt, top, pivot, 0, cmp);
    t := a[..];
    ExchangeBands(a, pi, pgt, top, pivot, 1, 0, cmp, lo, top, s);
    BandKept(t, a[..], lo, lo + lt, pivot, -1, cmp);
    BandKept(t, a[..], lo + lt, pi, pivot, 0, cmp);
    BandJoin(a[..], lo + lt, pi, lo + gt, pivot, cmp);
  }

  /** One partition: below the pivot in the first lt places, above it from place gt on, like it in between. */
  method Partition<T(!new)>(a: array<T>, lo: nat, n: nat, cmp: Cmp<T>) returns (lt: nat, gt: nat, ghost pivot: T)
    requires 6 < n && lo + n <= a.Length
    modifies a
    ensures SegPerm(old(a[..]), a[..], lo, lo + n) && lt < gt <= n
    ensures Band(a[..], lo, lo + lt, pivot, -1, cmp) && Band(a[..], lo + lt, lo + gt, pivot, 0, cmp)
    ensures Band(a[..], lo + gt, lo + n, pivot, 1, cmp)
  {
    hide SegPerm, Band, Parts;
    ghost var s := a[..];
    SegPermRefl(s, lo, lo + n);
    var m4 := n / 4;
    var m := Med3(a, lo + m4, lo + 2 * m4, lo + 3 * m4, cmp);
    Swap(a, lo, m, lo, lo + n, s);
    var plt, pi, pgt := Scan(a, lo, lo + n, cmp, s);
    lt, gt, pivot := Gather(a, lo, plt, pi, pgt, lo + n, cmp, s);
  }

  // ----- the driver -----

  /** A pending segment: `count` elements from `base`, found at nesting `depth`. */
  datatype Segment = Segment(base: nat, count: nat, depth: nat) {
    function End(): nat { base + count }
  }

  /** If cmp orders the elements, no element before position p is above one from p on. */
  ghost predicate Cut<T(!new)>(s: seq<T>, p: nat, cmp: Cmp<T>) {
    TotalPreorder(cmp) ==> forall i, j | 0 <= i < p <= j < |s| :: cmp(s[i], s[j]) <= 0
  }

  ghost predicate Apart(x: Segment, y: Segment) {
    x.End() <= y.base || y.End() <= x.base
  }

  ghost predicate Within(p: nat, segs: seq<Segment>) {
    exists k | 0 <= k < |segs| :: segs[k].base < p < segs[k].End()
  }

  /** Sorting each pending segment in place would sort the whole. */
  ghost predicate Pending<T(!new)>(s: seq<T>, segs: seq<Segment>, cmp: Cmp<T>) {
    && (forall k | 0 <= k < |segs| :: segs[k].End() <= |s| && Cut(s, segs[k].base, cmp) && Cut(s, segs[k].End(), cmp))
    && (forall k, l | 0 <= k < l < |segs| :: Apart(segs[k], segs[l]))
    && (forall p: nat | p <= |s| :: Cut(s, p, cmp) || Within(p, segs))
  }

  lemma NothingPending<T(!new)>(s: seq<T>, cmp: Cmp<T>)
    requires Pending(s, [], cmp) && TotalPreorder(cmp)
    ensures Sorted(s, cmp)
  {
    hide TotalPreorder;
    forall i, j | 0 <= i < j < |s| ensures cmp(s[i], s[j]) <= 0 {
      assert Cut(s, j, cmp) || Within(j, []);
    }
  }

  /** A cut outside a segment survives a rearrangement of the segment. */
  lemma CutKept<T(!new)>(s: seq<T>, t: seq<T>, lo: nat, hi: nat, p: nat, cmp: Cmp<T>)
    requires Cut(s, p, cmp) && SegPerm(s, t, lo, hi) && (p <= lo || hi <= p)
    ensures Cut(t, p, cmp)
  {
    hide TotalPreorder;
    forall i, j | 0 <= i < p <= j < |t| && TotalPreorder(cmp) ensures cmp(t[i], t[j]) <= 0 {
      SegPermElem(s, t, lo, hi, i);
      SegPermElem(s, t, lo, hi, j);
    }
  }

  /** Cuts at both ends and inside the segment make a cut of the whole. */
  lemma CutInside<T(!new)>(s: seq<T>, lo: nat, hi: nat, p: nat, cmp: Cmp<T>)
    requires lo <= p <= hi <= |s| && Cut(s, lo, cmp) && Cut(s, hi, cmp)
    requires TotalPreorder(cmp) ==> forall i, j | lo <= i < p <= j < hi :: cmp(s[i], s[j]) <= 0
    ensures Cut(s, p, cmp)
  {
    hide TotalPreorder;
  }

  lemma SegmentSorted<T(!new)>(s: seq<T>, t: seq<T>, rest: seq<Segment>, cur: Segment, cmp: Cmp<T>)
    requires Pending(s, rest + [cur], cmp) && SegPerm(s, t, cur.base, cur.End())
    requires TotalPreorder(cmp) ==> Sorted(t[cur.base..cur.End()], cmp)
    ensures Pending(t, rest, cmp)
  {
    hide SegPerm, Cut, TotalPreorder;
    var segs := rest + [cur];
    assert segs[|rest|] == cur;
    CutKept(s, t, cur.base, cur.End(), cur.base, cmp);
    CutKept(s, t, cur.base, cur.End(), cur.End(), cmp);
    SegPermLength(s, t, cur.base, cur.End());
    forall k | 0 <= k < |rest|
      ensures rest[k].End() <= |t| && Cut(t, rest[k].base, cmp) && Cut(t, rest[k].End(), cmp)
    {
      assert segs[k] == rest[k] && Apart(segs[k], segs[|rest|]);
      CutKept(s, t, cur.base, cur.End(), rest[k].base, cmp);
      CutKept(s, t, cur.base, cur.End(), rest[k].End(), cmp);
    }
    forall k, l | 0 <= k < l < |rest| ensures Apart(rest[k], rest[l]) {
      assert segs[k] == rest[k] && segs[l] == rest[l];
    }
    forall p: nat | p <= |t| ensures Cut(t, p, cmp) || Within(p, rest) {
      if cur.base < p < cur.End() {
        SortedCut(t, cur.base, cur.End(), p, cmp);
      } else if Within(p, segs) {
        var k :| 0 <= k < |segs| && segs[k].base < p < segs[k].End();
        assert rest[k] == segs[k];
      } else {
        CutKept(s, t, cur.base, cur.End(), p, cmp);
      }
    }
  }

  lemma SortedCut<T(!new)>(s: seq<T>, lo: nat, hi: nat, p: nat, cmp: Cmp<T>)
    requires lo <= p <= hi <= |s| && Cut(s, lo, cmp) && Cut(s, hi, cmp)
    requires TotalPreorder(cmp) ==> Sorted(s[lo..hi], cmp)
    ensures Cut(s, p, cmp)
  {
    hide TotalPreorder;
    forall i, j | lo <= i < p <= j < hi && TotalPreorder(cmp) ensures cmp(s[i], s[j]) <= 0 {
      assert s[lo..hi][i - lo] == s[i] && s[lo..hi][j - lo] == s[j];
    }
  }

  lemma SegPermLength<T>(s: seq<T>, t: seq<T>, lo: nat, hi: nat)
    requires SegPerm(s, t, lo, hi)
    ensures |t| == |s|
  {
  }

  /** The three bands that a partition leaves in a segment. */
  ghost predicate Banded<T>(s: seq<T>, lo: nat, n: nat, lt: nat, gt: nat, pivot: T, cmp: Cmp<T>) {
    && lt < gt <= n && lo + n <= |s|
    && Band(s, lo, lo + lt, pivot, -1, cmp) && Band(s, lo + lt, lo + gt, pivot, 0, cmp)
    && Band(s, lo + gt, lo + n, pivot, 1, cmp)
  }

  lemma MiddleCut<T(!new)>(s: seq<T>, lo: nat, n: nat, lt: nat, gt: nat, pivot: T, p: nat, cmp: Cmp<T>)
    requires Banded(s, lo, n, lt, gt, pivot, cmp) && lo + lt <= p <= lo + gt
    requires Cut(s, lo, cmp) && Cut(s, lo + n, cmp)
    ensures Cut(s, p, cmp)
  {
    hide TotalPreorder, Cut;
    forall i, j | lo <= i < p <= j < lo + n && TotalPreorder(cmp) ensures cmp(s[i], s[j]) <= 0 {
      assert Beside(s[i], pivot, if i < lo + lt then -1 else 0, cmp);
      assert Beside(s[j], pivot, if j < lo + gt then 0 else 1, cmp);
      CmpFacts(cmp, s[i], pivot, s[j]);
      CmpFacts(cmp, pivot, pivot, s[j]);
    }
    CutInside(s, lo, lo + n, p, cmp);
  }

  /** After a partition, the parts below and above the pivot are pending in place of the segment. */
  lemma SegmentSplit<T(!new)>(s: seq<T>, t: seq<T>, rest: seq<Segment>, cur: Segment, lt: nat, gt: nat, pivot: T,
                              x: Segment, y: Segment, cmp: Cmp<T>)
    requires Pending(s, rest + [cur], cmp) && SegPerm(s, t, cur.base, cur.End())
    requires Banded(t, cur.base, cur.count, lt, gt, pivot, cmp)
    requires || (x.base == cur.base && x.count == lt && y.base == cur.base + gt && y.count == cur.count - gt)
             || (y.base == cur.base && y.count == lt && x.base == cur.base + gt && x.count == cur.count - gt)
    ensures Pending(t, rest + [x] + [y], cmp)
  {
    hide SegPerm, Cut, TotalPreorder, Band;
    var lo, hi, n := cur.base, cur.End(), |rest|;
    var segs, news := rest + [cur], rest + [x] + [y];
    assert segs[n] == cur && news[n] == x && news[n + 1] == y;
    CutKept(s, t, lo, hi, lo, cmp);
    CutKept(s, t, lo, hi, hi, cmp);
    SegPermLength(s, t, lo, hi);
    MiddleCut(t, lo, cur.count, lt, gt, pivot, lo + lt, cmp);
    MiddleCut(t, lo, cur.count, lt, gt, pivot, lo + gt, cmp);
    forall k | 0 <= k < |news|
      ensures news[k].End() <= |t| && Cut(t, news[k].base, cmp) && Cut(t, news[k].End(), cmp)
    {
      if k < n {
        assert segs[k] == news[k] && Apart(segs[k], segs[n]);
        CutKept(s, t, lo, hi, news[k].base, cmp);
        CutKept(s, t, lo, hi, news[k].End(), cmp);
      }
    }
    forall k, l | 0 <= k < l < |news| ensures Apart(news[k], news[l]) {
      if k < n {
        assert segs[k] == news[k] && Apart(segs[k], segs[if l < n then l else n]);
        assert l < n ==> segs[l] == news[l];
      }
    }
    forall p: nat | p <= |t| ensures Cut(t, p, cmp) || Within(p, news) {
      if lo < p < hi {
        if lo + lt <= p <= lo + gt {
          MiddleCut(t, lo, cur.count, lt, gt, pivot, p, cmp);
        } else {
          assert news[n].base < p < news[n].End() || news[n + 1].base < p < news[n + 1].End();
        }
      } else if Within(p, segs) {
        var k :| 0 <= k < |segs| && segs[k].base < p < segs[k].End();
        assert news[k] == segs[k];
      } else {
        CutKept(s, t, lo, hi, p, cmp);
      }
    }
  }

  /** The measure that each round of the driver lowers. */
  function Weight(segs: seq<Segment>): (w: nat) {
    if segs == [] then 0 else Weight(segs[..|segs| - 1]) + 2 * segs[|segs| - 1].count + 1
  }

  lemma WeightPush(segs: seq<Segment>, x: Segment)
    ensures Weight(segs + [x]) == Weight(segs) + 2 * x.count + 1
  {
    assert (segs + [x])[..|segs|] == segs;
  }

  /** The stack of the driver: 50 entries, entry k at depth k or more. */
  ghost predicate Stacked(stack: seq<Segment>, sp: nat) {
    |stack| == 50 && sp <= 50 && forall k | 0 <= k < sp :: k <= stack[k].depth <= 50
  }

  lemma PendingBounds<T(!new)>(s: seq<T>, rest: seq<Segment>, cur: Segment, cmp: Cmp<T>)
    requires Pending(s, rest + [cur], cmp)
    ensures cur.End() <= |s|
  {
    assert (rest + [cur])[|rest|] == cur;
  }

  lemma PendingDepth<T(!new)>(s: seq<T>, rest: seq<Segment>, ptr: nat, n: nat, d: nat, e: nat, cmp: Cmp<T>)
    requires Pending(s, rest + [Segment(ptr, n, d)], cmp)
    ensures Pending(s, rest + [Segment(ptr, n, e)], cmp)
  {
    var segs, news := rest + [Segment(ptr, n, d)], rest + [Segment(ptr, n, e)];
    assert forall k | 0 <= k < |segs| :: news[k].base == segs[k].base && news[k].count == segs[k].count;
    assert forall p: nat | p <= |s| && Within(p, segs) :: Within(p, news);
  }

  /** A finished segment may stay on the list as an empty one. */
  lemma EmptyPending<T(!new)>(s: seq<T>, t: seq<T>, rest: seq<Segment>, cur: Segment, d: nat, cmp: Cmp<T>)
    requires Pending(s, rest + [cur], cmp) && SegPerm(s, t, cur.base, cur.End()) && Pending(t, rest, cmp)
    ensures Pending(t, rest + [Segment(cur.base, 0, d)], cmp)
  {
    hide SegPerm, Cut;
    var segs, news, n := rest + [cur], rest + [Segment(cur.base, 0, d)], |rest|;
    assert segs[n] == cur;
    CutKept(s, t, cur.base, cur.End(), cur.base, cmp);
    SegPermLength(s, t, cur.base, cur.End());
    forall k, l | 0 <= k < l < |news| ensures Apart(news[k], news[l]) {
      assert Apart(segs[k], segs[l]);
    }
    forall p: nat | p <= |t| ensures Cut(t, p, cmp) || Within(p, news) {
      if Within(p, rest) {
        var k :| 0 <= k < n && rest[k].base < p < rest[k].End();
        assert news[k] == rest[k];
      }
    }
  }

  lemma AllPending<T(!new)>(s: seq<T>, cmp: Cmp<T>)
    ensures Pending(s, [Segment(0, |s|, 0)], cmp)
  {
    var segs := [Segment(0, |s|, 0)];
    forall p: nat | p <= |s| ensures Cut(s, p, cmp) || Within(p, segs) {
      if 0 < p < |s| {
        assert segs[0].base < p < segs[0].End();
      }
    }
  }

  /** One round on a large segment: partition it, stack the larger part and return the smaller one. */
  method SplitSegment<T(!new)>(a: array<T>, stack: array<Segment>, sp: nat, ptr: nat, n: nat, depth: nat, cmp: Cmp<T>,
                               ghost s: seq<T>)
      returns (ptr': nat, n': nat)
    requires a != stack && Stacked(stack[..], sp) && sp < depth <= 50 && 6 < n && ptr + n <= a.Length
    requires SegPerm(s, a[..], 0, a.Length)
    requires Pending(a[..], stack[..sp] + [Segment(ptr, n, depth)], cmp)
    modifies a, stack
    ensures Stacked(stack[..], sp + 1) && SegPerm(s, a[..], 0, a.Length) && n' < n && ptr' + n' <= a.Length
    ensures Pending(a[..], stack[..sp + 1] + [Segment(ptr', n', depth)], cmp)
    ensures Weight(stack[..sp + 1]) + 2 * n' < Weight(old(stack[..sp])) + 2 * n
  {
    hide SegPerm, TotalPreorder, Pending;
    ghost var t, cur, rest := a[..], Segment(ptr, n, depth), stack[..sp];
    var lt, gt, pivot := Partition(a, ptr, n, cmp);
    SegPermWiden(t, a[..], ptr, ptr + n, 0, a.Length);
    SegPermTrans(s, t, a[..], 0, a.Length);
    if lt > n - gt {
      stack[sp] := Segment(ptr, lt, depth);
      ptr', n' := ptr + gt, n - gt;
    } else {
      stack[sp] := Segment(ptr + gt, n - gt, depth);
      ptr', n' := ptr, lt;
    }
    SegmentSplit(t, a[..], rest, cur, lt, gt, pivot, stack[sp], Segment(ptr', n', depth), cmp);
    WeightPush(rest, stack[sp]);
    assert stack[..sp + 1] == rest + [stack[sp]];
  }

  /** Sorting one pending segment, in terms of the whole array. */
  lemma SegmentFinished<T(!new)>(s: seq<T>, t: seq<T>, u: seq<T>, rest: seq<Segment>, cur: Segment, cmp: Cmp<T>)
    requires SegPerm(s, t, 0, |t|) && Pending(t, rest + [cur], cmp)
    requires SegPerm(t, u, cur.base, cur.End())
    requires TotalPreorder(cmp) ==> Sorted(u[cur.base..cur.End()], cmp)
    ensures SegPerm(s, u, 0, |u|) && Pending(u, rest, cmp) && Pending(u, rest + [Segment(cur.base, 0, cur.depth)], cmp)
  {
    hide TotalPreorder, Cut, Sorted;
    SegPermWiden(t, u, cur.base, cur.End(), 0, |t|);
    SegPermTrans(s, t, u, 0, |t|);
    SegmentSorted(t, u, rest, cur, cmp);
    EmptyPending(t, u, rest, cur, cur.depth, cmp);
  }

  /** The inner loop of rqsort: partition until at most 6 elements are left, or sort the segment by heapsort. */
  method Narrow<T(!new)>(a: array<T>, stack: array<Segment>, sp0: nat, ptr0: nat, n0: nat, depth0: nat, cmp: Cmp<T>,
                         ghost s: seq<T>)
      returns (sp: nat, ptr: nat, n: nat, ghost depth: nat)
    requires a != stack && Stacked(stack[..], sp0) && sp0 <= depth0 <= 50 && ptr0 + n0 <= a.Length
    requires SegPerm(s, a[..], 0, a.Length)
    requires Pending(a[..], stack[..sp0] + [Segment(ptr0, n0, depth0)], cmp)
    modifies a, stack
    ensures Stacked(stack[..], sp) && SegPerm(s, a[..], 0, a.Length) && ptr + n <= a.Length
    ensures Pending(a[..], stack[..sp] + [Segment(ptr, n, depth)], cmp)
    ensures Weight(stack[..sp]) + 2 * n <= Weight(old(stack[..sp0])) + 2 * n0
  {
    hide SegPerm, TotalPreorder, Pending, Weight;
    sp, ptr, n := sp0, ptr0, n0;
    var level := depth0;
    while n > 6
      invariant Stacked(stack[..], sp) && SegPerm(s, a[..], 0, a.Length) && sp <= level <= 50 && ptr + n <= a.Length
      invariant Pending(a[..], stack[..sp] + [Segment(ptr, n, level)], cmp)
      invariant Weight(stack[..sp]) + 2 * n <= Weight(old(stack[..sp0])) + 2 * n0
      decreases n
    {
      PendingDepth(a[..], stack[..sp], ptr, n, level, level + 1, cmp);
      level := level + 1;
      if level > 50 {
        ghost var t := a[..];
        HeapSort(a, ptr, n, cmp);
        SegmentFinished(s, t, a[..], stack[..sp], Segment(ptr, n, level), cmp);
        n := 0;
        break;
      }
      ptr, n := SplitSegment(a, stack, sp, ptr, n, level, cmp, s);
      sp := sp + 1;
    }
    depth := level;
  }

  /** The outer loop body of rqsort: take the segment on top of the stack, narrow it, and sort what is left. */
  method Round<T(!new)>(a: array<T>, stack: array<Segment>, top: nat, cmp: Cmp<T>, ghost s: seq<T>) returns (sp: nat)
    requires a != stack && Stacked(stack[..], top + 1)
    requires SegPerm(s, a[..], 0, a.Length) && Pending(a[..], stack[..top + 1], cmp)
    modifies a, stack
    ensures Stacked(stack[..], sp) && SegPerm(s, a[..], 0, a.Length) && Pending(a[..], stack[..sp], cmp)
    ensures Weight(stack[..sp]) < Weight(old(stack[..top + 1]))
  {
    hide SegPerm, TotalPreorder, Pending, Weight;
    var ptr, n, depth := stack[top].base, stack[top].count, stack[top].depth;
    assert stack[..top + 1] == stack[..top] + [Segment(ptr, n, depth)];
    WeightPush(stack[..top], Segment(ptr, n, depth));
    PendingBounds(a[..], stack[..top], Segment(ptr, n, depth), cmp);
    assert stack[..][top] == stack[top];
    ghost var level;
    sp, ptr, n, level := Narrow(a, stack, top, ptr, n, depth, cmp, s);
    ghost var t := a[..];
    InsertionSort(a, ptr, n, cmp);
    SegmentFinished(s, t, a[..], stack[..sp], Segment(ptr, n, level), cmp);
  }

  /**
   rqsort: for every comparator, a becomes an arrangement of its elements, and a sorted one if the comparator is a
   total preorder.
   */
  method Sort<T(!new)>(a: array<T>, cmp: Cmp<T>)
    modifies a
    ensures multiset(a[..]) == multiset(old(a[..]))
    ensures TotalPreorder(cmp) ==> Sorted(a[..], cmp)
  {
    hide SegPerm, TotalPreorder, Pending, Weight;
    if a.Length < 2 {
      return;
    }
    ghost var s := a[..];
    SegPermRefl(s, 0, a.Length);
    var stack := new Segment[50];
    stack[0] := Segment(0, a.Length, 0);
    var sp: nat := 1;
    AllPending(s, cmp);
    assert stack[..1] == [Segment(0, |s|, 0)];
    while sp > 0
      invariant Stacked(stack[..], sp) && SegPerm(s, a[..], 0, a.Length) && Pending(a[..], stack[..sp], cmp)
      decreases Weight(stack[..sp])
    {
      sp := Round(a, stack, sp - 1, cmp, s);
    }
    if TotalPreorder(cmp) {
      NothingPending(a[..], cmp);
    }
    WholePerm(s, a[..], 0, a.Length);
  }
}

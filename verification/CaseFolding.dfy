/**
 Case conversion by a table of runs, the canonicalization of single characters for regular expressions, and the
 canonicalization of whole character ranges without looking characters up one by one.
 */
module CaseFolding {
  import opened Bytes
  import opened Wrappers
  import opened CharRanges

  // ----- the tables -----

  datatype RunType = U | L | UF | LF | UL | LSU | U2L399 | UFD20 | UFD1 | UExt | LFExt | UFExt2 | LFExt2 | UFExt3

  type Word = x: int | 0 <= x < 0x1_0000_0000
  type Short = x: int | 0 <= x < 0x1_0000

  /** case_conv_table1, case_conv_table2 and case_conv_ext. */
  datatype Tables = Tables(runs: seq<Word>, low: seq<byte>, ext: seq<Short>) {
    /** First character of run i: the upper 17 bits. */
    function Code(i: nat): (c: nat)
      requires i < |runs|
    {
      runs[i] / 0x8000
    }

    /** How many characters run i has: the next 7 bits. */
    function Len(i: nat): (n: nat)
      requires i < |runs|
    {
      runs[i] / 0x100 % 0x80
    }

    function TypeNumber(i: nat): (n: nat)
      requires i < |runs|
    {
      runs[i] / 0x10 % 0x10
    }

    function Type(i: nat): RunType
      requires i < |runs|
    {
      [U, L, UF, LF, UL, LSU, U2L399, UFD20, UFD1, UExt, LFExt, UFExt2, LFExt2, UFExt3, UFExt3, UFExt3][TypeNumber(i)]
    }

    function Data(i: nat): (d: nat)
      requires i < |runs| && i < |low|
    {
      runs[i] % 0x10 * 0x100 + low[i]
    }

    /** c belongs to run i. */
    predicate Has(i: nat, c: int) {
      i < |runs| && Code(i) <= c < Code(i) + Len(i)
    }

    /** The data of run i stays inside the tables. */
    predicate DataFits(i: nat)
      requires i < |runs| && i < |low|
    {
      match Type(i)
      case U | L | UF | LF => Data(i) < |runs|
      case U2L399 | LFExt2 | UFExt2 => Data(i) / 64 < |ext| && Data(i) % 64 < |ext|
      case UFD1 | UExt | LFExt => Data(i) < |ext|
      case UFExt3 => Data(i) / 256 < |ext| && Data(i) / 16 % 16 < |ext| && Data(i) % 16 < |ext|
      case _ => true
    }

    ghost predicate RunFits(i: nat)
      requires i < |runs| && i < |low|
    {
      && DataFits(i) && TypeNumber(i) <= 13
      && (Type(i) == UL ==> Len(i) % 2 == 0) && (Type(i) == LSU ==> Len(i) >= 3)
    }

    ghost predicate Before(i: nat, j: nat)
      requires i < |runs| && j < |runs|
    {
      Code(i) + Len(i) <= Code(j)
    }

    /** Runs from left to right, with data inside the tables. */
    ghost predicate WellFormed() {
      && |low| == |runs| > 0
      && (forall i: nat | i < |runs| :: RunFits(i))
      && (forall i: nat, j: nat | i < j < |runs| :: Before(i, j))
    }

    /** The run of c, by linear search from run i on. */
    function Find(c: int, i: nat): (r: Option<nat>)
      ensures r.Some? ==> Has(r.value, c)
      ensures r.None? ==> forall k: nat | k >= i :: !Has(k, c)
      decreases |runs| - i
    {
      if i >= |runs| then None else if Has(i, c) then Some(i) else Find(c, i + 1)
    }
  }

  lemma OneRun(t: Tables, c: int, i: nat)
    requires t.WellFormed() && t.Has(i, c)
    ensures t.Find(c, 0) == Some(i)
  {
    var j := t.Find(c, 0).value;
    assert i < j ==> t.Before(i, j);
    assert j < i ==> t.Before(j, i);
  }

  // ----- conversion of one character -----

  datatype Conv = Upper | Lower | Fold

  /** lre_case_conv_entry: the conversion of c, which belongs to run i. */
  function ConvEntry(t: Tables, c: nat, conv: Conv, i: nat): (r: seq<nat>)
    requires t.WellFormed() && t.Has(i, c)
    ensures 1 <= |r| <= 3
    decreases if conv.Fold? then 1 else 0, 0
  {
    assert t.RunFits(i);
    var code, data, a := t.Code(i), t.Data(i), c - t.Code(i);
    match t.Type(i)
    case U => [if conv.Upper? then a + t.Code(data) else c]
    case L => [if conv.Lower? then a + t.Code(data) else c]
    case UF => [if conv.Upper? || conv.Fold? then a + t.Code(data) else c]
    case LF => [if conv.Lower? || conv.Fold? then a + t.Code(data) else c]
    case UL => [if (a % 2 == 0) == conv.Upper? then c else if a % 2 == 0 then c + 1 else c - 1]
    case LSU =>
      if conv.Upper? then [if a == 1 then c - 1 else if a == 2 then c - 2 else c]
      else [if a == 1 then c + 1 else if a == 0 then c + 2 else c]
    case U2L399 => if conv.Upper? then [a + t.ext[data / 64], 0x399] else [a + t.ext[data % 64]]
    case UFD20 => [if conv.Lower? then c else data + if conv.Fold? then 0x20 else 0]
    case UFD1 => [if conv.Lower? then c else t.ext[data] as int + if conv.Fold? then 1 else 0]
    case UExt => [if conv.Upper? then t.ext[data] else c]
    case LFExt => [if conv.Upper? then c else t.ext[data]]
    case LFExt2 => if conv.Upper? then [c] else [a + t.ext[data / 64], t.ext[data % 64]]
    case UFExt2 =>
      if conv.Lower? then [c] else Lowered(t, [a + t.ext[data / 64], t.ext[data % 64]], conv)
    case UFExt3 =>
      if conv.Lower? then [c] else Lowered(t, [t.ext[data / 256], t.ext[data / 16 % 16], t.ext[data % 16]], conv)
  }

  /** For case folding, the characters of an upper case expansion are lowered one by one. */
  function Lowered(t: Tables, r: seq<nat>, conv: Conv): (s: seq<nat>)
    requires t.WellFormed()
    ensures |s| == |r|
    decreases if conv.Fold? then 1 else 0, 0, |r|
  {
    if conv.Fold? then seq(|r|, k requires 0 <= k < |r| => CaseConv(t, r[k], Lower)[0]) else r
  }

  /** lre_case_conv, with the run found by linear search. */
  function CaseConv(t: Tables, c: nat, conv: Conv): (r: seq<nat>)
    requires t.WellFormed()
    ensures 1 <= |r| <= 3
    decreases if conv.Fold? then 1 else 0, 1
  {
    if c < 128 then [AsciiConv(c, conv)]
    else
      match t.Find(c, 0)
      case Some(i) => ConvEntry(t, c, conv, i)
      case None => [c]
  }

  function AsciiConv(c: nat, conv: Conv): nat {
    if conv.Upper? then if 'a' as int <= c <= 'z' as int then c - 'a' as int + 'A' as int else c
    else if 'A' as int <= c <= 'Z' as int then c - 'A' as int + 'a' as int else c
  }

  /** The runs below 128 convert like the shortcut for these characters does. */
  ghost predicate AgreesWithAscii(t: Tables)
    requires t.WellFormed()
  {
    forall c: nat, conv: Conv | c < 128 ::
      match t.Find(c, 0)
      case Some(i) => ConvEntry(t, c, conv, i) == [AsciiConv(c, conv)]
      case None => AsciiConv(c, conv) == c
  }

  /** lre_case_folding_entry: the canonical form of c, which belongs to run i. */
  function FoldEntry(t: Tables, c: nat, i: nat, isUnicode: bool): nat
    requires t.WellFormed() && t.Has(i, c)
  {
    if isUnicode then
      var r := ConvEntry(t, c, Fold, i);
      if |r| == 1 then r[0]
      else if c == 0xfb06 then 0xfb05
      else if c == 0x1fd3 then 0x390
      else if c == 0x1fe3 then 0x3b0
      else c
    else if c < 128 then AsciiConv(c, Upper)
    else
      var r := ConvEntry(t, c, Upper, i);
      if |r| == 1 && r[0] >= 128 then r[0] else c
  }

  /** lre_canonicalize, with the run found by linear search. */
  function Canonical(t: Tables, c: nat, isUnicode: bool): nat
    requires t.WellFormed()
  {
    if c < 128 then AsciiConv(c, if isUnicode then Fold else Upper)
    else
      match t.Find(c, 0)
      case Some(i) => FoldEntry(t, c, i, isUnicode)
      case None => c
  }

  /** The binary search of lre_case_conv and lre_canonicalize. */
  method SearchRun(t: Tables, c: nat) returns (r: Option<nat>)
    requires t.WellFormed()
    ensures r == t.Find(c, 0)
  {
    var idxMin, idxMax := 0, |t.runs| - 1;
    while idxMin <= idxMax
      invariant 0 <= idxMin && idxMax < |t.runs|
      invariant forall k: nat | t.Has(k, c) :: idxMin <= k <= idxMax
      decreases idxMax - idxMin + 1
    {
      var idx := (idxMax + idxMin) / 2;
      if c < t.Code(idx) {
        forall k: nat | t.Has(k, c) ensures k < idx {
          assert k > idx ==> t.Before(idx, k);
        }
        idxMax := idx - 1;
      } else if c >= t.Code(idx) + t.Len(idx) {
        forall k: nat | t.Has(k, c) ensures k > idx {
          assert k < idx ==> t.Before(k, idx);
        }
        idxMin := idx + 1;
      } else {
        OneRun(t, c, idx);
        return Some(idx);
      }
    }
    r := None;
  }

  /** lre_canonicalize. */
  method Canonicalize(t: Tables, c: nat, isUnicode: bool) returns (d: nat)
    requires t.WellFormed()
    ensures d == Canonical(t, c, isUnicode)
  {
    if c < 128 {
      return AsciiConv(c, if isUnicode then Fold else Upper);
    }
    var r := SearchRun(t, c);
    match r
    case Some(i) => d := FoldEntry(t, c, i, isUnicode);
    case None => d := c;
  }

  // ----- the characters that a conversion can change -----

  /** tab_run_mask: the run types that can change a character under a conversion. */
  predicate InMask(conv: Conv, ty: RunType) {
    match conv
    case Upper => ty in {U, UF, UL, LSU, U2L399, UFD20, UFD1, UExt, UFExt2, UFExt3}
    case Lower => ty in {L, LF, UL, LSU, U2L399, LFExt, LFExt2}
    case Fold => ty in {UF, LF, UL, LSU, U2L399, LFExt, LFExt2, UFD20, UFD1, UFExt2, UFExt3}
  }

  /** The characters of run i that unicode_case1 puts in the set, for a mask of conversions. */
  ghost predicate MarkedBy(t: Tables, i: nat, c: int, mask: set<Conv>)
    requires t.WellFormed()
  {
    && t.Has(i, c) && (exists conv :: conv in mask && InMask(conv, t.Type(i)))
    && (mask == {Upper} || Upper !in mask ==>
          match t.Type(i)
          case UL => (c - t.Code(i)) % 2 == if Upper in mask then 1 else 0
          case LSU => if Upper in mask then c - t.Code(i) in {1, 2} else c - t.Code(i) in {0, 1}
          case _ => true)
  }

  ghost predicate Marked(t: Tables, c: int, mask: set<Conv>)
    requires t.WellFormed()
  {
    exists i: nat :: MarkedBy(t, i, c, mask)
  }

  /** The mask is wide enough: a character left out of it is its own conversion. */
  lemma MaskCovers(t: Tables, c: nat, conv: Conv, i: nat)
    requires t.WellFormed() && t.Has(i, c) && !MarkedBy(t, i, c, {conv})
    ensures ConvEntry(t, c, conv, i) == [c]
  {
    assert t.RunFits(i);
    assert conv in {conv};
  }

  /** A character that is not marked is its own canonical form. */
  lemma UnmarkedIsCanonical(t: Tables, c: nat, isUnicode: bool)
    requires t.WellFormed() && AgreesWithAscii(t)
    requires !Marked(t, c, {if isUnicode then Fold else Upper})
    ensures Canonical(t, c, isUnicode) == c
  {
    var conv := if isUnicode then Fold else Upper;
    match t.Find(c, 0)
    case Some(i) => MaskCovers(t, c, conv, i);
    case None =>
  }

  lemma SmallConversion(t: Tables, c: nat, conv: Conv, i: nat)
    requires t.WellFormed() && t.Has(i, c)
    ensures c < 0x30000 && (|ConvEntry(t, c, conv, i)| == 1 ==> ConvEntry(t, c, conv, i)[0] < 0x30000)
  {
    assert t.RunFits(i);
  }

  /** In a marked run, the entry gives the canonical form, also below 128. */
  lemma FoldEntryIsCanonical(t: Tables, c: nat, i: nat, isUnicode: bool)
    requires t.WellFormed() && AgreesWithAscii(t) && t.Has(i, c)
    ensures FoldEntry(t, c, i, isUnicode) == Canonical(t, c, isUnicode) < UINT32_MAX
  {
    OneRun(t, c, i);
    SmallConversion(t, c, if isUnicode then Fold else Upper, i);
  }

  // ----- the set of characters that a conversion can change -----

  /** An ordered list that ends at or before m. */
  ghost predicate EndsBy(s: seq<int>, m: int) {
    Ordered(s) && forall k | 0 <= k < |s| :: s[k] <= m
  }

  method AddAfter(cr: CharRange, c1: Point, c2: Point)
    requires EndsBy(cr.points, c1) && c1 <= c2
    modifies cr
    ensures EndsBy(cr.points, c2)
    ensures forall x: int :: In(cr.points, x) <==> In(old(cr.points), x) || c1 <= x < c2
  {
    forall x: int ensures In(cr.points + [c1, c2], x) <==> In(cr.points, x) || c1 <= x < c2 {
      InPush(cr.points, c1, c2, x);
    }
    cr.AddInterval(c1, c2);
  }

  /** Every other character of a run. */
  method AddAlternate(cr: CharRange, code: nat, len: nat)
    requires EndsBy(cr.points, code) && code + len < UINT32_MAX && len % 2 == 0
    modifies cr
    ensures EndsBy(cr.points, if len == 0 then code else code + len - 1)
    ensures forall x: int :: In(cr.points, x) <==> In(old(cr.points), x) || (code <= x < code + len && (x - code) % 2 == 0)
  {
    hide In, EndsBy;
    ghost var s := cr.points;
    var i := 0;
    while i < len
      invariant 0 <= i <= len && i % 2 == 0 && EndsBy(cr.points, if i == 0 then code else code + i - 1)
      invariant forall x: int :: In(cr.points, x) <==> In(s, x) || (code <= x < code + i && (x - code) % 2 == 0)
    {
      EndsLater(cr.points, if i == 0 then code else code + i - 1, code + i);
      AddAfter(cr, code + i, code + i + 1);
      i := i + 2;
    }
  }

  lemma EndsLater(s: seq<int>, m: int, n: int)
    requires EndsBy(s, m) && m <= n
    ensures EndsBy(s, n)
  {
  }

  lemma RunAt(t: Tables, i: nat)
    requires t.WellFormed() && i < |t.runs|
    ensures t.RunFits(i)
  {
  }

  /** Whether the characters of a run are added for a mask. */
  predicate Selected(mask: set<Conv>, ty: RunType) {
    (Upper in mask && InMask(Upper, ty)) || (Lower in mask && InMask(Lower, ty)) || (Fold in mask && InMask(Fold, ty))
  }

  lemma MarkedForms(t: Tables, i: nat, mask: set<Conv>)
    requires t.WellFormed() && i < |t.runs|
    ensures forall c: int :: MarkedBy(t, i, c, mask) <==>
              && t.Has(i, c) && Selected(mask, t.Type(i))
              && ((Upper in mask && (Lower in mask || Fold in mask))
                  || match t.Type(i)
                     case UL => (c - t.Code(i)) % 2 == if Upper in mask then 1 else 0
                     case LSU => if Upper in mask then 1 <= c - t.Code(i) <= 2 else 0 <= c - t.Code(i) <= 1
                     case _ => true)
  {
    hide Tables.WellFormed, InMask;
    WholeMask(mask);
    SelectedForm(mask, t.Type(i));
  }

  lemma SelectedForm(mask: set<Conv>, ty: RunType)
    ensures Selected(mask, ty) <==> exists conv :: conv in mask && InMask(conv, ty)
  {
    hide InMask;
    forall conv | conv in mask && InMask(conv, ty) ensures Selected(mask, ty) {
      assert conv == Upper || conv == Lower || conv == Fold;
    }
  }

  lemma WholeMask(mask: set<Conv>)
    ensures Upper in mask && (Lower in mask || Fold in mask) <==> !(mask == {Upper} || Upper !in mask)
  {
    if Upper in mask && Lower !in mask && Fold !in mask {
      assert forall c | c in mask :: c == Upper;
    }
  }

  /** The characters of run i that the mask selects. */
  method AddRun(t: Tables, cr: CharRange, i: nat, mask: set<Conv>)
    requires t.WellFormed() && i < |t.runs| && EndsBy(cr.points, t.Code(i))
    modifies cr
    ensures EndsBy(cr.points, t.Code(i) + t.Len(i))
    ensures forall x: int :: In(cr.points, x) <==> In(old(cr.points), x) || MarkedBy(t, i, x, mask)
  {
    hide In, EndsBy, Tables.WellFormed, InMask, MarkedBy;
    var ty, code, len := t.Type(i), t.Code(i), t.Len(i);
    RunAt(t, i);
    MarkedForms(t, i, mask);
    EndsLater(cr.points, code, code + len);
    if (Upper in mask && InMask(Upper, ty)) || (Lower in mask && InMask(Lower, ty)) || (Fold in mask && InMask(Fold, ty)) {
      var whole := Upper in mask && (Lower in mask || Fold in mask);
      if ty == UL && !whole {
        if len > 0 {
          if Upper in mask {
            EndsLater(cr.points, code, code + 1);
            AddAlternate(cr, code + 1, len);
          } else {
            AddAlternate(cr, code, len);
            EndsLater(cr.points, code + len - 1, code + len);
          }
        }
      } else if ty == LSU && !whole {
        AddShifted(cr, code, Upper in mask);
        EndsLater(cr.points, code + 3, code + len);
      } else {
        AddAfter(cr, code, code + len);
      }
    }
  }

  method AddShifted(cr: CharRange, code: nat, upper: bool)
    requires EndsBy(cr.points, code) && code + 3 < UINT32_MAX
    modifies cr
    ensures EndsBy(cr.points, code + 3)
    ensures forall x: int :: In(cr.points, x) <==>
              In(old(cr.points), x) || (if upper then code + 1 <= x < code + 3 else code <= x < code + 2)
  {
    hide In, EndsBy;
    if !upper {
      AddAfter(cr, code, code + 1);
    } else {
      EndsLater(cr.points, code, code + 1);
    }
    AddAfter(cr, code + 1, code + 2);
    if upper {
      AddAfter(cr, code + 2, code + 3);
    } else {
      EndsLater(cr.points, code + 2, code + 3);
    }
  }

  /** unicode_case1: the characters that the conversions of the mask can change. */
  method UnicodeCase1(t: Tables, cr: CharRange, mask: set<Conv>)
    requires t.WellFormed() && cr.points == []
    modifies cr
    ensures Ordered(cr.points)
    ensures forall x: int :: In(cr.points, x) <==> Marked(t, x, mask)
  {
    assert EndsBy(cr.points, t.Code(0)) && forall x: int, k: nat :: !Covers([], k, x);
    if mask == {} {
      return;
    }
    assert forall x: int :: !In(cr.points, x);
    hide In, MarkedBy;
    for i := 0 to |t.runs|
      invariant i < |t.runs| ==> EndsBy(cr.points, t.Code(i))
      invariant Ordered(cr.points)
      invariant forall x: int :: In(cr.points, x) <==> exists k: nat | k < i :: MarkedBy(t, k, x, mask)
    {
      ghost var s := cr.points;
      AddRun(t, cr, i, mask);
      if i + 1 < |t.runs| {
        assert t.Before(i, i + 1);
        EndsLater(cr.points, t.Code(i) + t.Len(i), t.Code(i + 1));
      }
      forall x: int ensures In(cr.points, x) <==> exists k: nat | k < i + 1 :: MarkedBy(t, k, x, mask) {
        assert In(s, x) <==> exists k: nat | k < i :: MarkedBy(t, k, x, mask);
      }
    }
    forall x: int ensures In(cr.points, x) <==> Marked(t, x, mask) {
      InRuns(t, x, mask);
    }
  }

  lemma InRuns(t: Tables, x: int, mask: set<Conv>)
    requires t.WellFormed()
    ensures Marked(t, x, mask) <==> exists k: nat | k < |t.runs| :: MarkedBy(t, k, x, mask)
  {
    assert forall k: nat | MarkedBy(t, k, x, mask) :: k < |t.runs|;
  }

  // ----- the image of a set -----

  /** d is the canonical form of a character of s below `bound`. */
  ghost predicate Image(t: Tables, s: seq<int>, bound: int, isUnicode: bool, d: int)
    requires t.WellFormed()
  {
    exists c: nat :: In(s, c) && c < bound && Canonical(t, c, isUnicode) == d
  }

  /** d was collected: it is in the list or in the interval that is being extended. */
  ghost predicate Held(s: seq<int>, dStart: Point, dEnd: Point, d: int) {
    In(s, d) || (dStart != UINT32_MAX && dStart <= d < dEnd)
  }

  ghost predicate Intervals(s: seq<Point>) {
    |s| % 2 == 0 && forall k | 0 <= k < |s| / 2 :: s[2 * k] < s[2 * k + 1]
  }

  lemma IntervalsAreProper(s: seq<Point>)
    requires Intervals(s)
    ensures Proper(Pairs(s)) && Forward(Pairs(s))
  {
    forall p | p in Pairs(s) ensures p.0 < p.1 {
      var k :| 0 <= k < |s| / 2 && Pairs(s)[k] == p;
    }
  }

  /** Try to merge d with the current interval, or start a new one. */
  method Collect(r: CharRange, dStart: Point, dEnd: Point, d: Point) returns (dStart': Point, dEnd': Point)
    requires Intervals(r.points) && d < UINT32_MAX && (dStart != UINT32_MAX ==> dStart < dEnd)
    modifies r
    ensures Intervals(r.points) && dStart' < dEnd' && dStart' != UINT32_MAX
    ensures forall x: int :: Held(r.points, dStart', dEnd', x) <==> Held(old(r.points), dStart, dEnd, x) || x == d
  {
    if dStart != UINT32_MAX && dEnd == d {
      dStart', dEnd' := dStart, dEnd + 1;
    } else {
      if dStart != UINT32_MAX {
        Flush(r, dStart, dEnd);
      }
      dStart', dEnd' := d, d + 1;
    }
  }

  method Flush(r: CharRange, dStart: Point, dEnd: Point)
    requires Intervals(r.points) && dStart < dEnd
    modifies r
    ensures Intervals(r.points)
    ensures forall x: int :: In(r.points, x) <==> In(old(r.points), x) || dStart <= x < dEnd
  {
    forall x: int ensures In(r.points + [dStart, dEnd], x) <==> In(r.points, x) || dStart <= x < dEnd {
      InPush(r.points, dStart, dEnd, x);
    }
    r.AddInterval(dStart, dEnd);
  }

  /** The runs before run i are over at c. */
  ghost predicate Passed(t: Tables, i: nat, c: int) {
    i < |t.runs| && forall k: nat | k < i :: t.Code(k) + t.Len(k) <= c
  }

  /** Advance through the table to the run of c, which the mask guarantees. */
  method NextRun(t: Tables, i0: nat, c: nat) returns (i: nat)
    requires t.WellFormed() && Passed(t, i0, c) && exists k: nat :: t.Has(k, c)
    ensures Passed(t, i, c) && t.Has(i, c)
  {
    ghost var k: nat :| t.Has(k, c);
    i := i0;
    while !t.Has(i, c)
      invariant i <= k && Passed(t, i, c)
      decreases k - i
    {
      assert t.Before(i, k);
      i := i + 1;
    }
  }

  /** Between two intervals of an ordered list there is nothing. */
  lemma NothingBetween(s: seq<int>, k: nat, x: int)
    requires Ordered(s) && 2 * k <= |s| && (2 * k < |s| ==> x < s[2 * k]) && (k > 0 ==> s[2 * k - 1] <= x)
    ensures !In(s, x)
  {
    forall h: nat ensures !Covers(s, h, x) {
      if 2 * h + 1 < |s| {
        assert if h < k then s[2 * h + 1] <= s[2 * k - 1] else s[2 * k] <= s[2 * h];
      }
    }
  }

  lemma ImageStep(t: Tables, s: seq<int>, c: nat, isUnicode: bool, d: int)
    requires t.WellFormed() && In(s, c)
    ensures Image(t, s, c + 1, isUnicode, d) <==> Image(t, s, c, isUnicode, d) || d == Canonical(t, c, isUnicode)
  {
  }

  lemma ImageSkip(t: Tables, s: seq<int>, b: int, c: int, isUnicode: bool, d: int)
    requires t.WellFormed() && b <= c && forall x: int | b <= x < c :: !In(s, x)
    ensures Image(t, s, b, isUnicode, d) <==> Image(t, s, c, isUnicode, d)
  {
  }

  /** Where the scan of the set stands: the images of its characters below `bound` are collected. */
  ghost predicate Folded(t: Tables, s: seq<int>, bound: int, isUnicode: bool, r: seq<int>, dStart: Point, dEnd: Point)
    requires t.WellFormed()
  {
    forall d: int :: Held(r, dStart, dEnd, d) <==> Image(t, s, bound, isUnicode, d)
  }

  /** The inner loops: one interval of the set. */
  method FoldInterval(t: Tables, s: seq<Point>, i: nat, isUnicode: bool, r: CharRange, dStart0: Point, dEnd0: Point,
                      idx0: nat)
      returns (dStart: Point, dEnd: Point, idx: nat)
    requires t.WellFormed() && AgreesWithAscii(t) && Ordered(s) && i % 2 == 0 && i + 1 < |s|
    requires Intervals(r.points) && (dStart0 != UINT32_MAX ==> dStart0 < dEnd0)
    requires Folded(t, s, s[i], isUnicode, r.points, dStart0, dEnd0) && Passed(t, idx0, s[i])
    requires forall x: nat | In(s, x) :: exists k: nat :: t.Has(k, x)
    modifies r
    ensures Intervals(r.points) && (dStart != UINT32_MAX ==> dStart < dEnd)
    ensures Folded(t, s, s[i + 1], isUnicode, r.points, dStart, dEnd) && Passed(t, idx, s[i + 1])
  {
    dStart, dEnd, idx := dStart0, dEnd0, idx0;
    var start, end := s[i], s[i + 1];
    var c := start;
    ghost var k := i / 2;
    assert 2 * k == i;
    while c < end
      invariant start <= c <= end && Intervals(r.points) && (dStart != UINT32_MAX ==> dStart < dEnd)
      invariant Folded(t, s, c, isUnicode, r.points, dStart, dEnd) && Passed(t, idx, c)
    {
      assert In(s, c) by { assert Covers(s, k, c); }
      idx := NextRun(t, idx, c);
      FoldEntryIsCanonical(t, c, idx, isUnicode);
      var d := FoldEntry(t, c, idx, isUnicode);
      hide Canonical, FoldEntry, In, Held, Tables.WellFormed, AgreesWithAscii;
      ghost var before, ds, de := r.points, dStart, dEnd;
      dStart, dEnd := Collect(r, dStart, dEnd, d);
      forall x: int ensures Held(r.points, dStart, dEnd, x) <==> Image(t, s, c + 1, isUnicode, x) {
        ImageStep(t, s, c, isUnicode, x);
        assert Held(before, ds, de, x) <==> Image(t, s, c, isUnicode, x);
      }
      c := c + 1;
    }
  }

  /** The scan: the images of all characters of s, as intervals in any order. */
  method FoldAll(t: Tables, s: seq<Point>, isUnicode: bool) returns (r: CharRange)
    requires t.WellFormed() && AgreesWithAscii(t) && Ordered(s)
    requires forall x: nat | In(s, x) :: exists k: nat :: t.Has(k, x)
    ensures fresh(r) && Intervals(r.points)
    ensures forall d: int :: In(r.points, d) <==> Image(t, s, UINT32_MAX, isUnicode, d)
  {
    r := new CharRange();
    var dStart: Point, dEnd: Point := UINT32_MAX, UINT32_MAX;
    var idx, i: nat := 0, 0;
    ghost var bound: int := 0;
    assert Folded(t, s, 0, isUnicode, r.points, dStart, dEnd) by {
      assert forall k: nat, x: int :: !Covers([], k, x);
    }
    hide Folded, Canonical;
    while i < |s|
      invariant 0 <= i <= |s| && i % 2 == 0 && bound == (if i == 0 then 0 else s[i - 1])
      invariant Intervals(r.points) && (dStart != UINT32_MAX ==> dStart < dEnd)
      invariant Folded(t, s, bound, isUnicode, r.points, dStart, dEnd) && Passed(t, idx, bound)
    {
      FoldedSkip(t, s, i, bound, s[i], isUnicode, r.points, dStart, dEnd);
      dStart, dEnd, idx := FoldInterval(t, s, i, isUnicode, r, dStart, dEnd, idx);
      bound := s[i + 1];
      i := i + 2;
    }
    FoldedSkip(t, s, i, bound, UINT32_MAX, isUnicode, r.points, dStart, dEnd);
    FoldedMeaning(t, s, UINT32_MAX, isUnicode, r.points, dStart, dEnd);
    if dStart != UINT32_MAX {
      Flush(r, dStart, dEnd);
    }
  }

  lemma FoldedMeaning(t: Tables, s: seq<int>, b: int, isUnicode: bool, r: seq<int>, dStart: Point, dEnd: Point)
    requires t.WellFormed() && Folded(t, s, b, isUnicode, r, dStart, dEnd)
    ensures forall d: int ::
      In(r, d) || (dStart != UINT32_MAX && dStart <= d < dEnd) <==> Image(t, s, b, isUnicode, d)
  {
    forall d: int ensures In(r, d) || (dStart != UINT32_MAX && dStart <= d < dEnd) <==> Image(t, s, b, isUnicode, d) {
      assert Held(r, dStart, dEnd, d) <==> Image(t, s, b, isUnicode, d);
    }
  }

  lemma FoldedSkip(t: Tables, s: seq<Point>, i: nat, b: int, c: int, isUnicode: bool, r: seq<int>, dStart: Point, dEnd: Point)
    requires t.WellFormed() && Ordered(s) && i <= |s| && i % 2 == 0
    requires b == (if i == 0 then 0 else s[i - 1]) && c == (if i < |s| then s[i] else UINT32_MAX)
    requires Folded(t, s, b, isUnicode, r, dStart, dEnd)
    ensures Folded(t, s, c, isUnicode, r, dStart, dEnd)
  {
    hide Held;
    forall x: int | b <= x < c ensures !In(s, x) {
      assert 2 * (i / 2) == i;
      NothingBetween(s, i / 2, x);
    }
    forall d: int ensures Held(r, dStart, dEnd, d) <==> Image(t, s, c, isUnicode, d) {
      ImageSkip(t, s, b, c, isUnicode, d);
      assert Held(r, dStart, dEnd, d) <==> Image(t, s, b, isUnicode, d);
    }
  }

  /** cr_regexp_canonicalize: the set of the canonical forms of the characters of the set. */
  method RegexpCanonicalize(t: Tables, cr: CharRange, isUnicode: bool)
    requires t.WellFormed() && AgreesWithAscii(t) && Ordered(cr.points)
    modifies cr
    ensures Normal(cr.points)
    ensures forall d: int ::
      In(cr.points, d) <==> exists c: nat :: In(old(cr.points), c) && Canonical(t, c, isUnicode) == d
  {
    hide Canonical, In, Marked;
    ghost var s := cr.points;
    var crMask := new CharRange();
    var crInter := new CharRange();
    var crSub := new CharRange();
    ghost var mask := {if isUnicode then Fold else Upper};
    UnicodeCase1(t, crMask, {if isUnicode then Fold else Upper});
    crInter.Op(crMask.points, cr.points, Inter);
    crMask.Invert();
    crSub.Op(crMask.points, cr.points, Inter);
    ghost var inter, sub := crInter.points, crSub.points;
    assert forall x: int :: In(inter, x) <==> Marked(t, x, mask) && In(s, x);
    assert forall x: int :: In(sub, x) <==> !Marked(t, x, mask) && In(s, x) by {
      forall x: int | In(s, x) ensures 0 <= x < UINT32_MAX { NotInside(s, x); }
    }
    forall x: nat | In(inter, x) ensures exists k: nat :: t.Has(k, x) {
      MarkedHasRun(t, x, mask);
    }
    var crResult := FoldAll(t, crInter.points, isUnicode);
    ghost var images := crResult.points;
    IntervalsAreProper(crResult.points);
    crResult.SortAndRemoveOverlap();
    cr.points := [];
    cr.Op(crResult.points, crSub.points, Union);
    forall d: int ensures In(cr.points, d) <==> exists c: nat :: In(s, c) && Canonical(t, c, isUnicode) == d {
      assert In(cr.points, d) <==> In(images, d) || In(sub, d);
      ImageOfParts(t, s, inter, sub, isUnicode, d);
    }
  }

  lemma MarkedHasRun(t: Tables, x: nat, mask: set<Conv>)
    requires t.WellFormed() && Marked(t, x, mask)
    ensures exists k: nat :: t.Has(k, x)
  {
    var k: nat :| MarkedBy(t, k, x, mask);
    assert t.Has(k, x);
  }

  /** The image of a set is the image of its marked characters and its other characters themselves. */
  lemma ImageOfParts(t: Tables, s: seq<Point>, inter: seq<Point>, sub: seq<Point>, isUnicode: bool, d: int)
    requires t.WellFormed() && AgreesWithAscii(t)
    requires forall x: int :: In(inter, x) <==> Marked(t, x, {if isUnicode then Fold else Upper}) && In(s, x)
    requires forall x: int :: In(sub, x) <==> !Marked(t, x, {if isUnicode then Fold else Upper}) && In(s, x)
    ensures (exists c: nat :: In(s, c) && Canonical(t, c, isUnicode) == d)
       <==> Image(t, inter, UINT32_MAX, isUnicode, d) || In(sub, d)
  {
    hide In, Marked, Canonical;
    var mask := {if isUnicode then Fold else Upper};
    if exists c: nat :: In(s, c) && Canonical(t, c, isUnicode) == d {
      var c: nat :| In(s, c) && Canonical(t, c, isUnicode) == d;
      NotInside(s, c);
      if Marked(t, c, mask) {
        assert In(inter, c);
      } else {
        UnmarkedIsCanonical(t, c, isUnicode);
      }
    }
    if In(sub, d) {
      NotInside(sub, d);
      UnmarkedIsCanonical(t, d, isUnicode);
    }
  }
}

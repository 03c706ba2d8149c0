/**
 What the case conversion table says of each character: the fields of a run, the conversions of the characters of each
 type of run, and their canonical forms for regular expressions.
 */
module CaseForms {
  import opened CaseFolding

  // ----- the fields of a run -----

  /** A run as it is packed: 17 bits of code, 7 of length, 4 of type, and 12 of data in two tables. */
  predicate Packed(t: Tables, i: nat, code: nat, len: nat, ty: nat, data: nat) {
    && i < |t.runs| && i < |t.low| && code < 0x2_0000 && len < 0x80 && ty < 0x10 && data < 0x1000
    && t.runs[i] == code * 0x8000 + len * 0x100 + ty * 0x10 + data / 0x100 && t.low[i] == data % 0x100
  }

  lemma PackedRun(t: Tables, i: nat, code: nat, len: nat, ty: nat, data: nat)
    requires Packed(t, i, code, len, ty, data)
    ensures t.Code(i) == code && t.Len(i) == len && t.TypeNumber(i) == ty && t.Data(i) == data
    ensures ty == 0 ==> t.Type(i) == U
    ensures ty == 1 ==> t.Type(i) == L
    ensures ty == 2 ==> t.Type(i) == UF
    ensures ty == 3 ==> t.Type(i) == LF
    ensures ty == 4 ==> t.Type(i) == UL
    ensures ty == 5 ==> t.Type(i) == LSU
    ensures ty == 6 ==> t.Type(i) == U2L399
    ensures ty == 7 ==> t.Type(i) == UFD20
    ensures ty == 8 ==> t.Type(i) == UFD1
    ensures ty == 9 ==> t.Type(i) == UExt
    ensures ty == 10 ==> t.Type(i) == LFExt
    ensures ty == 11 ==> t.Type(i) == UFExt2
    ensures ty == 12 ==> t.Type(i) == LFExt2
    ensures ty >= 13 ==> t.Type(i) == UFExt3
  {
    var w: int := t.runs[i];
    assert w / 0x100 == code * 0x80 + len && w / 0x10 == (code * 0x80 + len) * 0x10 + ty;
    assert w % 0x10 == data / 0x100;
  }

  // ----- ASCII -----

  const CAPITALS := "ABCDEFGHIJKLMNOPQRSTUVWXYZ"
  const SMALL := "abcdefghijklmnopqrstuvwxyz"

  /** The conversions of c, and its canonical forms: its upper case in legacy mode, its folding in Unicode mode. */
  predicate Converts(t: Tables, c: nat, upper: nat, lower: nat, fold: nat, legacy: nat)
    requires t.WellFormed()
  {
    && CaseConv(t, c, Upper) == [upper] && CaseConv(t, c, Lower) == [lower] && CaseConv(t, c, Fold) == [fold]
    && Canonical(t, c, false) == legacy && Canonical(t, c, true) == fold
  }

  lemma LetterAt(k: nat)
    requires k < 26
    ensures CAPITALS[k] as int == 65 + k && SMALL[k] as int == 97 + k
  {
  }

  lemma LetterForms(t: Tables, k: nat)
    requires t.WellFormed() && k < 26
    ensures var capital, small := CAPITALS[k] as int, SMALL[k] as int;
            Converts(t, capital, capital, small, small, capital) && Converts(t, small, capital, small, small, capital)
  {
    LetterAt(k);
    hide CAPITALS, SMALL;
  }

  lemma LetterIs(c: nat)
    requires c < 128
    ensures c as char in CAPITALS <==> 65 <= c <= 90
    ensures c as char in SMALL <==> 97 <= c <= 122
  {
  }

  lemma OtherAscii(t: Tables, c: nat)
    requires t.WellFormed() && c < 128 && c as char !in CAPITALS && c as char !in SMALL
    ensures Converts(t, c, c, c, c, c)
  {
    LetterIs(c);
    hide CAPITALS, SMALL;
  }

  /** A character in no run. */
  lemma NoForms(t: Tables, c: nat)
    requires t.WellFormed() && c >= 128 && forall i: nat :: !t.Has(i, c)
    ensures Converts(t, c, c, c, c, c)
  {
  }

  // ----- the runs -----

  /** In legacy mode, no character becomes one of ASCII. */
  function Legacy(c: nat, d: nat): nat {
    if d >= 128 then d else c
  }

  /** The canonical form in Unicode mode of a character that folds to several: three characters have one, the others none. */
  function Several(c: nat): nat {
    if c == 0xfb06 then 0xfb05 else if c == 0x1fd3 then 0x390 else if c == 0x1fe3 then 0x3b0 else c
  }

  /** The conversions of a character are those of its run. */
  lemma ByRun(t: Tables, i: nat, c: nat)
    requires t.WellFormed() && t.Has(i, c) && c >= 128
    ensures t.RunFits(i) && t.Has(i, c)
    ensures forall conv :: CaseConv(t, c, conv) == ConvEntry(t, c, conv, i)
    ensures var r := ConvEntry(t, c, Upper, i); Canonical(t, c, false) == if |r| == 1 then Legacy(c, r[0]) else c
    ensures var r := ConvEntry(t, c, Fold, i); Canonical(t, c, true) == if |r| == 1 then r[0] else Several(c)
  {
    hide ConvEntry;
    OneRun(t, c, i);
  }

  /** Runs that are moved onto the run that their data names, in order. */
  lemma MovedForms(t: Tables, i: nat, k: nat)
    requires t.WellFormed() && i < |t.runs| && k < t.Len(i) && t.Code(i) + k >= 128
    ensures t.Data(i) < |t.runs| || t.Type(i) !in {U, L, UF, LF}
    ensures var c := t.Code(i) + k;
            t.Type(i) in {U, L, UF, LF} ==>
              var d := t.Code(t.Data(i)) + k;
              && (t.Type(i) == U ==> Converts(t, c, d, c, c, Legacy(c, d)))
              && (t.Type(i) == L ==> Converts(t, c, c, d, c, c))
              && (t.Type(i) == UF ==> Converts(t, c, d, c, d, Legacy(c, d)))
              && (t.Type(i) == LF ==> Converts(t, c, c, d, d, c))
  {
    hide CaseConv, Canonical;
    ByRun(t, i, t.Code(i) + k);
  }

  /** Alternating runs: capital and small letters in turn. */
  lemma AlternatingForms(t: Tables, i: nat, k: nat)
    requires t.WellFormed() && i < |t.runs| && t.Type(i) == UL && 2 * k < t.Len(i) && t.Code(i) + 2 * k >= 128
    ensures 2 * k + 1 < t.Len(i)
    ensures var capital, small := t.Code(i) + 2 * k, t.Code(i) + 2 * k + 1;
            Converts(t, capital, capital, small, small, capital) && Converts(t, small, capital, small, small, capital)
  {
    hide CaseConv, Canonical;
    ByRun(t, i, t.Code(i) + 2 * k);
    ByRun(t, i, t.Code(i) + 2 * k + 1);
  }

  /** Triples: the capital letter, the title case letter and the small letter. */
  lemma TripleForms(t: Tables, i: nat)
    requires t.WellFormed() && i < |t.runs| && t.Type(i) == LSU && t.Code(i) >= 128
    ensures t.Len(i) >= 3
    ensures var capital, title, small := t.Code(i), t.Code(i) + 1, t.Code(i) + 2;
            && Converts(t, capital, capital, small, small, capital) && Converts(t, title, capital, small, small, capital)
            && Converts(t, small, capital, small, small, capital)
  {
    hide CaseConv, Canonical;
    assert t.RunFits(i);
    ByRun(t, i, t.Code(i));
    ByRun(t, i, t.Code(i) + 1);
    ByRun(t, i, t.Code(i) + 2);
  }

  lemma AfterTriple(t: Tables, i: nat, c: nat)
    requires t.WellFormed() && t.Has(i, c) && t.Type(i) == LSU && c >= 128 && c >= t.Code(i) + 3
    ensures Converts(t, c, c, c, c, c)
  {
    hide CaseConv, Canonical;
    ByRun(t, i, c);
  }

  /** Runs whose data is a character, or the place of one in the table of extensions. */
  lemma NamedForms(t: Tables, i: nat, c: nat)
    requires t.WellFormed() && t.Has(i, c) && c >= 128
    ensures t.Type(i) in {UFD1, UExt, LFExt} ==> t.Data(i) < |t.ext|
    ensures var data := t.Data(i);
            && (t.Type(i) == UFD20 ==> Converts(t, c, data, c, data + 0x20, Legacy(c, data)))
            && (t.Type(i) == UFD1 ==> var d: nat := t.ext[data]; Converts(t, c, d, c, d + 1, Legacy(c, d)))
            && (t.Type(i) == UExt ==> var d: nat := t.ext[data]; Converts(t, c, d, c, c, Legacy(c, d)))
            && (t.Type(i) == LFExt ==> var d: nat := t.ext[data]; Converts(t, c, c, d, d, c))
  {
    hide CaseConv, Canonical;
    ByRun(t, i, c);
  }

  /** Greek letters with an iota: two characters in upper case, one in lower case. */
  lemma IotaForms(t: Tables, i: nat, k: nat)
    requires t.WellFormed() && i < |t.runs| && t.Type(i) == U2L399 && k < t.Len(i) && t.Code(i) + k >= 128
    ensures t.Data(i) / 64 < |t.ext| && t.Data(i) % 64 < |t.ext|
    ensures var c, capital, small := t.Code(i) + k, t.ext[t.Data(i) / 64] as int + k, t.ext[t.Data(i) % 64] as int + k;
            && CaseConv(t, c, Upper) == [capital, 0x399] && CaseConv(t, c, Lower) == [small] && CaseConv(t, c, Fold) == [small]
            && Canonical(t, c, false) == c && Canonical(t, c, true) == small
  {
    hide CaseConv, Canonical;
    ByRun(t, i, t.Code(i) + k);
  }

  /** One character becomes two in lower case. */
  lemma TwoLowerForms(t: Tables, i: nat, k: nat)
    requires t.WellFormed() && i < |t.runs| && t.Type(i) == LFExt2 && k < t.Len(i) && t.Code(i) + k >= 128
    ensures t.Data(i) / 64 < |t.ext| && t.Data(i) % 64 < |t.ext|
    ensures var c, d := t.Code(i) + k, [t.ext[t.Data(i) / 64] as int + k, t.ext[t.Data(i) % 64] as int];
            && CaseConv(t, c, Upper) == [c] && CaseConv(t, c, Lower) == d && CaseConv(t, c, Fold) == d
            && Canonical(t, c, false) == c && Canonical(t, c, true) == Several(c)
  {
    hide CaseConv, Canonical;
    ByRun(t, i, t.Code(i) + k);
  }

  /** The small letters of an expansion, one by one. */
  ghost predicate SmallLetters(t: Tables, r: seq<nat>, s: seq<nat>)
    requires t.WellFormed()
  {
    |s| == |r| && forall j | 0 <= j < |r| :: s[j] == CaseConv(t, r[j], Lower)[0]
  }

  /** One character becomes two in upper case, and their small letters in folding. */
  lemma TwoUpperForms(t: Tables, i: nat, k: nat)
    requires t.WellFormed() && i < |t.runs| && t.Type(i) == UFExt2 && k < t.Len(i) && t.Code(i) + k >= 128
    ensures t.Data(i) / 64 < |t.ext| && t.Data(i) % 64 < |t.ext|
    ensures var c, d := t.Code(i) + k, [t.ext[t.Data(i) / 64] as int + k, t.ext[t.Data(i) % 64] as int];
            && CaseConv(t, c, Upper) == d && CaseConv(t, c, Lower) == [c] && SmallLetters(t, d, CaseConv(t, c, Fold))
            && Canonical(t, c, false) == c && Canonical(t, c, true) == Several(c)
  {
    hide CaseConv, Canonical;
    ByRun(t, i, t.Code(i) + k);
  }

  /** One character becomes three in upper case, and their small letters in folding. */
  lemma ThreeUpperForms(t: Tables, i: nat, c: nat)
    requires t.WellFormed() && t.Has(i, c) && t.Type(i) == UFExt3 && c >= 128
    ensures t.Data(i) / 256 < |t.ext| && t.Data(i) / 16 % 16 < |t.ext| && t.Data(i) % 16 < |t.ext|
    ensures var d := [t.ext[t.Data(i) / 256] as int, t.ext[t.Data(i) / 16 % 16] as int, t.ext[t.Data(i) % 16] as int];
            && CaseConv(t, c, Upper) == d && CaseConv(t, c, Lower) == [c] && SmallLetters(t, d, CaseConv(t, c, Fold))
            && Canonical(t, c, false) == c && Canonical(t, c, true) == Several(c)
  {
    hide CaseConv, Canonical;
    ByRun(t, i, c);
  }

  // ----- the characters that can change -----

  /** A character in a run of a type, which a conversion changes. */
  ghost predicate Changes(t: Tables, i: nat, c: nat, conv: Conv, ty: RunType) {
    t.WellFormed() && t.Has(i, c) && t.Type(i) == ty && ConvEntry(t, c, conv, i) != [c]
  }

  /** Two runs, the first of any type. */
  function Sample(ty: nat): Tables
    requires ty < 14
  {
    var len := if ty == 4 then 2 else if ty == 5 then 3 else 1;
    Tables([0x100 * 0x8000 + len * 0x100 + ty * 0x10, 0x200 * 0x8000 + 0x100], [if ty < 4 then 1 else 0, 0], [0x300])
  }

  lemma SampleRuns(ty: nat)
    requires ty < 14
    ensures var t, len := Sample(ty), if ty == 4 then 2 else if ty == 5 then 3 else 1;
            Packed(t, 0, 0x100, len, ty, if ty < 4 then 1 else 0) && Packed(t, 1, 0x200, 1, 0, 0)
  {
  }

  lemma SampleIsWellFormed(ty: nat)
    requires ty < 14
    ensures Sample(ty).WellFormed()
  {
    hide Packed;
    var t, len := Sample(ty), if ty == 4 then 2 else if ty == 5 then 3 else 1;
    SampleRuns(ty);
    PackedRun(t, 0, 0x100, len, ty, if ty < 4 then 1 else 0);
    PackedRun(t, 1, 0x200, 1, 0, 0);
    hide Tables.Code, Tables.Len, Tables.TypeNumber, Tables.Type, Tables.Data;
    assert t.RunFits(0) && t.RunFits(1);
    assert t.Before(0, 1);
  }

  /** The character of the sample that changes. */
  lemma SampleChanges(conv: Conv, ty: nat) returns (c: nat)
    requires ty < 14 && InMask(conv, Numbered(ty))
    ensures Changes(Sample(ty), 0, c, conv, Numbered(ty))
  {
    hide Packed, Tables.WellFormed;
    var t, len := Sample(ty), if ty == 4 then 2 else if ty == 5 then 3 else 1;
    SampleRuns(ty);
    SampleIsWellFormed(ty);
    PackedRun(t, 0, 0x100, len, ty, if ty < 4 then 1 else 0);
    PackedRun(t, 1, 0x200, 1, 0, 0);
    hide Tables.Code, Tables.Len, Tables.TypeNumber, Tables.Type, Tables.Data;
    c := if (ty == 4 || ty == 5) && conv.Upper? then 0x101 else 0x100;
    assert t.Has(0, c) && t.ext[0] == 0x300;
  }

  /** The types in the order of their numbers. */
  function Numbered(ty: nat): RunType
    requires ty < 14
  {
    if ty == 0 then U else if ty == 1 then L else if ty == 2 then UF else if ty == 3 then LF else if ty == 4 then UL
    else if ty == 5 then LSU else if ty == 6 then U2L399 else if ty == 7 then UFD20 else if ty == 8 then UFD1
    else if ty == 9 then UExt else if ty == 10 then LFExt else if ty == 11 then UFExt2 else if ty == 12 then LFExt2 else UFExt3
  }

  lemma TypeHasNumber(ty: RunType) returns (n: nat)
    ensures n < 14 && Numbered(n) == ty
  {
    match ty {
      case U => n := 0;
      case L => n := 1;
      case UF => n := 2;
      case LF => n := 3;
      case UL => n := 4;
      case LSU => n := 5;
      case U2L399 => n := 6;
      case UFD20 => n := 7;
      case UFD1 => n := 8;
      case UExt => n := 9;
      case LFExt => n := 10;
      case UFExt2 => n := 11;
      case LFExt2 => n := 12;
      case UFExt3 => n := 13;
    }
  }

  /** The mask of a conversion selects exactly the types of runs in which it can change a character. */
  lemma MaskExactly(conv: Conv, ty: RunType)
    ensures InMask(conv, ty) <==> exists t: Tables, i: nat, c: nat :: Changes(t, i, c, conv, ty)
  {
    hide InMask, ConvEntry, Sample;
    if InMask(conv, ty) {
      var n := TypeHasNumber(ty);
      var c := SampleChanges(conv, n);
    }
    forall t: Tables, i: nat, c: nat | Changes(t, i, c, conv, ty) ensures InMask(conv, ty) {
      if !InMask(conv, ty) {
        MaskCovers(t, c, conv, i);
      }
    }
  }

  /** Of alternating runs and of triples, exactly the characters that change are selected. */
  lemma HalvesExactly(t: Tables, i: nat, c: nat, conv: Conv)
    requires t.WellFormed() && t.Has(i, c) && t.Type(i) in {UL, LSU}
    ensures MarkedBy(t, i, c, {conv}) <==> ConvEntry(t, c, conv, i) != [c]
  {
    assert conv in {conv} && InMask(conv, t.Type(i));
    assert t.RunFits(i);
  }
}

/**
 How the tables of character properties are built: the runs of a property, packed into bytes, and an index of about every 32
 bytes. A character is looked up in them as having the property or not.
 */
module RunLengthBuilding {
  import opened Bytes
  import opened RunLengthTables

  const CHARCODE_MAX := 0x10_ffff

  // ----- the runs of a property -----

  /** Where the run that begins at i, and has got to j, ends. */
  function RunEnd(prop: int -> bool, i: nat, j: nat): (e: nat)
    requires i < j <= CHARCODE_MAX + 1
    ensures j <= e <= CHARCODE_MAX + 1
    ensures forall k | j <= k < e :: prop(k) == prop(i)
    ensures e <= CHARCODE_MAX ==> prop(e) != prop(i)
    decreases CHARCODE_MAX + 1 - j
  {
    if j <= CHARCODE_MAX && prop(j) == prop(i) then RunEnd(prop, i, j + 1) else j
  }

  /** The lengths of the runs from i on, less 1; a last run without the property is left out. */
  function Runs(prop: int -> bool, i: nat): (runs: seq<nat>)
    requires i <= CHARCODE_MAX + 1
    ensures AllFit(runs)
    decreases CHARCODE_MAX + 1 - i
  {
    if i > CHARCODE_MAX then []
    else
      var j := RunEnd(prop, i, i + 1);
      if j == CHARCODE_MAX + 1 && !prop(i) then [] else [j - i - 1] + Runs(prop, j)
  }

  predicate AllFit(runs: seq<nat>) {
    forall i | 0 <= i < |runs| :: runs[i] < 0x20_0000
  }

  /** Whether c is in a run that counts: every other one does. */
  predicate InRuns(runs: seq<nat>, code: nat, bit: bool, c: int) {
    if runs == [] then false else if c < code + runs[0] + 1 then bit else InRuns(runs[1..], code + runs[0] + 1, !bit, c)
  }

  /** The character behind all runs. */
  function RunsEnd(runs: seq<nat>, code: nat): (e: nat)
    ensures e >= code
  {
    if runs == [] then code else RunsEnd(runs[1..], code + runs[0] + 1)
  }

  lemma {:induction false} RunsOfProperty(prop: int -> bool, i: nat, c: nat)
    requires i <= c && i <= CHARCODE_MAX
    ensures InRuns(Runs(prop, i), i, prop(i), c) <==> c <= CHARCODE_MAX && prop(c)
    decreases CHARCODE_MAX + 1 - i
  {
    var j, runs := RunEnd(prop, i, i + 1), Runs(prop, i);
    if runs != [] {
      assert runs[1..] == Runs(prop, j);
      if c >= j && j <= CHARCODE_MAX {
        RunsOfProperty(prop, j, c);
      }
    }
  }

  lemma {:induction false} RunsStayBelow(prop: int -> bool, i: nat)
    requires i <= CHARCODE_MAX + 1
    ensures RunsEnd(Runs(prop, i), i) <= CHARCODE_MAX + 1
    decreases CHARCODE_MAX + 1 - i
  {
    var runs := Runs(prop, i);
    if runs != [] {
      var j := RunEnd(prop, i, i + 1);
      assert runs[1..] == Runs(prop, j);
      RunsStayBelow(prop, j);
    }
  }

  // ----- the bytes -----

  /** Two runs of at most 8 characters are packed into one byte. */
  predicate Packs(runs: seq<nat>) {
    |runs| > 1 && runs[0] < 8 && runs[1] < 8
  }

  /** One run: seven bits in a byte, or thirteen in two, or twenty-one in three. */
  function RunBytes(v: nat): (s: seq<byte>)
    requires v < 0x20_0000
    ensures 1 <= |s| <= 3
  {
    if v < 0x80 then [0x80 + v] else if v < 0x2000 then [0x40 + v / 0x100, v % 0x100]
    else [0x60 + v / 0x1_0000, v / 0x100 % 0x100, v % 0x100]
  }

  function CodeBytes(runs: seq<nat>): (s: seq<byte>)
    requires runs != [] && AllFit(runs)
    ensures 1 <= |s| <= 3
  {
    if Packs(runs) then [runs[0] * 8 + runs[1]] else RunBytes(runs[0])
  }

  /** The runs behind the first code. */
  function Left(runs: seq<nat>): seq<nat>
    requires runs != []
  {
    if Packs(runs) then runs[2..] else runs[1..]
  }

  function TableBytes(runs: seq<nat>): seq<byte>
    requires AllFit(runs)
    decreases |runs|
  {
    if runs == [] then [] else CodeBytes(runs) + TableBytes(Left(runs))
  }

  /** The decoder stands before the bytes of the runs that are left. */
  ghost predicate Before(table: seq<byte>, d: Decoder, runs: seq<nat>) {
    AllFit(runs) && d.pos <= |table| && table[d.pos..] == TableBytes(runs)
  }

  /** Behind the next code. */
  function Behind(runs: seq<nat>, d: Decoder): Decoder
    requires runs != [] && AllFit(runs)
  {
    var pos := d.pos + |CodeBytes(runs)|;
    if Packs(runs) then Decoder(pos, d.code + runs[0] + 1 + runs[1] + 1, d.bit) else Decoder(pos, d.code + runs[0] + 1, !d.bit)
  }

  /** What is read of the next code. */
  lemma CodeIsRead(table: seq<byte>, d: Decoder, runs: seq<nat>)
    requires Before(table, d, runs) && runs != []
    ensures d.pos < |table| && d.pos + Width(table[d.pos]) <= |table|
    ensures RunLength(table, d.pos) == runs[0] + 1 && (IsPair(table[d.pos]) <==> Packs(runs))
    ensures Packs(runs) ==> SecondLength(table[d.pos]) == runs[1] + 1
    ensures Width(table[d.pos]) == Behind(runs, d).pos - d.pos && Before(table, Behind(runs, d), Left(runs))
  {
    hide Packs, CodeBytes, RunLength, Width, IsPair, SecondLength, Left;
    var code, rest := CodeBytes(runs), table[d.pos..];
    LeftFits(runs);
    assert rest == code + TableBytes(Left(runs));
    assert table[d.pos + |code|..] == rest[|code|..] == TableBytes(Left(runs));
    assert table[d.pos..d.pos + |code|] == rest[..|code|] == code;
    BytesAreRead(table, d.pos, runs);
  }

  lemma LeftFits(runs: seq<nat>)
    requires runs != [] && AllFit(runs)
    ensures AllFit(Left(runs)) && |Left(runs)| < |runs|
  {
  }

  lemma BytesAreRead(table: seq<byte>, pos: nat, runs: seq<nat>)
    requires runs != [] && AllFit(runs) && pos + |CodeBytes(runs)| <= |table|
    requires table[pos..pos + |CodeBytes(runs)|] == CodeBytes(runs)
    ensures Width(table[pos]) == |CodeBytes(runs)| && RunLength(table, pos) == runs[0] + 1 && (IsPair(table[pos]) <==> Packs(runs))
    ensures Packs(runs) ==> SecondLength(table[pos]) == runs[1] + 1
  {
    var code := table[pos..pos + |CodeBytes(runs)|];
    assert code[0] == table[pos];
    assert |code| > 1 ==> code[1] == table[pos + 1];
    assert |code| > 2 ==> code[2] == table[pos + 2];
  }

  lemma {:induction false} TableIsWhole(table: seq<byte>, d: Decoder, runs: seq<nat>)
    requires Before(table, d, runs)
    ensures Whole(table, d.pos)
    decreases |runs|
  {
    if runs != [] {
      hide Before, Packs, CodeBytes;
      CodeIsRead(table, d, runs);
      TableIsWhole(table, Behind(runs, d), Left(runs));
    }
  }

  lemma AdvanceIsBehind(table: seq<byte>, d: Decoder, runs: seq<nat>)
    requires Before(table, d, runs) && runs != []
    ensures d.pos < |table| && Whole(table, d.pos) && Advance(table, d) == Behind(runs, d) && Before(table, Behind(runs, d), Left(runs))
    ensures RunLength(table, d.pos) == runs[0] + 1 && |Left(runs)| < |runs| && AllFit(runs) && AllFit(Left(runs))
  {
    hide Before, RunLength, SecondLength, CodeBytes;
    CodeIsRead(table, d, runs);
    TableIsWhole(table, d, runs);
    BeforeFits(table, d, runs);
    LeftFits(runs);
  }

  lemma BeforeFits(table: seq<byte>, d: Decoder, runs: seq<nat>)
    requires Before(table, d, runs)
    ensures AllFit(runs)
  {
  }

  lemma CodesStay(runs: seq<nat>, d: Decoder)
    requires AllFit(runs)
    ensures runs != [] ==> RunsEnd(Left(runs), Behind(runs, d).code) == RunsEnd(runs, d.code)
    ensures d.code <= RunsEnd(runs, d.code)
  {
    if runs != [] && Packs(runs) {
      assert runs[1..][1..] == runs[2..] && runs[1..][0] == runs[1];
    }
  }

  lemma {:induction false} TableHasRuns(table: seq<byte>, d: Decoder, runs: seq<nat>, c: int)
    requires Before(table, d, runs) && Whole(table, d.pos)
    ensures Member(table, d, c) <==> InRuns(runs, d.code, d.bit, c)
    ensures EndCode(table, d) == RunsEnd(runs, d.code)
    decreases |runs|
  {
    hide RunLength, Behind, Left, Packs, InRuns, RunsEnd, Advance, Whole;
    if runs == [] {
      assert d.pos == |table|;
      NoRuns(d.code, d.bit, c);
    } else {
      hide Before;
      AdvanceIsBehind(table, d, runs);
      RunsApart(runs, d, c);
      CodesStay(runs, d);
      TableHasRuns(table, Behind(runs, d), Left(runs), c);
    }
  }

  lemma NoRuns(code: nat, bit: bool, c: int)
    ensures !InRuns([], code, bit, c) && RunsEnd([], code) == code
  {
  }

  /** The one or two runs of a code, and those behind it. */
  lemma RunsApart(runs: seq<nat>, d: Decoder, c: int)
    requires runs != [] && AllFit(runs)
    ensures var e := Behind(runs, d);
            InRuns(runs, d.code, d.bit, c) ==
            if c < d.code + runs[0] + 1 then d.bit else if c < e.code then !d.bit else InRuns(Left(runs), e.code, e.bit, c)
  {
    if Packs(runs) {
      assert runs[1..][0] == runs[1] && runs[1..][1..] == runs[2..];
    }
  }

  // ----- the index -----

  function Le24(v: nat): (s: seq<byte>)
    requires v < 0x100_0000
    ensures |s| == 3
  {
    [v % 0x100, v / 0x100 % 0x100, v / 0x1_0000]
  }

  lemma EntryIsRead(index: seq<byte>, k: nat, v: nat)
    requires v < 0x100_0000 && 3 * k + 3 <= |index| && index[3 * k..3 * k + 3] == Le24(v)
    ensures GetLe24(index, k) == v
  {
    var e := index[3 * k..3 * k + 3];
    assert e[0] == index[3 * k] && e[1] == index[3 * k + 1] && e[2] == index[3 * k + 2];
  }

  /** An entry is made where the bit is clear for the first time behind the end of a block. */
  predicate EntryHere(d: Decoder, block: nat) {
    d.pos >= block && !d.bit
  }

  /** The entries are nowhere more than 7 bytes behind the end of their block. */
  predicate OffsetsFit(runs: seq<nat>, d: Decoder, block: nat)
    requires AllFit(runs)
    decreases |runs|
  {
    runs == [] ||
    (&& (EntryHere(d, block) ==> d.pos - block <= 7)
     && OffsetsFit(Left(runs), Behind(runs, d), if EntryHere(d, block) then block + 32 else block))
  }

  function IndexBytes(runs: seq<nat>, d: Decoder, block: nat): (s: seq<byte>)
    requires AllFit(runs) && OffsetsFit(runs, d, block) && RunsEnd(runs, d.code) < 0x20_0000
    ensures |s| >= 3 && |s| % 3 == 0
    decreases |runs|
  {
    CodesStay(runs, d);
    if runs == [] then Le24(d.code)
    else if EntryHere(d, block) then
      Le24(d.code + (d.pos - block) * 0x20_0000) + IndexBytes(Left(runs), Behind(runs, d), block + 32)
    else IndexBytes(Left(runs), Behind(runs, d), block)
  }

  /** From entry k on: the entries are points that the decoder passes, and the last one is behind all runs. */
  lemma {:induction false} EntriesFit(table: seq<byte>, index: seq<byte>, k: nat, runs: seq<nat>, d: Decoder)
    requires AllFit(runs) && Before(table, d, runs) && OffsetsFit(runs, d, 32 * (k + 1)) && RunsEnd(runs, d.code) < 0x20_0000
    requires Whole(table, 0) && Arrives(table, START, d)
    requires 3 * k <= |index| && index[3 * k..] == IndexBytes(runs, d, 32 * (k + 1))
    ensures var n := |index| / 3;
            && |index| == 3 * n && n > k
            && (forall i: nat | k <= i < n - 1 :: Arrives(table, START, Decoder(BlockPos(index, i), BlockCode(index, i), false)))
            && GetLe24(index, n - 1) == RunsEnd(runs, d.code)
    decreases |runs|
  {
    hide Arrives, Whole, Before, Behind, Left, Packs, BlockPos, BlockCode, GetLe24, EntryHere;
    var block, s := 32 * (k + 1), IndexBytes(runs, d, 32 * (k + 1));
    assert |index| == 3 * k + |s|;
    CodesStay(runs, d);
    if runs == [] {
      assert index[3 * k..3 * k + 3] == s[..3] == Le24(d.code);
      EntryIsRead(index, k, d.code);
    } else {
      AdvanceIsBehind(table, d, runs);
      ArrivesNext(table, START, d);
      if EntryHere(d, block) {
        FirstEntry(index, k, runs, d);
        EntriesFit(table, index, k + 1, Left(runs), Behind(runs, d));
      } else {
        EntriesFit(table, index, k, Left(runs), Behind(runs, d));
      }
    }
  }

  lemma FirstEntry(index: seq<byte>, k: nat, runs: seq<nat>, d: Decoder)
    requires AllFit(runs) && runs != [] && OffsetsFit(runs, d, 32 * (k + 1)) && RunsEnd(runs, d.code) < 0x20_0000
    requires EntryHere(d, 32 * (k + 1)) && 3 * k <= |index| && index[3 * k..] == IndexBytes(runs, d, 32 * (k + 1))
    ensures 3 * k + 3 <= |index| && Decoder(BlockPos(index, k), BlockCode(index, k), false) == d
    ensures RunsEnd(Left(runs), Behind(runs, d).code) < 0x20_0000
    ensures OffsetsFit(Left(runs), Behind(runs, d), 32 * (k + 2))
    ensures index[3 * (k + 1)..] == IndexBytes(Left(runs), Behind(runs, d), 32 * (k + 2))
  {
    CodesStay(runs, d);
    var s, v := IndexBytes(runs, d, 32 * (k + 1)), d.code + (d.pos - 32 * (k + 1)) * 0x20_0000;
    var rest := IndexBytes(Left(runs), Behind(runs, d), 32 * (k + 2));
    assert s == Le24(v) + rest;
    assert index[3 * k..3 * k + 3] == s[..3] == Le24(v);
    EntryIsRead(index, k, v);
    assert index[3 * (k + 1)..] == s[3..] == rest;
  }

  // ----- a property and its table -----

  /** The table of a property, from the first run, which is one without it. */
  function TableOf(prop: int -> bool): seq<byte> {
    TableBytes(Runs(prop, 0))
  }

  predicate Indexable(prop: int -> bool) {
    OffsetsFit(Runs(prop, 0), START, 32)
  }

  function IndexOf(prop: int -> bool): seq<byte>
    requires Indexable(prop)
  {
    RunsStayBelow(prop, 0);
    IndexBytes(Runs(prop, 0), START, 32)
  }

  /** For every property that the first character does not have, the table describes exactly the characters that have it. */
  lemma TableIsProperty(prop: int -> bool, c: nat)
    requires !prop(0)
    ensures Whole(TableOf(prop), 0) && (Member(TableOf(prop), START, c) <==> c <= CHARCODE_MAX && prop(c))
  {
    hide Runs, Member, InRuns, Whole, TableBytes;
    var table, runs := TableOf(prop), Runs(prop, 0);
    assert table[0..] == table;
    TableIsWhole(table, START, runs);
    TableHasRuns(table, START, runs, c);
    RunsOfProperty(prop, 0, c);
  }

  /** And the index that is built beside it fits it, so that the characters are found through it. */
  lemma IndexIsFit(prop: int -> bool)
    requires Indexable(prop)
    ensures var table, index := TableOf(prop), IndexOf(prop);
            Whole(table, 0) && IndexFits(table, index, |index| / 3)
  {
    hide Runs, Member, InRuns, Whole, TableBytes, IndexBytes, OffsetsFit, BlockPos, BlockCode, GetLe24;
    var table, index, runs := TableOf(prop), IndexOf(prop), Runs(prop, 0);
    RunsStayBelow(prop, 0);
    assert table[0..] == table && index[0..] == index;
    TableIsWhole(table, START, runs);
    TableHasRuns(table, START, runs, 0);
    EntriesFit(table, index, 0, runs, START);
  }

  /** Looking a character up in the table and the index of a property tells whether it has the property. */
  method HasProperty(prop: int -> bool, c: nat) returns (r: bool)
    requires !prop(0) && Indexable(prop)
    ensures r == (c <= CHARCODE_MAX && prop(c))
  {
    hide Whole, Member, Runs, IndexFits;
    var table, index := TableOf(prop), IndexOf(prop);
    IndexIsFit(prop);
    TableIsProperty(prop, c);
    r := IsInTable(c, table, index, |index| / 3);
  }
}

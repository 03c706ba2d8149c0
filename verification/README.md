# Verification of the QuickJS support libraries and the solver boundary

This project models the hardest logic of the repository in Dafny and proves properties of it: the regular-expression
compiler and its backtracking machine, number printing and parsing, character ranges and compressed tables, the sort,
the solver cache with its URL rewriting, the worker message pipe, and the integer arithmetic of the pi example.
`dafny verify dfyconfig.toml` checks everything.

Where the source works in place, the model does: the byte-code buffer, the matching context, the limb arrays, the point
lists, the sorted array, the linked ring and the caches are class fields or arrays that methods change. Each of these
methods is proved against a specification function or states its result outright, and lemmas say what the
specification means. Where the source is an expression or a recursion, the model is a function.

## Components

**Regular expressions** (`Regex*.dfy`, `Bytes.dfy`). `RegexSyntax` is the syntax tree of a pattern, `RegexReference` a
matcher that lists all results of a node, most preferred first, the way this code matches. `RegexStandard` is the
matcher of section 22.2.2 of ECMA-262 with its continuations, and proves for which patterns both agree;
`RegexConformance` lifts that to compiled code. `RegexBytecode` encodes and decodes instructions, `RegexCompiler` says
which code a tree has, and `RegexParser` emits its bytes into one buffer with insertions, copies and patched jumps;
`RegexScans` are its linear scans over emitted bytes. `RegexMachine` is one step of the backtracking machine and
`RegexExec` the machine with its arrays. `RegexSimulation`, `RegexGreedy`, `RegexAnalyses`, `RegexCorrectness` and
`RegexProgram` lead to the main theorem: compiling and executing gives the first result of the reference matcher, for
every pattern, input and start position, and execution always halts. `RegexLimits` says, on the tree, which patterns
compile. `RegexSafety` and `RegexOrigins` prove what holds in every configuration on the way.

**Numbers** (`Dtoa*.dfy`). `Powers`, `Rounding`, `Limbs` and `BigNumbers` are the limb loops, each proved against the
number its limbs stand for. `RadixTables`, `RadixLimits` and `Scaling` are the tables and the scaling by powers of the
radix with a sticky bit. `Binary64` holds numbers as multiples of 2^-1074 and defines rounding to the nearest of them.
`NumberParsing` is `js_atod` and `NumberExactness` says for which numerals it is exact; `NumberScanning` and
`NumberTexts` say what is read from texts whose characters are written out, and what is not read. `DigitSearch` and
`NumberPrinting` are `js_dtoa` in free format, `ShortestDigits` says when its digits are the fewest possible,
`NumberForms` what the text looks like, and `NumberRoundTrip` proves that every printed number reads back as the same
bits.

**Character sets and tables** (`CharRange.dfy`, `CaseFolding.dfy`, `CaseForms.dfy`, `RunLengthTable.dfy`,
`RunLengthBuild.dfy`). Point lists denote sets; the operations on them are proved on membership. The Unicode tables are
parameters with a stated well-formedness; `CaseForms` says what their entries mean for each character, and
`RunLengthBuilding` how the generator packs a property, so that the look-up is proved against the property itself.

**Sorting** (`Rqsort.dfy`). The three-way quicksort with its 50-entry stack, heapsort and insertion sort, on an array.

**Solver cache and URLs** (`SolverCache.dfy`, `SolverText.dfy`, `UrlQuery.dfy`, `UrlText.dfy`). One request is a method
on the shared cache; many threads are runs of a system whose events are the locked sections. The engine is a function
from requests to responses. `UrlTexts` and `SolverTexts` say what URLs and errors look like, character by character.

**Worker pipe** (`WorkerPipe.dfy`, `WorkerThreads.dfy`). The linked ring and the locked sections as methods on objects;
every interleaving of any number of threads as runs of a state machine; and a method that replays each interleaving on
the ring.

**Binary splitting** (`PiBigInt.dfy`). Integer logarithms, the square root by Newton's iteration, and the Chudnovsky
sum.

## Findings

Properties that the code does not have, each with an input and with the exact condition under which it holds; for
agreement with ECMA-262, with a condition on the pattern that is enough.

- `js_atod` keeps exponents in 32-bit ints, which wrap around (`quickjs/dtoa.c:1505-1608`, with `-fwrapv` in
  `quickjs/Makefile:146`). "100000000e+2147483639" is read as 0 and "0.0000000000001e-2147483639" as Infinity. The
  result is the nearest number if and only if `NumberExactness.ExponentFits` holds of the digits and the exponent.
- The free-format search of `js_dtoa` does not always find the fewest digits (`quickjs/dtoa.c:1184-1236`). It tries only
  the decimal nearest to the number; at a power of two the next decimal above may read back where the nearest one,
  below, does not. 2^-44 is printed with 17 digits although 5.684341886080802e-14 reads back. The digits are the fewest
  if and only if `ShortestDigits.MissedAbove` does not hold of the number: for some number of digits below 17 the
  decimal next above reads back and the nearest one does not. It never holds if the fraction bits are not all zero.
- `js_waker_signal` gives up on every failed write: the condition `errno != EAGAIN || errno != EINTR` is always true
  (`quickjs/quickjs-libc.c:2322`). The wake byte is right at every unlock if and only if no write was interrupted, and
  otherwise a receiver can wait for ever in `js_waker_clear` with the lock held.
- The URL that `solve_format_url` gives can depend on what was cached (`solver_engine.cpp:134-226`): cached solutions
  are put in first, and each rewriting decodes all other values once more. If n is solved as "%41" and sig as "b", every
  URL shows it. For any number of requests and any URL in which both parameters can be set, the URL that results does not
  depend on the cache if and only if all solutions for one parameter are equal and, if both parameters are put in, no
  solution has an escape or a plus sign in it. "n" and "signature" can be set in every URL; other names for the signature
  can in a URL of which no key has anything to decode, if they have nothing to decode themselves.
- Setting a query parameter does not always take effect (`url_query_utils.cpp:65-99`): the value can be read back under
  its key, for every value, if and only if there is nothing to decode in the key and no other key of the URL that
  decodes to it comes behind it in the order of the keys. The key "%41" is not found after it was set to "x". Keys like
  "n" and "signature" take effect in every URL. A setting that takes effect reads as the value decoded once, which is
  the value if and only if there is nothing to decode in it.
- `ceil_log2` of the pi example gives 1 for 1; it is the ceiling of the logarithm for every other number, and `int_sqrt`
  is right all the same.
- The regular-expression code differs from ECMA-262 in two places: the captures of a repeated atom are reset once before
  a repetition that may be skipped, not before every iteration (`quickjs/libregexp.c:2218-2230`), and the start of a
  group is recorded when the group is entered, not together with its end. `/(?:(a)|b)*/` on "ab" gives "a" for group 1,
  where the standard has reset it. Matches are those of the standard, for every input, if the pattern meets
  `RegexStandard.DisjunctionConforms`: every atom that may be repeated and has groups leaves them all set or reset
  whenever it matches, and no reference reads a group that an earlier iteration may have left behind. So it is for every
  pattern without a group inside an atom that may be repeated. The condition is on the pattern alone and goes one way: a
  pattern that does not meet it may still agree if the part in question cannot match, which depends on what its
  references and lookarounds find.
- `mp_div1norm` shifts its input into the result array and then divides the input array (`quickjs/dtoa.c:186-199`). For
  every divisor and number of limbs it is right for all inputs if and only if both are one array or nothing is shifted;
  the divisor in an array of its own gives the quotient 0. Its one caller passes one array.

## Model

| member | source | states |
|---|---|---|
| `RegexProgram.CompiledExpressionIsCorrect` | quickjs/libregexp.c:1792-3183 | For every pattern tree, flags, input and start, the machine on the compiled buffer halts, with the captures of the reference matcher's first result, or with no match when it has none: correctness and termination in one |
| `RegexProgram.AnswerUnique` | quickjs/libregexp.c:2714-3143 | A configuration halts with at most one answer, so the answer above is the one |
| `RegexConformance.CompiledExpressionConforms` | quickjs/libregexp.c:1792-3183 | For every conforming pattern tree, flags, input and start, the machine on the compiled buffer halts with the captures of the match that the matcher of ECMA-262 finds, or with no match when it finds none |
| `RegexConformance.DisjunctionOnceConforms` | quickjs/libregexp.c:2218-2230 | Every pattern without a capture group inside an atom that may be repeated conforms |
| `RegexConformance.StaleCapture` | quickjs/libregexp.c:2218-2230 | On ab, the repetition of the alternatives (a) and b keeps a in group 1 where ECMA-262 has reset it; it does not conform |
| `RegexStandard.SearchAgrees` | quickjs/libregexp.c:2440-2532 | For every conforming pattern and every start, the reference matcher's first result, with the search for a start, is that of ECMA-262 |
| `RegexStandard.TermAgrees` | quickjs/libregexp.c:1792-2319 | Any part of a conforming pattern, run with captures that differ from the standard's in stale and open groups only, ends alike for any two continuations that agree |
| `RegexStandard.RepeatAgrees` | quickjs/libregexp.c:2179-2308 | The same for the repetition, iteration by iteration, although captures are reset at other times |
| `RegexExec.CompileAndExecute` | quickjs/libregexp.c:2440-3183 | lre_compile and then lre_exec, as methods on buffers and arrays, return exactly the reference matcher's answer for every pattern of at most 254 groups whose quantifiers need at most 255 places, and the compile error for the others |
| `RegexLimits.CompilesExactly` | quickjs/libregexp.c:1952-1953 | For every pattern tree, in numbers and without the compiler: there are too many captures if and only if it has more than 254 groups, too many quantifiers in each other if and only if it has at most 254 and needs more than 255 places on the value stack, and else it compiles |
| `RegexLimits.ProgramReaches` | quickjs/libregexp.c:2389-2434 | The stack size of the compiled program is the number of places that the quantifiers of the pattern need, counted on the tree: the most of any nest, each with a counter if it counts and a position if its atom may be empty |
| `RegexLimits.ShallowCompiles` | quickjs/libregexp.c:2389-2434 | At most 254 groups and quantifiers nested at most 127 deep are always enough |
| `RegexLimits.NestingBounds` | quickjs/libregexp.c:2389-2434 | A quantifier needs at most two places more than its atom |
| `RegexLimits.DisjAnalysed` | quickjs/libregexp.c:1494-1607 | What both analyses find of the code of a pattern can be told from the pattern: whether there is one way through, whether it reads a character, and whether it is made of characters and assertions only |
| `RegexStandard.CharacterSets` | quickjs/libregexp.c:2534-2545 | Word characters and line terminators are those that ECMA-262 lists, and no others |
| `RegexExec.REExecContext.Execute` | quickjs/libregexp.c:2714-3143 | The loop over pc, captures, value stack and saved states ends with the answer of the step machine, and leaves its captures in the array |
| `RegexExec.REExecContext.StepRunning` | quickjs/libregexp.c:2797-3140 | One instruction executed on the arrays is one step of the machine |
| `RegexExec.REExecContext.StepUnwinding` | quickjs/libregexp.c:2743-2799 | Resuming or discarding the state saved last is one step of the machine, also when captures of a positive lookahead are kept |
| `RegexExec.REExecContext.PushState` | quickjs/libregexp.c:2665-2701 | A saved state holds copies of the captures and of the value stack |
| `RegexExec.SearchRange` | quickjs/libregexp.c:3011-3089 | The binary search over 16-bit or 32-bit pairs decides as the range test, and its unsigned idx - 1 never wraps around |
| `RegexExec.CompareForward` | quickjs/libregexp.c:2964-3009 | A back reference compares both texts from their starts and moves to the end of the second |
| `RegexExec.CompareBackward` | quickjs/libregexp.c:2964-3009 | A backward back reference compares both texts from their ends |
| `RegexExec.ExecCount` | quickjs/libregexp.c:3096-3137 | The counting loop of a simple quantifier ends with the number of iterations and the position that the machine's step has |
| `RegexSafety.CompiledExpressionIsSafe` | quickjs/libregexp.c:2389-2434 | In every configuration of every run, execution is not stuck, pc starts an instruction of the program, and the value stack is as high as compute_stack_size's level there, which is at most the stack size in the header |
| `RegexSafety.ProgramShaped` | quickjs/libregexp.c:1792-2387 | In all compiled code, loop and drop find a counter and check_advance a position on top, and every jump lands on an instruction boundary with the slots it left with, pushed by the same instructions |
| `RegexSafety.StepSafe` | quickjs/libregexp.c:2714-3143 | A step from a safe configuration that does not get stuck leads to a safe configuration, with all saved states at boundaries |
| `RegexOrigins.PushesMatch` | quickjs/libregexp.c:2910-2933 | With each slot marked by the address of the instruction that pushed it, in every configuration of every run the slot that loop, drop or check_advance acts on was pushed by its matching push, of the right kind |
| `RegexOrigins.MatchesOnce` | quickjs/libregexp.c:2389-2434 | By the levels of compute_stack_size, an instruction has at most one matching push |
| `RegexOrigins.MarksObserve` | quickjs/libregexp.c:2714-3143 | Marking the slots does not change the run |
| `RegexGreedy.QuantRuns` | quickjs/libregexp.c:3096-3137 | For every atom that re_is_simple_quantifier accepts, the simple_greedy_quant instruction yields the positions of the general greedy repetition, in the same order |
| `RegexGreedy.CountMeaning` | quickjs/libregexp.c:3096-3137 | Counting forward and giving back one iteration at a time lists the results of the greedy reference repetition |
| `RegexGreedy.GreedyFails` | quickjs/libregexp.c:2764-2786 | A quantifier's saved state, made to fail again and again, gives back its remaining positions, one atom length apart, and then is gone |
| `RegexAnalyses.TermMoves` | quickjs/libregexp.c:1494-1558 | If re_need_check_advance finds no check necessary for the code of a term, every success of the term moves the position |
| `RegexAnalyses.DisjMoves` | quickjs/libregexp.c:1494-1558 | The same for a disjunction |
| `RegexAnalyses.DisjSimple` | quickjs/libregexp.c:1560-1607 | Code that re_is_simple_quantifier accepts has at most one result, found without captures or backtracking |
| `RegexCorrectness.DisjRuns` | quickjs/libregexp.c:2355-2387 | The code of a disjunction, from any stack and saved states, yields the reference results of all alternatives, in order, and then fails into the states saved before |
| `RegexCorrectness.AltRuns` | quickjs/libregexp.c:2321-2353 | The code of a sequence of terms yields the reference results, also with the reversed order of lookbehind |
| `RegexCorrectness.RepeatRuns` | quickjs/libregexp.c:2179-2308 | The code of every quantifier, in all the forms that are chosen between, yields the results of the reference repetition |
| `RegexCorrectness.LookRuns` | quickjs/libregexp.c:1895-1934 | Lookahead and lookbehind are atomic: a positive one yields its first result only, a negative one the unchanged state if there is none |
| `RegexCorrectness.BackRefRuns` | quickjs/libregexp.c:2964-3009 | A back reference yields the state behind the same text once more, and an unset group matches nothing |
| `RegexClass.RangeMeaning` | quickjs/libregexp.c:1165-1199 | The 16-bit or 32-bit pairs of any non-empty normalised range, with 0xffff as infinity, accept exactly its code points |
| `RegexClass.SearchFinds` | quickjs/libregexp.c:3011-3089 | On increasing disjoint closed intervals, the binary search answers whether an interval between its bounds holds the character |
| `RegexClass.PairsSorted` | quickjs/libregexp.c:1165-1199 | The emitted closed intervals are non-empty, increasing and disjoint for every normalised range |
| `RegexClass.PairMeaning` | quickjs/libregexp.c:1165-1199 | Each emitted closed interval holds the code points of the half-open interval it was made from |
| `RegexClass.CharTestMeaning` | quickjs/libregexp.c:2802-2889 | The instruction of a character, a dot or a class accepts what the term accepts |
| `RegexParser.LreCompile` | quickjs/libregexp.c:2440-2532 | The buffer returned is the header followed by the encoding of the program's code, with the capture count, the stack size and the length patched in, or the error for too many captures or too deep a stack; `RegexLimits.CompilesExactly` says for which patterns |
| `RegexParser.ReParseState.ParseDisjunction` | quickjs/libregexp.c:2355-2387 | Appends exactly the encoded code of the disjunction, with a split inserted before what was emitted and the goto patched for each alternative |
| `RegexParser.ReParseState.ParseAlternative` | quickjs/libregexp.c:2321-2353 | Appends exactly the encoded code of the terms, each moved to the front in a lookbehind |
| `RegexParser.ReParseState.ParseTerm` | quickjs/libregexp.c:1792-2319 | Appends exactly the encoded code of the term, or fails exactly if the groups, with the whole match as group 0, are more than 255 in all |
| `RegexParser.ReParseState.EmitQuantifier` | quickjs/libregexp.c:2179-2308 | Replaces the atom at the end of the buffer, by insertions and copies, with the encoded code of the quantified atom |
| `RegexParser.ReParseState.EmitRange` | quickjs/libregexp.c:1165-1199 | Appends the encoded range instruction |
| `RegexParser.ReParseState.MoveTermFirst` | quickjs/libregexp.c:2338-2350 | Moves the last term before the earlier ones, other bytes unchanged |
| `RegexParser.ReParseState.Insert` | quickjs/libregexp.c:118-125 | Makes room inside the buffer and keeps the bytes on both sides |
| `RegexParser.ReParseState.PutSelf` | quickjs/cutils.c:148-157 | Appends a copy of a stretch of the buffer |
| `RegexScans.NeedCheckAdvanceScan` | quickjs/libregexp.c:1494-1558 | The scan over bytes decides as the analysis of the instructions they encode |
| `RegexScans.SimpleQuantifierScan` | quickjs/libregexp.c:1560-1607 | The scan over bytes counts the characters of a simple atom, or says that it is not simple |
| `RegexScans.ComputeStackSize` | quickjs/libregexp.c:2389-2434 | The scan over bytes gives the highest level of the instructions they encode, or -1 above 255 |
| `NumberRoundTrip.ReadPrinted` | quickjs/dtoa.c:1108-1613 | Every text that js_dtoa can print for any 64 bits is read by js_atod to its end, as the same bits; NaN gives no number, and -0 loses its sign exactly if it was not asked for |
| `NumberPrinting.JsDtoa` | quickjs/dtoa.c:1108-1318 | The text is the sign and, for a finite number, digits that stand for a decimal that reads back as it, found by the search and trimmed of zeros, in plain or exponent form as the mode says; or NaN, Infinity, 0 or the digits of an integer; `NumberForms.PrintedText` says what it looks like |
| `NumberForms.PrintedText` | quickjs/dtoa.c:1108-1318 | For all 64 bits and every mode, with the characters written out: NaN, Infinity and 0 by name, and every other number, behind its sign, in one of two forms without needless zeros, plain or one digit, a dot and an exponent with its sign; the digits with the dot and the exponent stand for a decimal that rounds to the number |
| `NumberForms.PrintedForm` | quickjs/dtoa.c:1279-1307 | The text of a finite number other than 0 has an e if and only if the mode enables it or, in the automatic mode, the number is at least 10^21 or below 10^-6 and not the one nearest to 10^-6; never if the mode disables it |
| `NumberForms.MillionthIsPlain` | quickjs/dtoa.c:1283-1285 | The number nearest to 10^-6 is below it and has no e in its text all the same |
| `NumberForms.ExponentFound` | quickjs/dtoa.c:1184-1236 | The exponent that the search finds is above 21 exactly for the numbers from 10^21 on, and at most -6 exactly for those below the number nearest to 10^-6 |
| `NumberForms.Thresholds` | quickjs/dtoa.c:1279-1285 | A number is below 10^-6 exactly if its bits are at most those of the nearest number, and at least 10^21 exactly if its bits are at least those of 10^21 |
| `NumberPrinting.OutputDigits` | quickjs/dtoa.c:847-888 | The digits of the number, in chunks of nine, with the dot in its place |
| `NumberPrinting.U64ToA` | quickjs/dtoa.c:616-645 | The decimal digits of any 64-bit number, without leading zeros |
| `NumberPrinting.U32ToA` | quickjs/dtoa.c:590-603 | The decimal digits of any 32-bit number, without leading zeros |
| `DigitSearch.FreeDigits` | quickjs/dtoa.c:1184-1236 | The search ends with the number rounded to p digits; rounded to p or more digits it reads back, and rounded to p - 1 digits it does not |
| `DigitSearch.SeventeenDigits` | quickjs/dtoa.c:1184-1236 | Every binary64 number rounded to 17 digits reads back as itself, which is why the longest candidate is not checked |
| `DigitSearch.EstimateIsFloor` | quickjs/dtoa.c:473-488 | The estimated exponent in radix 10 is the floor of a / log2(10) for every a from -2048 to 2047 |
| `ShortestDigits.ReachableExactly` | quickjs/dtoa.c:1184-1236 | Some decimal of q digits reads back if and only if the nearest one or the next above does, and the next alone only at an uneven binade boundary |
| `ShortestDigits.FewestExactly` | quickjs/dtoa.c:1184-1236 | If p - 1 digits rounded do not read back, p is the fewest number of digits if and only if the next decimal of p - 1 digits does not read back either |
| `ShortestDigits.SearchedFewest` | quickjs/dtoa.c:1184-1236 | The digits that are printed are the fewest that read back if and only if the number is not missed above: for no number of digits below 17 does the decimal next above read back while the nearest does not |
| `ShortestDigits.FewestUnlessPower` | quickjs/dtoa.c:1184-1236 | They are the fewest for every number whose fraction bits are not all zero |
| `ShortestDigits.NotFewestFor44` | quickjs/dtoa.c:1184-1236 | For 2^-44 the search gives 17 digits although 16 suffice |
| `ShortestDigits.RoundedUnique` | quickjs/dtoa.c:1184-1236 | A number has one rounding to p digits, so the search determines its digits |
| `NumberParsing.JsAtod` | quickjs/dtoa.c:1354-1613 | For every text, radix and flags, result and end position are those of the scanning specification: sign, prefixes, separators, digits cut to what counts, wrapped exponents, and then the nearest binary64 number; `NumberTexts` says what that is for texts that are written out |
| `NumberTexts.TextIsNearest` | quickjs/dtoa.c:1354-1613 | In every radix from 2 to 36, with digits taken from the written alphabet of capital or small letters: a sign, 0x, 0o, 0b in small or capital letters or no prefix, digits with underscores before them and a dot anywhere among them, also first, and an exponent behind e, E or the at sign, is read to its end, as the binary64 number nearest to what it stands for; anything that could not be part of it may follow |
| `NumberTexts.BinaryTextIsNearest` | quickjs/dtoa.c:1505-1583 | The same with an exponent of 2 behind p or P, in radix 2, 4, 8 and 16 |
| `NumberTexts.IntegerIsRead` | quickjs/dtoa.c:1320-1613 | For every radix from 2 to 36 and every integer below 2^53: its text in that radix, behind a sign and the prefix of the radix or none, is read to its end as that integer, whatever the flags are |
| `NumberTexts.LegacyIsNearest` | quickjs/dtoa.c:1398-1410 | Where octal numerals are accepted, a 0 before more digits makes the numeral octal if and only if there is no 8 or 9 in it before the dot; it is decimal else, and underscores are not read |
| `NumberTexts.InfinityIsRead` | quickjs/dtoa.c:1415-1418 | Infinity is read behind any sign, as infinity with that sign, unless only integers are read |
| `NumberTexts.NothingIsRead` | quickjs/dtoa.c:1565-1566 | Without a digit, or a dot and a digit, behind the sign the text is no number |
| `NumberTexts.PrefixIsNotRead` | quickjs/dtoa.c:1411-1413 | A prefix without a digit behind it is no number, and not a 0 either |
| `NumberTexts.BadExponentIsNotRead` | quickjs/dtoa.c:1533-1535 | With an exponent that has no digits, the whole text is no number |
| `NumberTexts.MostDigits` | quickjs/dtoa.c:731-733 | In every radix, the number of digits that are read is the greatest whose numbers fit into 128 bits, or into 64 bits if the radix is a power of two |
| `NumberScanning.TextIsParsed` | quickjs/dtoa.c:1354-1562 | Such a text is taken apart into the sign, the radix, the digits without leading zeros, the number of digits behind the dot, and the exponent |
| `NumberParsing.EndInside` | quickjs/dtoa.c:1354-1613 | Whatever the text is, the end position is not behind its end |
| `NumberParsing.ConcludeBinary` | quickjs/dtoa.c:1565-1583 | For a radix that is a power of two, the bits are those of the nearest number to all digits, also when most of them only set a sticky bit |
| `NumberParsing.ConcludeOther` | quickjs/dtoa.c:1584-1608 | For the other radices, the bits are those of the nearest number to the digits that count, overflow and underflow included |
| `NumberParsing.Mul1Base` | quickjs/dtoa.c:1333-1351 | Accumulates one more limb of digits |
| `NumberExactness.AtodIsNearestExactly` | quickjs/dtoa.c:1354-1613 | For every text without an exponent of 2 and with no digit cut, js_atod gives the binary64 number nearest to the numeral if and only if the exponent fits |
| `NumberExactness.NumeralExactly` | quickjs/dtoa.c:1505-1608 | For every numeral, also with an exponent of 2 or with digits cut, what is read with wrapped exponents is what full exponents give if and only if the exponent fits |
| `NumberExactness.NearestAtTheEnds` | quickjs/dtoa.c:1565-1608 | A numeral rounds to infinity exactly if it is at least (2^54 - 1) 2^970, and to 0 exactly if it is at most 2^-1075 |
| `NumberExactness.LargeReadAsZero` | quickjs/dtoa.c:1505-1608 | "100000000e+2147483639" is read as 0, and rounds to infinity |
| `NumberExactness.SmallReadAsInfinity` | quickjs/dtoa.c:1505-1608 | "0.0000000000001e-2147483639" is read as infinity, and rounds to 0 |
| `NumberExactness.OctalReadAsZero` | quickjs/dtoa.c:1565-1583 | In radix 8, 1 with the exponent 999999999 is read as 0 |
| `Binary64.NearestDouble` | quickjs/dtoa.c:970-1001 | The reference rounding of any ratio is a binary64 number, none is nearer, and of two that are as near its mantissa is even |
| `Binary64.RoundToD` | quickjs/dtoa.c:970-1001 | round_to_d gives the rounded number, subnormals included, from enough bits and a sticky bit |
| `Binary64.MulPowRoundToD` | quickjs/dtoa.c:1006-1013 | The mantissa and exponent of a radix^f rounded to binary64, whatever the sign of f |
| `Scaling.MulPowRound` | quickjs/dtoa.c:959-967 | Exactly m 2^e radix^f rounded to an integer, for every sign of e and f and every rounding mode |
| `Scaling.MulPow` | quickjs/dtoa.c:893-956 | Multiplies exactly, or divides with enough bits and a sticky bit that is never the rounding bit |
| `Rounding.StickyRounds` | quickjs/dtoa.c:945-953 | A quotient with its rest or-ed into the lowest bit rounds two or more bits higher as the exact ratio does |
| `Limbs.Udiv1NormInit` | quickjs/dtoa.c:106-113 | The inverse v of d is the one number with (v + B) d < B^2 <= (v + B) d + d |
| `Limbs.Udiv1Norm` | quickjs/dtoa.c:114-135 | For all d >= 2^31, a1 < d and a0, one multiplication by the inverse gives the exact quotient and remainder |
| `BigNumbers.Mpb.Div1Norm` | quickjs/dtoa.c:186-199 | From any array and of any number of limbs, the quotient of what is divided, with its remainder; that is the number itself, exactly, if both arrays are one or nothing is shifted |
| `BigNumbers.Mpb.DivNorm` | quickjs/dtoa.c:186-199 | Divides any array by a divisor with its high bit set, exactly and with its remainder |
| `BigNumbers.DividedRightExactly` | quickjs/dtoa.c:186-199 | For every divisor and number of limbs, all numbers are divided right if and only if both arrays are one or nothing is shifted |
| `BigNumbers.Mpb.Div1` | quickjs/dtoa.c:137-149 | Divides by one limb, with the remainder |
| `BigNumbers.Mpb.Mul1` | quickjs/dtoa.c:92-104 | Multiplies by one limb and adds one, with the carry |
| `BigNumbers.Mpb.AddUi` | quickjs/dtoa.c:75-89 | Adds one limb, with the carry, stopping when there is none |
| `BigNumbers.Mpb.Shl` | quickjs/dtoa.c:170-183 | Shifts up, from any array, and returns the bits that leave |
| `BigNumbers.Mpb.Shr` | quickjs/dtoa.c:152-166 | Shifts down and returns the bits that leave |
| `BigNumbers.Mpb.ShrRound` | quickjs/dtoa.c:313-398 | Divides by 2^shift and rounds in any mode, or multiplies for a negative shift, also across whole limbs |
| `BigNumbers.Mpb.GetBit` | quickjs/dtoa.c:300-310 | Bit k of the number, 0 beyond its limbs |
| `BigNumbers.Mpb.Cmp` | quickjs/dtoa.c:401-417 | Compares the numbers |
| `BigNumbers.Mpb.SetU64` | quickjs/dtoa.c:419-432 | The limbs stand for the 64-bit number |
| `BigNumbers.Mpb.GetU64` | quickjs/dtoa.c:434-445 | The low 64 bits of the number |
| `BigNumbers.Mpb.FloorLog2` | quickjs/dtoa.c:447-456 | The position of the highest bit, or -1 for 0 |
| `RadixTables.PowUi` | quickjs/dtoa.c:242-269 | The power modulo 2^64, by table or by squaring |
| `RadixTables.PowUiInv` | quickjs/dtoa.c:271-292 | The power shifted to its high bit, with the shift and the inverse, by table or computed |
| `RadixTables.Pow5InvTable` | quickjs/dtoa.c:221-240 | Every inverse in the table is the one that would be computed |
| `RadixTables.RadixBaseTable` | quickjs/dtoa.c:702-753 | Every entry is the radix to the power of its digits per limb |
| `RadixLimits.LimitsTable` | quickjs/dtoa.c:702-753 | For every radix, the exponent limits are such that beyond them a numeral overflows or vanishes |
| `DoubleBits.BitsRoundTrip` | quickjs/dtoa.c:1123-1165 | The bits of a finite number and its multiple of 2^-1074 determine each other |
| `DoubleBits.Encode` | quickjs/dtoa.c:1591-1607 | Mantissa and exponent are packed into the bits of the number, subnormal, normal or infinite |
| `DoubleBits.Decode` | quickjs/dtoa.c:1123-1165 | Mantissa and exponent are taken from the bits, subnormals normalised |
| `CaseFolding.RegexpCanonicalize` | quickjs/libunicode.c:660-742 | The range becomes exactly the set of the canonical forms of its characters, in normal form, for every well-formed case table; `CaseForms` says what the forms are |
| `CaseFolding.UnicodeCase1` | quickjs/libunicode.c:552-613 | The characters in runs whose type the mask covers, alternating runs by their upper or lower halves |
| `CaseFolding.FoldAll` | quickjs/libunicode.c:672-724 | The single scan through the table collects the images of all characters of the range |
| `CaseFolding.MaskCovers` | quickjs/libunicode.c:552-613 | A character that the mask leaves out is its own conversion: the mask covers every run type that can change a character |
| `CaseFolding.UnmarkedIsCanonical` | quickjs/libunicode.c:660-742 | A character outside the marked set is its own canonical form |
| `CaseFolding.FoldEntryIsCanonical` | quickjs/libunicode.c:192-261 | The entry found by the scan gives the canonical form that a look-up would give, also below 128 |
| `CaseFolding.Canonicalize` | quickjs/libunicode.c:226-261 | The canonical form by a binary search of the table; `CaseForms` says what it is |
| `CaseForms.PackedRun` | quickjs/libunicode.c:59-66 | A run of the table is 17 bits of code, 7 of length, 4 of type and 12 of data, and the types are numbered in their order |
| `CaseForms.LetterForms` | quickjs/libunicode.c:156-190 | The 26 letters convert into each other, and have the small one as canonical form in Unicode mode and the capital one else |
| `CaseForms.OtherAscii` | quickjs/libunicode.c:156-190 | The other characters of ASCII convert into themselves |
| `CaseForms.NoForms` | quickjs/libunicode.c:226-261 | So does a character in no run |
| `CaseForms.MovedForms` | quickjs/libunicode.c:67-75 | A run of type U, L, UF or LF is moved onto the run that its data names, in order, in the cases that its name says; in legacy mode no character becomes one of ASCII |
| `CaseForms.AlternatingForms` | quickjs/libunicode.c:76-81 | In an alternating run, both characters of a pair have one upper case, the first, and one lower case and folding, the second |
| `CaseForms.TripleForms` | quickjs/libunicode.c:82-89 | The characters of a triple have the first as upper case and the last as lower case and folding |
| `CaseForms.AfterTriple` | quickjs/libunicode.c:82-89 | What follows the triple in its run converts into itself |
| `CaseForms.NamedForms` | quickjs/libunicode.c:99-114 | Runs of type UF_D20, UF_D1_EXT, U_EXT and LF_EXT convert to the character of their data, or of the table of extensions at it, or to the one 32 or 1 behind it |
| `CaseForms.IotaForms` | quickjs/libunicode.c:90-98 | Runs of type U2L_399_EXT2 have two characters as upper case, the second an iota, and one as lower case |
| `CaseForms.TwoLowerForms` | quickjs/libunicode.c:115-120 | Runs of type LF_EXT2 have two characters as lower case, from two entries of the table of extensions |
| `CaseForms.TwoUpperForms` | quickjs/libunicode.c:121-131 | Runs of type UF_EXT2 have two as upper case, and their lower cases as folding |
| `CaseForms.ThreeUpperForms` | quickjs/libunicode.c:132-146 | Runs of type UF_EXT3 have three; a character that folds to several is its own canonical form, but for three of them |
| `CaseForms.MaskExactly` | quickjs/libunicode.c:552-580 | The mask of a conversion selects a run type if and only if there is a table with such a run in which the conversion changes a character |
| `CaseForms.HalvesExactly` | quickjs/libunicode.c:581-606 | Of alternating runs and of triples, exactly the characters that the conversion changes are selected |
| `CaseFolding.SearchRun` | quickjs/libunicode.c:156-190 | The binary search finds the run of the character exactly if there is one |
| `CharRanges.CharRange.Op` | quickjs/libunicode.c:462-515 | Into an empty range, for non-decreasing lists: membership in the result is union, intersection, exclusive or or difference of the memberships, and the result is strictly increasing |
| `CharRanges.CharRange.Op1` | quickjs/libunicode.c:517-527 | The same in place |
| `CharRanges.CharRange.Invert` | quickjs/libunicode.c:529-541 | The complement in [0, 2^32 - 1), in normal form |
| `CharRanges.InvertTwice` | quickjs/libunicode.c:529-541 | Inverting twice restores a normal list point by point |
| `CharRanges.NormalFormUnique` | quickjs/libunicode.c:433-460 | Two strictly increasing lists with the same members are the same list |
| `CharRanges.CharRange.Compress` | quickjs/libunicode.c:433-460 | In place, a strictly increasing list of the same set |
| `CharRanges.CharRange.SortAndRemoveOverlap` | quickjs/libunicode.c:622-658 | From intervals in any order to an ordered list of the same set, strictly increasing if no interval is empty |
| `CharRanges.CharRange.UnionInterval` | quickjs/libunicode.h:81-87 | Adds exactly the characters of a closed interval |
| `CharRanges.CharRange.AddInterval` | quickjs/libunicode.h:66-75 | Appends both points and changes nothing else |
| `CharRanges.ParityIsMembership` | quickjs/libunicode.c:462-515 | In an ordered list, a character is a member exactly if an odd number of points is at most it, which is why counting points merges sets |
| `RunLengthTables.IsInTable` | quickjs/libunicode.c:304-345 | For every well-formed table and index, the indexed look-up answers as decoding from the start does, that is as membership in the intervals decoded, and reads inside the table only |
| `RunLengthBuilding.HasProperty` | quickjs/unicode_gen.c:1847-1936 | For every property that character 0 does not have, looked up in the table and the index that are built for it, a character is found exactly if it has the property |
| `RunLengthBuilding.TableIsProperty` | quickjs/unicode_gen.c:1859-1925 | The bytes that the runs of a property are packed into, two short runs in one byte and others in one, two or three, are decoded as the property, for every character |
| `RunLengthBuilding.IndexIsFit` | quickjs/unicode_gen.c:1882-1936 | The index that is built beside them fits them, if no entry is more than 7 bytes behind its block, as the generator asserts |
| `RunLengthTables.GetIndexPos` | quickjs/libunicode.c:271-302 | The block found is reached by decoding from the start and begins at or before the character; none is found exactly after the last run |
| `RunLengthTables.DecodeProperty` | quickjs/libunicode.c:1458-1503 | Decoding the table from the start gives the intervals of its members, in normal form |
| `Rqsort.Sort` | quickjs/cutils.c:514-631 | For every comparator, also one that orders nothing, it terminates, writes inside its 50-entry stack only and leaves an arrangement of the elements; for every total preorder the arrangement is sorted |
| `Rqsort.Narrow` | quickjs/cutils.c:537-624 | For every comparator, partitioning keeps all stacked segments apart and their depths below their places, so the stack holds; at depth 50 heapsort takes over |
| `Rqsort.Partition` | quickjs/cutils.c:544-607 | For every comparator, lower elements, the pivot with those equal to it, and greater elements in three bands, none lost |
| `Rqsort.HeapSort` | quickjs/cutils.c:472-504 | Rearranges the segment, sorted for every total preorder, and changes nothing outside it |
| `Rqsort.InsertionSort` | quickjs/cutils.c:625-629 | Rearranges the segment, sorted for every total preorder, and changes nothing outside it |
| `SolverCaches.EveryRunIsTransparent` | solver_engine.cpp:128-226 | In every interleaving of any number of threads on one consistent cache, the cache stays consistent, and every thread that finishes without an exception gives the URL of the engine alone, whatever its requests are, if any two of their solutions can be put in in either order; with an exception it may give the unchanged URL |
| `SolverCaches.TransparentExactly` | solver_engine.cpp:134-226 | For any number of requests of any kinds, and every URL in which the parameters can be set if both are, all consistent caches give the same URL if and only if any two solutions can be put in in either order: one value for one parameter, nothing to decode for two |
| `SolverCaches.CacheShows` | solver_engine.cpp:134-226 | For every URL, with n solved as "%41" and sig as "b", two consistent caches give different URLs |
| `SolverCaches.AnyOrder` | solver_engine.cpp:150-222 | Whatever a consistent cache knows, putting in the known solutions before the new ones makes the URL that all of them make in the order of the requests, if any two can be put in in either order |
| `SolverCaches.ConsistentIsDisjoint` | solver_engine.cpp:153-207 | In a consistent cache no challenge has both a value and an error |
| `SolverCaches.RunKeeps` | solver_engine.cpp:134-226 | Every interleaving keeps the cache in agreement with the engine, and every finished thread explained by a consistent cache or by its exception |
| `SolverCaches.SolveFormatUrl` | solver_engine.cpp:134-226 | One request alone: result and new cache, for an empty URL, no requests, a missing cache, an exception, and the rest |
| `SolverTexts.SolvedUrl` | solver_engine.cpp:134-226 | For one request of each kind solved with unreserved characters and a URL without a query, whatever a consistent cache knows: ?n= and &signature= are appended with the solutions |
| `SolverTexts.AllErrors` | solver_engine.cpp:153-222 | If nothing is cached and every request fails, the errors are given back in the order of the requests, with a bar between spaces between them, and the URL is as it was |
| `SolverTexts.NoUrl` | solver_engine.cpp:134-142 | Without a URL, the error says so |
| `SolverCaches.SolverSharedCache.LookUp` | solver_engine.cpp:153-186 | Solutions and errors known to the cache in request order, and the requests it does not know |
| `SolverCaches.SolverSharedCache.Store` | solver_engine.cpp:193-207 | Every response is recorded under its kind and challenge, and returned in request order |
| `UrlQueries.OrdersAgree` | url_query_utils.cpp:65-99 | Two parameters whose settings take effect, set in either order, give the same URL if and only if neither value has anything to decode, or, for one key, if the values are equal |
| `UrlQueries.GetAfterSet` | url_query_utils.cpp:55-99 | A parameter whose setting takes effect reads as its value decoded once, which is the value if and only if there is nothing to decode in it; if the keys of the URL have nothing to decode, every other parameter reads as decoded once more |
| `UrlQueries.SetTakesEffect` | url_query_utils.cpp:39-99 | For any URL and key, every value that is set is read back, decoded once, if and only if the key has nothing to decode and no other key of the URL that decodes to it comes behind it |
| `UrlQueries.EscapedKeyIsLost` | url_query_utils.cpp:55-99 | The key "%41", set to "x" in an empty URL, is not found |
| `UrlQueries.HighKeysLast` | url_query_utils.cpp:39-99 | A key of bytes above the percent sign without a plus sign takes effect in every URL, however often other parameters are set before |
| `UrlQueries.StableKeysLast` | url_query_utils.cpp:39-99 | So does every key with nothing to decode in a URL whose keys have nothing to decode |
| `UrlQueries.LastingKept` | url_query_utils.cpp:39-99 | A key that takes effect for good still does after another parameter was set |
| `UrlQueries.OtherAfterSet` | url_query_utils.cpp:39-99 | Setting another parameter decodes a parameter that takes effect once more |
| `UrlQueries.UnstableValueChanges` | url_query_utils.cpp:65-99 | There is a URL, a key and a value with an escape in it that reads differently once set: n set to "%41" |
| `UrlQueries.OthersUnchanged` | url_query_utils.cpp:65-99 | With nothing to decode in keys and values, setting one parameter leaves all others as they read before |
| `UrlQueries.EncodedThenRead` | url_query_utils.cpp:7-37 | For every byte string, decoding its encoding twice is decoding it once, and gives it back if and only if there is nothing to decode in it |
| `UrlQueries.WrittenThenRead` | url_query_utils.cpp:39-99 | Reading a written query string puts each of its parameters, decoded once more, one after the other |
| `UrlQueries.ReadRewritten` | url_query_utils.cpp:65-99 | With stable keys, a rewritten URL has the parameters with the new one put in, each value decoded once more |
| `UrlQueries.StableMeaning` | url_query_utils.cpp:7-37 | The texts that a decoding pass leaves alone are exactly those without escape and plus sign |
| `UrlQueries.SerializeInjective` | url_query_utils.cpp:90-98 | Different lists of parameters are written differently |
| `UrlQueries.ParseQueryString` | url_query_utils.cpp:39-53 | The parameters in the order of their keys, the last of equal keys taken |
| `UrlQueries.SafeDoubleDecode` | url_query_utils.cpp:7-37 | Two decoding passes by loops |
| `UrlQueries.SetOrReplaceQueryParam` | url_query_utils.cpp:65-99 | The loops write the URL of the specification; `UrlTexts` says what it looks like |
| `UrlTexts.SetInBareUrl` | url_query_utils.cpp:65-99 | A key and a value of unreserved characters of RFC 3986, set in a URL without a query, give url?key=value |
| `UrlTexts.SetInQuery` | url_query_utils.cpp:65-99 | In a URL with parameters of such characters in the order of their keys, the new one takes its place among them, or that of its old value, and the others are written as they were |
| `UrlTexts.GetInQuery` | url_query_utils.cpp:55-63 | Such a URL is read as its parameters |
| `UrlTexts.ByteIsWritten` | url_query_utils.cpp:73-89 | One of the 66 unreserved characters, listed, is written as it is; any other byte is a percent sign and two capital hexadecimal digits that stand for it |
| `UrlTexts.HarmlessIsWritten` | url_query_utils.cpp:73-89 | A text of unreserved characters is written as it is |
| `UrlTexts.EscapeIsRead` | url_query_utils.cpp:7-37 | A percent sign and two hexadecimal digits, small or capital, are read as the byte that they stand for |
| `UrlTexts.ByteIsRead` | url_query_utils.cpp:7-37 | A plus sign is read as a space, and any other byte that begins no escape as itself |
| `UrlTexts.NextPartIsRead` | url_query_utils.cpp:39-53 | A query string with one more part has the parameters of what comes before, with the new one put in, split at its first equals sign, or with an empty value if there is none; an empty part puts in an empty key, but not at the end |
| `UrlTexts.OnePartIsRead` | url_query_utils.cpp:39-53 | A query string of one part is that parameter |
| `UrlTexts.QueryIsRead` | url_query_utils.cpp:55-63 | What is read of a URL is the query string behind its first question mark, all of it, and nothing if there is none |
| `UrlTexts.OrderOfKeys` | url_query_utils.cpp:39-40 | Keys are ordered by the first byte in which they differ, the shorter one first if there is none |
| `UrlQueries.QueryParamFromUrl` | url_query_utils.cpp:55-63 | The value of the key behind the first question mark, or nothing |
| `PipeThreads.WakeByteIsRight` | quickjs/quickjs-libc.c:2314-2408 | In every interleaving, with the lock free, one wake byte is pending exactly when the queue is non-empty, if and only if no write was interrupted |
| `PipeThreads.WaitsOnlyForALostByte` | quickjs/quickjs-libc.c:2327-2339 | The thread that holds the lock cannot go on if and only if a write was interrupted and it has just taken the last message; then nothing can happen any more |
| `PipeThreads.FirstInFirstOut` | quickjs/quickjs-libc.c:2354-2408 | In every interleaving, messages are taken in the order in which they were added, none lost or repeated, and those of one sender in the order sent, exactly as many as it sent |
| `PipeThreads.Replay` | quickjs/quickjs-libc.c:3785-3791 | Every interleaving can be performed on the linked ring and the wake byte, step by step, and leaves a well-formed ring with the queue's messages |
| `PipeThreads.Perform` | quickjs/quickjs-libc.c:2354-2408 | Each step of a thread on the ring does what the interleaved model says |
| `PipeThreads.InterruptedWriteBlocks` | quickjs/quickjs-libc.c:2314-2325 | After one interrupted write a receiver can wait for the wake byte for ever, holding the lock |
| `MessagePipes.MessagePipe.PostMessage` | quickjs/quickjs-libc.c:3785-3791 | The message is last in the queue, the ring stays a ring, and the wake byte is pending |
| `MessagePipes.MessagePipe.HandlePostedMessage` | quickjs/quickjs-libc.c:2363-2374 | The oldest message is taken, and the wake byte is cleared exactly when it was the last |
| `MessagePipes.MessagePipe.Free` | quickjs/quickjs-libc.c:3523-3542 | With the last reference, every queued message is freed once |
| `MessagePipes.ListInsert` | quickjs/list.h:48-55 | A ring with the new element between the two neighbours |
| `MessagePipes.ListAddTail` | quickjs/list.h:64-67 | A ring with the new element last |
| `MessagePipes.ListDel` | quickjs/list.h:69-78 | A ring without the element, whose pointers are null |
| `MessagePipes.ListEmpty` | quickjs/list.h:80-83 | Empty exactly if the ring is the head alone |
| `MessagePipes.RingInserted` | quickjs/list.h:48-55 | If the two neighbours and the new element are linked and nothing else has changed, the longer sequence is a ring |
| `MessagePipes.RingRemoved` | quickjs/list.h:69-78 | If the two neighbours are linked and nothing else has changed, the shorter sequence is a ring |
| `BinarySplitting.ChudBsIsSeries` | quickjs/examples/pi_bigint.js:59-79 | For all a < b and either need_G, P / Q times the ratio of term a is the sum of the Chudnovsky terms after a up to b, in real numbers, with factorials and powers written out |
| `BinarySplitting.ChudBsMeaning` | quickjs/examples/pi_bigint.js:59-79 | P, Q and G are the unsplit sum and products, whatever the split points |
| `BinarySplitting.SumSplit` | quickjs/examples/pi_bigint.js:68-76 | The sum can be split at any point with the formula of the code |
| `BinarySplitting.IntSqrt` | quickjs/examples/pi_bigint.js:33-48 | The floor of the square root of every number, from the starting point that ceil_log2 gives |
| `BinarySplitting.FloorSqrtUnique` | quickjs/examples/pi_bigint.js:32-48 | There is one floor of the square root |
| `BinarySplitting.FloorLog2` | quickjs/examples/pi_bigint.js:7-24 | The floor of the logarithm of every positive number, and 0 for 0 |
| `BinarySplitting.CeilLog2` | quickjs/examples/pi_bigint.js:27-30 | The least l with a <= 2^l for every a > 1, and 1 for 1 |
| `BinarySplitting.CeilLog2Exact` | quickjs/examples/pi_bigint.js:26-30 | The ceiling of the logarithm if and only if a is not 1 |

## Left out

Regular expressions:

- RegexStandard.SearchAgrees: goes one way; a pattern outside the condition may still agree with ECMA-262.
- RegexParser.LreCompile: starts from a syntax tree. Reading a pattern's text is not part of this model: escapes, class syntax, named groups, modifiers, `/v` string classes and errors in it, among them a repetition count out of order and a class of 65535 intervals or more. The pattern is a syntax tree, and a class is its normalised list of points after the parser's own canonicalization.
- UTF-16 input. Characters are single bytes, `cbuf_type` 0.
- Timeouts, allocation failure, the C stack-overflow check, and buffers above 2^31 - 1 bytes, where the int offsets would no longer hold them.
- RegexExec.ExecCount: models the recursive call with `no_recurse` for the opcodes that `re_is_simple_quantifier` accepts only, which are the only ones that it is called with.

Numbers:

- Printing with a fixed number of digits, in fractional form, or in a radix other than 10. `js_dtoa` is modelled in free format and radix 10.
- NumberPrinting.OutputDigits: does not model the branch for a radix that is a power of two.
- NumberPrinting.JsDtoa: does not model the formats and radices named above.
- DigitSearch.EstimateIsFloor: is stated for radix 10, the only one that is printed here; `mul_log2_radix` serves all.
- Binary64.RoundToD: does not model rounding modes other than to the nearest, which no caller uses.
- Binary64.MulPowRoundToD: is stated for rounding to the nearest only, as `round_to_d` is.
- NumberParsing.JsAtod: does not model that positions in a text of 2^31 characters or more would wrap around.
- BigNumbers.Mpb.Mul1: does not model the fixed length `DBIGNUM_LEN_MAX`; limb arrays grow as needed, and that 52 limbs are enough for every number built is not stated.
- The comparison of a dot with the separator in `js_atod` can never succeed and is not modelled.

Character sets and tables:

- The generated Unicode tables, which are parameters: that they are well-formed is not part of this model. Neither are properties by name, scripts, normalization and emoji sequences.
- CharRanges.CharRange.Op: is stated for an empty range to write to, as at every call; in any other range the merge counts the points that are there.
- RunLengthBuilding.IndexIsFit: models the generator's loops as functions on lists of runs, and asks for the offsets that it asserts.
- RunLengthTables.IsInTable: requires an index whose last entry is below 2^21, the width of its field.

Sorting:

- Rqsort.Sort: sorts elements of one type; the exchange of bytes by element size and alignment is not modelled, nor is the choice of `qsort` where the library has it.

Solver cache and URLs:

- The JavaScript engine, which is a function from a request to a response, given one set of assets; that a thread's engine ignores later assets does not show.
- SolverCaches.TransparentExactly: asks that both parameters can be set in the URL when both are put in; a signature parameter that another key of the URL hides is not covered, see `UrlQueries.SetTakesEffect`.
- UrlQueries.OrdersAgree: asks that both settings take effect in the URL; of a setting that does not, nothing is read back.
- SolverCaches.EveryRunIsTransparent: says nothing about the text of `solver_error`, which lists errors in an order that depends on the cache.
- Network, redirects, asset loading, the Python bindings and the JSON conversion.

Worker pipe:

- Serialisation of messages, shared array buffers, and the handler that is called with a message.
- PipeThreads.WakeByteIsRight: models a failed write as losing the byte; that a pipe's buffer could be full is not modelled, as at most one byte is pending.
- Reference counts are counted by one thread at a time, as the atomic operation does.

Pi:

- The number of terms, which `calc_pi` computes in floating point, and the conversion to decimal digits.

# Verified core of the QuickJS support code

The bundled QuickJS library has four pieces of code whose correctness rests on an argument rather than on inspection:
the regular expression compiler with its backtracking interpreter (`libregexp.c`), the conversion between doubles and
digits (`dtoa.c`), the character set and normalization code (`libunicode.c`), and the sort and the UTF-8 conversion of
`cutils.c`. This project models them in Dafny and proves what each is for. Check it with `dafny verify dfyconfig.toml`.

Code that changes things in place is modelled in place: the byte buffer of the compiler, the capture and stack arrays
of the interpreter, limb arrays, boundary lists, hash buckets, the text buffer of the normalization and the sorted
array are fields or arrays that methods change, and each method is tied to a function of the old state. The main
results are about those functions.

## What is proved

**Regular expressions.** A pattern is an abstract syntax tree (`RegexSyntax`). Its meaning is the matcher of section
22.2.2 of ECMA-262, with continuations and RepeatMatcher (`RegexSpec.Matcher`); captures behave as in the interpreter,
which stores start and end separately and resets the captures of an optional quantifier once, before its first
iteration. The compiler is modelled as it emits bytes, inserts blocks, rotates terms, copies atoms and patches jumps
(`RegexEmitter`); the interpreter as it fetches bytes and changes its arrays (`RegexExec`). For every pattern within
the compiler's limits, every input and every start at a code point boundary, running the compiled bytes ends, and
gives exactly what the matcher gives. In between stands `RegexOutcomes.Outcomes`, the ordered list of all the ways a
pattern can match: the code of a pattern delivers that list one by one under backtracking (`RegexRuns.Yields`), and
the matcher returns the first of it that its continuation accepts. The specialised quantifier, the advance check, the
stack size analysis, the range search, and classes with strings have theorems of their own: the code emitted for a
class with strings is that of a pattern of alternatives, so that all of the above holds for it. A class that ignores case
accepts a character exactly if one of its own has the same canonical form. What matcher and machine have in common is
stated on code points and without their loops: reading, assertions, captures, and back references, which match exactly
the captured characters over again.

**Doubles and digits.** Limb arithmetic, division by a precomputed reciprocal and sticky-bit rounding lead to
`ExactScale.MulPowRound`: m * 2^e * radix^f is rounded once, from its exact value, for all m, e, f and radix. Rounding to
a double gives the nearest double, subnormals included. The exponent estimate from a table of 24-bit logarithms is exact
for every double and radix. The digits that the free format of `js_dtoa` chooses convert back
to the same double, and one digit less does not; its 52-limb scratch number is always large enough. `js_atod` for a
radix that is a power of two returns the nearest double to the exact value of all the digits, however many, and so
reads back what was printed.

**Sets and normalization.** The operations on boundary lists compute the set operations and give strictly increasing
lists; set expressions in postfix form evaluate to their sets; a compressed table and its index decide the set of the run
lengths they were packed from; canonicalization gives the image under `lre_canonicalize`, because the mask of affected
characters leaves out only those that it does not change. Decomposing the output of normalization gives the
decomposition of the input, if and only if that does not have the three characters L, V and U+11A7 in a row; the
canonical order is characterised without reference to sorting, and composition by the rule of section 3.11 of the Unicode
Standard. Case conversions have laws for each kind of run: pairs, triples, runs that point at each other.

**Sorting and UTF-8.** `rqsort` gives a sorted permutation for every comparator that is a total preorder and never uses
more than 50 stack entries. The UTF-8 encoder and decoder are inverse to each other.

## Files

| files | content |
|---|---|
| `CharInput`, `RegexSyntax`, `RegexOutcomes`, `RegexSpec` | reading characters in both directions, patterns, their meaning |
| `RegexText`, `RegexCaptures` | code points, back references, assertions and captures, without the loops that read them |
| `RegexOpcode`, `RegexRange`, `RegexCompile`, `RegexVm` | instructions and bytes, range tables, emitted code, the machine as a step function |
| `RegexRuns` .. `RegexTheorem`, `RegexBytes`, `RegexSafe`, `RegexFlow` | the correctness proof, construct by construct, and its consequences |
| `RegexScan`, `RegexEmitter`, `RegexExec`, `RegexFold` | the compiler and the interpreter as imperative programs; case folding |
| `StringList`, `RegexStrings`, `StringEmitter` | classes with strings: hash table, meaning, emission |
| `Rounding`, `Bits`, `Limbs`, `LimbLoops`, `Reciprocal`, `BigNum`, `Powers`, `MulPow`, `ExactScale` | big number arithmetic up to exact scaling |
| `RoundDouble`, `RoundTrip`, `ShortDigits`, `DtoaRoom`, `LogEstimate`, `FreeFormat`, `RealValue`, `Atod`, `NumberText` | doubles: rounding, shortest digits, parsing |
| `CharSets`, `CharProps`, `CharTables`, `CaseConv`, `CaseLaws`, `CaseFold` | character sets, case conversion |
| `CanonicalOrder`, `Normalize` | normalization |
| `SortOrder`, `SortPartition`, `HeapSort`, `Rqsort`, `Utf8` | sorting and UTF-8 |

## Model

| member | source | states |
|---|---|---|
| RegexBytes.ExecCorrect | src/quickjs/libregexp.c:2714-3143 | for every accepted pattern, input and boundary start, the interpreter run on the compiled bytes halts with the captures of the ECMA-262 style matcher, or without a match if that has none |
| RegexTheorem.MatchCorrect | src/quickjs/libregexp.c:2714-3143 | code placed anywhere that decodes to the compiled instructions reaches a halt with the first outcome of the pattern, searched from the start on unless sticky |
| RegexTheorem.CodeImplements | src/quickjs/libregexp.c:2118-2387 | the code of every pattern, wherever it is placed and whatever has been saved, delivers all outcomes of the pattern in order, using no more stack than the linear scan says |
| RegexSpec.MatcherAgrees | src/quickjs/libregexp.c:2714-3143 | the continuation matcher returns the first outcome that its continuation accepts, for every continuation |
| RegexSpec.RepeatAgrees | src/quickjs/libregexp.c:2211-2308 | RepeatMatcher with its empty-iteration check tries exactly the iterations that the emitted loops try |
| RegexSpec.FindAgrees | src/quickjs/libregexp.c:2440-2530 | the loop over start positions finds the leftmost match of the matcher |
| RegexText.BackReferenceIs | src/quickjs/libregexp.c:2964-3009 | a back reference leads to q if and only if the text between the position and q has as many characters as the captured text, and the same ones after folding, in both directions; a missing index fails, and a group that has not captured matches nothing |
| RegexText.FoldedText | src/quickjs/libregexp.c:2976-3007 | the characters compared are the folded code points of a UTF-16 text, one for one |
| RegexText.ReadsCodePoint | src/quickjs/libregexp.c:2547-2628 | in the UTF-16 form of a list of code points, reading forwards at the place of each one and backwards from its end gives that code point and leads to its other end |
| RegexText.CharacterIs | src/quickjs/libregexp.c:2802-2889 | a pattern of one character goes over a code point, in either direction, if and only if it accepts it: the same canonical character, no line terminator, or a member of the class |
| RegexText.AssertionsMean | src/quickjs/libregexp.c:2858-2963 | line and word assertions hold if and only if the characters on both sides of a boundary are as they say |
| RegexText.WordCharacters | src/quickjs/libregexp.c:2539-2545 | the word characters are letters, digits and the underscore of ASCII |
| RegexText.LineTerminators | src/quickjs/libregexp.c:2534-2537 | the line terminators are the four of ECMA-262 |
| RegexCaptures.CapturesKept | src/quickjs/libregexp.c:2890-2910 | no outcome of a pattern changes the captures of groups outside of it |
| RegexCaptures.GroupCaptures | src/quickjs/libregexp.c:1957-1966 | in every outcome a group has captured what lies between where it was entered and where it was left, lower end first in both directions |
| RegexCaptures.SkippedCaptures | src/quickjs/libregexp.c:2219-2230 | skipping an optional quantifier is one of its outcomes and leaves its groups without captures |
| RegexExec.Exec | src/quickjs/libregexp.c:3145-3185 | the imperative interpreter terminates, stays inside its arrays, and returns the matcher's result in its capture array |
| RegexExec.ExecContext.ExecInstr | src/quickjs/libregexp.c:2802-3138 | one round of the instruction loop changes the arrays as the step function changes the abstract state |
| RegexExec.ExecContext.PushState | src/quickjs/libregexp.c:2665-2701 | saving a state adds one frame with a copy of captures and value stack |
| RegexExec.ExecContext.Unwind | src/quickjs/libregexp.c:2731-2801 | popping saved states after a match or a failure follows the abstract machine to its next run state or its end |
| RegexExec.ExecQuant | src/quickjs/libregexp.c:3096-3138 | the counting loop of the specialised quantifier ends and finds the count and the position that the recursive definition gives |
| RegexEmitter.CompilePattern | src/quickjs/libregexp.c:2440-2530 | compilation succeeds exactly for patterns within the limits and returns exactly the header and bytes that the correctness theorem is about |
| RegexEmitter.Emitter.EmitQuant | src/quickjs/libregexp.c:2135-2318 | inserting, copying and jumping in the buffer yields the bytes of the quantified code in place of the atom's, everything before it unchanged |
| RegexEmitter.Emitter.EmitSeq | src/quickjs/libregexp.c:2320-2352 | terms are in text order, or in reverse order when matching backwards, after rotation in the buffer |
| RegexEmitter.Emitter.EmitAlt | src/quickjs/libregexp.c:2354-2387 | the inserted split and the patched goto lead to the second alternative and over it |
| RegexEmitter.Emitter.EmitLook | src/quickjs/libregexp.c:1909-1936 | the patched lookahead operand leads behind the body's match instruction |
| RegexFold.ParseClass | src/quickjs/libregexp.c:1378-1475 | the set of a class of characters and ranges has exactly the canonical forms of its characters, or exactly the others if it is inverted |
| RegexFold.ClassMatchesFolded | src/quickjs/libregexp.c:3011-3089 | the range instruction of that class accepts a character exactly if one of the class has the same canonical form, or none has if it is inverted |
| RegexEmitter.Emitter.EmitRange | src/quickjs/libregexp.c:1165-1199 | the bytes written are the encoding of the 16-bit or 32-bit range instruction of the class; it fails exactly for too many ranges |
| RegexRange.RangeFinds | src/quickjs/libregexp.c:3011-3089 | the binary search over the written pairs accepts a character exactly if it is in the class, with 0xffff as infinity |
| RegexOpcode.FetchEncoded | src/quickjs/libregexp.c:2802-3138 | every encodable instruction is read back from its bytes, whatever is around them |
| RegexScan.ScanNeedCheckAdvance | src/quickjs/libregexp.c:1498-1558 | the scan over bytes decides the analysis defined on instructions |
| RegexAdvance.AdvanceSound | src/quickjs/libregexp.c:1498-1558 | when the analysis says that no check is needed, every way to match the atom, in either direction, ends at another position |
| RegexScan.ScanSimpleCount | src/quickjs/libregexp.c:1562-1607 | the scan over bytes finds the number of characters of a simple atom, and rejects the others |
| RegexGreedy.SimpleYields | src/quickjs/libregexp.c:2179-2206 | the specialised quantifier, counting and stepping back, delivers the same outcomes in the same order as the general loop for the same atom and bounds |
| CharInput.StepBackUndoesForward | src/quickjs/libregexp.c:2562-2628 | n steps back undo n steps forward if and only if the start is a code point boundary |
| CharInput.StepBackOvershoots | src/quickjs/libregexp.c:2597-2628 | an input that shows why the start has to be a boundary |
| RegexScan.ScanStackSize | src/quickjs/libregexp.c:2389-2434 | the scan computes the highest depth of the linear code, or reports that it is over 255 |
| RegexBalance.CodeNeutral | src/quickjs/libregexp.c:2389-2434 | emitted code pops exactly what it pushes and never goes below its start |
| RegexFlow.CodeTame | src/quickjs/libregexp.c:2118-2387 | every jump of emitted code goes to an instruction of the same block at which the linear scan has the same stack depth and the same open lookaheads |
| RegexFlow.RunsFollowTheScan | src/quickjs/libregexp.c:2390-2434 | on every run, at every place, the value stack has the depth of the linear scan and as many lookaheads are pending as are open there |
| RegexSafe.RunsAreSafe | src/quickjs/libregexp.c:2714-3143 | no state of a run is undefined, and no value stack, current or saved, exceeds the declared size |
| StringList.StringList.ListOp | src/quickjs/libregexp.c:298-344 | union, intersection and difference of string lists are the set operations on the strings, with removal during the walk over the buckets |
| StringList.StringList.Find | src/quickjs/libregexp.c:222-236 | the search finds the strings that are in the bucket of their hash; in a list that was not added to after it was emptied these are all its strings |
| StringList.StringList.FindOrAdd | src/quickjs/libregexp.c:222-273 | after adding, the list has the string and what it had, and the search finds the string if and only if it was there, the table was not an emptied one, or the string hashes to the first bucket |
| StringList.AddToEmptied | src/quickjs/libregexp.c:225-270 | a string added to a list whose strings were all removed is in the list, and a search for it succeeds if and only if its hash selects the first bucket |
| StringList.StringList.Grow | src/quickjs/libregexp.c:239-262 | rehashing keeps the strings and puts each into its bucket of the larger table |
| StringList.EmptyStringLost | src/quickjs/libregexp.c:225-270 | the empty string is one for which it fails |
| StringEmitter.EmitStringList | src/quickjs/libregexp.c:1216-1292 | the emitted bytes, with their gotos chained through the operands and patched at the end, are the code of the alternatives, longest string first |
| RegexStrings.StringsAre | src/quickjs/libregexp.c:1216-1292 | the code emitted for a class with strings is the code of a pattern, so that the theorems about all patterns hold for it |
| RegexStrings.StringsImplement | src/quickjs/libregexp.c:1216-1292 | that code delivers the outcomes of the alternatives in order |
| RegexStrings.StringsMatch | src/quickjs/libregexp.c:1216-1292 | an outcome exists exactly for the strings of the class that are found at the position |
| RegexStrings.CandidatesLongestFirst | src/quickjs/libregexp.c:1202-1207 | the strings are tried in order of decreasing length |
| Reciprocal.DivideExact | src/quickjs/dtoa.c:106-135 | the quotient and remainder of two limbs by one, computed from the reciprocal with wrap-around, are exact for every a1 < d and d >= 2^31 |
| LimbLoops.Div1Norm | src/quickjs/dtoa.c:186-199 | division in place by a normalised divisor: quotient times divisor plus remainder is the old number |
| LimbLoops.Mul1 | src/quickjs/dtoa.c:91-104 | multiplication by a limb in place, with the carry |
| LimbLoops.AddUi | src/quickjs/dtoa.c:75-89 | addition of a limb, also when the carry stops early |
| LimbLoops.Shr | src/quickjs/dtoa.c:150-166 | right shift of the limbs in place, with the bits that come in and go out |
| LimbLoops.Shl | src/quickjs/dtoa.c:168-184 | left shift of the limbs in place, with the bits that come in and go out |
| LimbLoops.Div1 | src/quickjs/dtoa.c:137-148 | division by a limb in place, with the remainder |
| Powers.PowUi | src/quickjs/dtoa.c:242-269 | the power modulo 2^64, from the tables or by squaring |
| Powers.PowUiInv | src/quickjs/dtoa.c:271-292 | the power shifted up to a full limb, with its exact reciprocal, also from the table |
| BigNum.BigNum.ShrRound | src/quickjs/dtoa.c:313-398 | the number divided by 2^shift and rounded in the given mode, or multiplied for negative shifts, without leading zero limbs |
| BigNum.BigNum.FloorLog2 | src/quickjs/dtoa.c:448-456 | the place of the highest bit, -1 for zero |
| BigNum.BigNum.GetBit | src/quickjs/dtoa.c:300-310 | bit k of the value, also beyond the last limb |
| Rounding.StickyRounds | src/quickjs/dtoa.c:919-954 | with two or more bits to come off, rounding a truncated quotient with a sticky last bit rounds the exact quotient, in every mode |
| Rounding.RoundNearest | src/quickjs/dtoa.c:294-298 | the rounded number is nearest, with ties as the mode says, without reference to division |
| MulPow.MulPower | src/quickjs/dtoa.c:891-957 | what is left is the number times radix1^f, or its sticky quotient with as many extra bits as the mode of use needs |
| ExactScale.MulPowRound | src/quickjs/dtoa.c:958-967 | m * 2^e * radix^f rounded once from its exact value, for every m, e, f of either sign and every radix |
| ExactScale.ScaledRounds | src/quickjs/dtoa.c:891-967 | shifting the scaled number rounds the exact fraction, whichever of its parts are powers of two |
| RoundDouble.RoundToD | src/quickjs/dtoa.c:969-1001 | mantissa and exponent from the rounded number of units in the last place, with subnormals and mantissa overflow |
| RoundDouble.ShiftFits | src/quickjs/dtoa.c:993-994 | shifting the mantissa up loses no bit, and the count is below 64 unless the mantissa is zero |
| RoundDouble.MulPowRoundToD | src/quickjs/dtoa.c:1003-1013 | the exact value v * radix^f rounded to the units of its binade |
| RoundDouble.PackValue | src/quickjs/dtoa.c:986-1001 | the packed mantissa is normalised and has exactly the value of the rounded units |
| RoundDouble.NearestDouble | src/quickjs/dtoa.c:969-1001 | no double is nearer to the exact value than the one returned |
| RoundTrip.CloseConverts | src/quickjs/dtoa.c:1217-1220 | digits within m / 2^54 units of a double convert back to it, also at binade limits and among subnormals |
| ShortDigits.MaxDigitsSuffice | src/quickjs/dtoa.c:723-725 | the table has enough digits for every radix, and mantissas of that many digits fit 63 bits |
| ShortDigits.MaxDigitsConvert | src/quickjs/dtoa.c:1180-1212 | the first try of the free format, which is not checked, converts back |
| ShortDigits.DigitsInRange | src/quickjs/dtoa.c:1194-1206 | at most one correction of the exponent is needed, and then the mantissa has the right number of digits |
| DtoaRoom.RoundingFits | src/quickjs/dtoa.c:64 | rounding to P digits needs at most 52 limbs, for every double and radix |
| DtoaRoom.ConvertingFits | src/quickjs/dtoa.c:64 | so does converting digits back |
| FreeFormat.DecodeIsDouble | src/quickjs/dtoa.c:1121-1166 | the mantissa and exponent taken from the bits are a double with a normalised mantissa, also if it is subnormal |
| LogEstimate.EstimateIsFloor | src/quickjs/dtoa.c:458-488 | the exponent estimate is the exact logarithm rounded down, for every double and every radix, with the table or by exact division |
| LogEstimate.Certify | src/quickjs/dtoa.c:460-472 | fractions on both sides of the logarithm, proved by comparing powers, that are near enough to the entry of the table |
| FreeFormat.FreeDigits | src/quickjs/dtoa.c:1176-1236 | the chosen digits convert back to the double, have no zero at the end, and the double rounded to one digit less does not convert back |
| Atod.ParseDigits | src/quickjs/dtoa.c:1461-1607 | for a radix that is a power of two the bits are those of the nearest double to the exact value of all the digits, ties to even, zero and infinity included |
| Atod.Accumulate | src/quickjs/dtoa.c:1461-1498 | the number holds the first digits, and the extra bits tell whether all others are zero |
| Atod.MulBase | src/quickjs/dtoa.c:1332-1351 | the number times the base plus a limb, where base zero stands for 2^32 |
| Atod.ToBitsDecodes | src/quickjs/dtoa.c:1592-1607 | taking the assembled bits apart gives the mantissa and exponent back |
| Atod.ValueOfBits | src/quickjs/dtoa.c:1121-1166 | bits stand for the number that the IEEE format says, normal or subnormal |
| Atod.BitsOrdered | src/quickjs/dtoa.c:1592-1607 | greater bits stand for greater numbers |
| Atod.PrintThenParse | src/quickjs/dtoa.c:1176-1236 | for a radix that is a power of two, the printed digits are parsed to the same double |
| Atod.NearestBitsMeans | src/quickjs/dtoa.c:1592-1607 | as real numbers: no finite double is nearer to the value of the digits than the result, and infinity results exactly from half a unit beyond the largest double on |
| NumberText.ScanDigits | src/quickjs/dtoa.c:1443-1494 | the two loops stop at the first character with which the number does not go on: a digit, a first point, or an underscore in front of a digit; they find the significant digits, of the values of their places in the alphabet, and the place of the point |
| NumberText.DigitValue | src/quickjs/dtoa.c:1320-1330 | a character is a digit of some value exactly if it is at that place of one of the two alphabets, and none exactly if it is in neither |
| NumberText.ParseText | src/quickjs/dtoa.c:1443-1607 | the same text is read, and the result is nearest to the value of its digits, leading zeros and point included |
| RealValue.NearestReal | src/quickjs/dtoa.c:969-1001 | rounding to the units of its binade gives a number to which no double is nearer |
| RealValue.OverflowsFrom | src/quickjs/dtoa.c:969-1001 | the exponent overflows exactly for values from that threshold on |
| CharSets.CharRange.Op | src/quickjs/libunicode.c:461-515 | union, intersection, exclusive or and difference of the sets of two sorted boundary lists, duplicates allowed; the result is strictly increasing |
| CharSets.Operations | src/quickjs/libunicode.c:491-507 | the four operations as truth functions, exclusive or by the union and the intersection |
| CharSets.CharRange.Compress | src/quickjs/libunicode.c:432-459 | in place, the boundaries become strictly increasing and the set stays the same |
| CharSets.CharRange.Invert | src/quickjs/libunicode.c:529-541 | the complement below UINT32_MAX |
| CharSets.CharRange.UnionInterval | src/quickjs/libunicode.h:81-87 | the set with one more interval |
| CharSets.InsideIsOdd | src/quickjs/libunicode.c:461-515 | a point is in an interval of a sorted list exactly if an odd number of boundaries is at or below it |
| CharProps.PropOps | src/quickjs/libunicode.c:1518-1592 | the stack program evaluates to the set of its expression, and stops exactly where an assertion fails |
| CharProps.EvalExpr | src/quickjs/libunicode.c:1518-1592 | the postfix form of a set expression evaluates to its set if and only if it needs at most four stack places |
| CharTables.IsInTable | src/quickjs/libunicode.c:271-345 | looking up through the index decides, for every list of run lengths and every way to pack it that gives this table, whether the character lies in a run of odd number; the reading ends before the table does |
| CharTables.Prop1 | src/quickjs/libunicode.c:1458-1503 | the expanded table is the set of the characters in the runs of odd number, for every list of run lengths packed to this table |
| CharTables.PackedScan | src/quickjs/libunicode.c:313-321 | scanning a table written from run lengths, in any admissible packing, finds exactly the characters in the runs of odd number |
| CharTables.IndexIsGood | src/quickjs/libunicode.c:271-305 | an index written from the partial sums and byte places of some of the items is one that the lookup may use |
| CaseConv.CanonicalizeChar | src/quickjs/libunicode.c:227-261 | the binary search finds the run of the character, and its entry is applied; ASCII letters are folded the same way without the table |
| CaseConv.ConvertCase | src/quickjs/libunicode.c:156-190 | the same search for the full conversions, to one or several characters |
| CaseLaws.EntryForms | src/quickjs/libunicode.c:60-149 | the upper, lower and folded forms of every character of every run that does not expand when folding |
| CaseLaws.EntryExpands | src/quickjs/libunicode.c:121-148 | for the other runs the upper case is two or three characters and folding is the lower case of each of these |
| CaseLaws.AlternatingPair | src/quickjs/libunicode.c:76-81 | both letters of a pair in an alternating run have the even one as upper and the odd one as lower case, so that each conversion undoes the other |
| CaseLaws.TripleEnds | src/quickjs/libunicode.c:82-89 | upper, title and lower case are all converted to the two ends |
| CaseLaws.ThereAndBack | src/quickjs/libunicode.c:67-75 | letters of two runs that point at each other are converted to each other and back |
| CaseLaws.FoldsByUpper | src/quickjs/libunicode.c:104-108 | in runs that fold to one above the upper case, folding is the lower case of the upper case, if that has an alternating run |
| CaseLaws.FoldsByDistance | src/quickjs/libunicode.c:99-103 | in runs that fold to 0x20 above the upper case, folding is its lower case if that is an ASCII letter, and otherwise if and only if its run has this distance |
| CaseLaws.AsciiLetters | src/quickjs/libunicode.c:158-167 | the two alphabets are converted to each other; no other ASCII character changes |
| CaseLaws.LegacyFold | src/quickjs/libunicode.c:212-223 | without the Unicode flag the canonical form is the upper case if that is one character, and not an ASCII one unless the character is ASCII itself |
| CaseLaws.UnicodeFold | src/quickjs/libunicode.c:197-211 | with it, it is the folded form if that is one character; the three pairs with the same folding to several have the same canonical form |
| CaseConv.Case1 | src/quickjs/libunicode.c:552-613 | adds the boundaries of the selected runs, alternating characters one by one |
| CaseConv.CaseMembers | src/quickjs/libunicode.c:552-613 | these boundaries denote exactly the marked characters of the runs |
| CaseConv.UnmarkedStays | src/quickjs/libunicode.c:546-550 | a character of a run that is not marked is not changed by any of the selected conversions |
| CaseConv.UnaffectedStays | src/quickjs/libunicode.c:670-685 | a character outside the mask is its own canonical form |
| CaseFold.Canonicalize | src/quickjs/libunicode.c:658-742 | the set becomes exactly its image under `lre_canonicalize`, as a strictly increasing list |
| CaseFold.SortAndRemoveOverlap | src/quickjs/libunicode.c:622-656 | unsorted overlapping intervals become a strictly increasing list of the same set |
| CaseFold.FindRun | src/quickjs/libunicode.c:694-703 | the search for the run of a character goes on from the run before and never leaves the table |
| Normalize.NormalizationKeeps | src/quickjs/libunicode.c:1171-1242 | the decomposition of the composed text is the decomposition of the input, if and only if that has no L, V and U+11A7 in a row |
| Normalize.DropIsLost | src/quickjs/libunicode.c:1156-1169 | every L and V followed by U+11A7 is an input whose composition decomposes to something else |
| Normalize.NFCIs | src/quickjs/libunicode.c:1212-1242 | the composed form is the one text in which every character has joined the last starter if and only if it is not blocked from it and they have a composition, by table or by Hangul |
| Normalize.ComposedIs | src/quickjs/libunicode.c:1212-1242 | so it is for every decomposed text in canonical order |
| Normalize.PairIsComposed | src/quickjs/libunicode.c:1156-1169 | a starter and a character with an entry in the table of pairs become that entry |
| Normalize.SyllableIsComposed | src/quickjs/libunicode.c:1156-1169 | two and three Hangul letters become their syllable |
| Normalize.DecompReplaces | src/quickjs/libunicode.c:1127-1153 | a character may be replaced by its decomposition, from the table or into Hangul letters, anywhere in a text without changing its full decomposition |
| Normalize.Normalizer.Normalize | src/quickjs/libunicode.c:1171-1242 | the program computes the decomposed form, or the composition of it by the rule of the Unicode Standard, leaves Latin-1 alone for NFC, and keeps the decomposition under the same condition |
| Normalize.Normalizer.ToNfd | src/quickjs/libunicode.c:1127-1153 | the recursion appends the full decomposition |
| Normalize.Normalizer.SortCc | src/quickjs/libunicode.c:1091-1125 | in place, the text is put into canonical order |
| Normalize.Normalizer.ComposeInPlace | src/quickjs/libunicode.c:1212-1242 | the loop over one buffer, writing behind its reading position, computes the composition |
| Normalize.PairDecomposes | src/quickjs/libunicode.c:1156-1169 | a composed pair decomposes to its parts, except that U+11A7 after an LV syllable is lost |
| CanonicalOrder.OrderMove | src/quickjs/libunicode.c:1091-1125 | moving a combining character in front of others of lower classes does not change the canonical order |
| CanonicalOrder.OrderDetermined | src/quickjs/libunicode.c:1091-1125 | the canonical order is the one text in order in which starters keep their places among the characters of each class, and those of a class keep their order |
| Rqsort.Sort | src/quickjs/cutils.c:514-631 | the array becomes a sorted permutation, for every comparator that is a total preorder, within 50 stack entries |
| Rqsort.DepthsPush | src/quickjs/cutils.c:608-623 | stacked depths increase strictly, so that a further segment always fits |
| SortPartition.Partition | src/quickjs/cutils.c:545-607 | below, equal and above the pivot are in place after swapping the shorter blocks; the segment is a permutation |
| HeapSort.Heapsortx | src/quickjs/cutils.c:472-504 | the segment becomes a sorted permutation |
| Rqsort.InsertionSort | src/quickjs/cutils.c:625-629 | so it does here |
| Rqsort.Med3 | src/quickjs/cutils.c:506-511 | the element chosen lies between the two others |
| Utf8.EncodeThenDecode | src/quickjs/cutils.c:206-306 | decoding an encoding, whatever follows it, gives the code back and takes exactly its bytes |
| Utf8.DecodeThenEncode | src/quickjs/cutils.c:250-306 | what the decoder accepts is the encoding of the code it returns |
| Utf8.Encode | src/quickjs/cutils.c:206-240 | the nested branches write that encoding |
| Utf8.Decode | src/quickjs/cutils.c:250-306 | the loop accepts and computes what the definition says |

## Where code and comments differ

- The comment of `mul_pow` gives the exponent offset with the sign reversed; the model follows its use: the result is
  to be multiplied by 2^-eOffset.
- `compose_pair` accepts U+11A7 after an LV syllable and drops it; `Normalize.NormalizationKeeps` has the exact
  condition, `Normalize.DropIsLost` the inputs.
- `re_string_find2` puts a string into the first bucket of a table that has been emptied; `StringList.StringList.FindOrAdd` has the
  exact condition, `StringList.AddToEmptied` the effect. The parser does not add to such tables.
- Stepping back over a surrogate pair undoes stepping forward only from a code point boundary; `Exec` requires the
  start to be one.

## Left out

- Concrete regular expression syntax, group names and error messages: patterns are trees, classes already
  canonicalised when case is ignored.
- Classes with strings inside of a lookbehind: the code emitted for them does not step back over a whole string.
- Class escapes, nested classes and set operations inside of classes, as far as they are parsed; `RegexFold.ParseClass` has
  characters and ranges.
- Allocation failure, time limits, C stack checks and dump functions.
- The contents of the generated Unicode tables: decompositions, classes, pairs and case runs are parameters with stated
  properties (`Normalize.GoodTables`, `CaseConv.GoodData`); `unicode_compose_pair` and `unicode_decomp_char` are not part
  of this model beyond those properties.
- Atod.ParseDigits: covers radixes that are powers of two, for exponents whose int arithmetic does not wrap; other radixes
  truncate after a fixed number of digits and then use `MulPowRoundToD`.
- NumberText.ParseText: starts behind the sign and the prefix and takes the exponent as a number.
- RoundDouble.RoundToD: a zero mantissa shifted by more than 63 places, as happens for values below 2^-1085, stays
  zero; C leaves such a shift undefined.
- LimbLoops.Div1Norm: models the call in place, for which alone the function divides the shifted number.
- The other output formats of `js_dtoa`, its direct printing of small integers, `output_digits` and the integer
  printing functions.
- RegexExec.Exec: the loop is bounded by the length of the run that `ExecCorrect` provides; no bound in terms of the
  input is given.
- Rqsort.Sort: works on elements of any type instead of bytes of a given size; block exchanges are element by element.
- Utf8.Encode: returns the bytes instead of writing them through a pointer.

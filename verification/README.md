# Verification of the QuickJS algorithmic core

This project models four parts of QuickJS in Dafny and proves what they promise:

- **Regular expressions** (`libregexp.c`). Patterns are a datatype; a compiler appends, inserts, copies and rotates
  blocks of bytes in a buffer; an interpreter runs the bytes with a stack of choice points. A reference matcher lists
  the matches of a pattern in the order of backtracking, in the style of section 22.2.2 of ECMA-262. `CodeCorrect` shows
  that compiled code produces exactly that list, and `LreExec` carries it down to the bytes and the loop that runs them.
  The stack analysis, the advance analysis, the one-instruction greedy loop, relocation and the surrogate-pair invariant
  each have their own theorem.
- **Numbers** (`dtoa.c`). Multi-limb arithmetic, division by a multiplied inverse, scaling by powers with a sticky bit,
  rounding to a double, printing and reading. `MulPowRoundToD` is correctly rounded for all inputs, `FreeDigits` finds
  digits that round back and cannot be shortened by one, `RoundTrip` takes every double through its text and back in all
  radices and layouts, `Atod` states exactly when the digits kept are read as the number they stand for, and `ScanExact`
  which texts are numerals.
- **Code point sets** (`libunicode.c`, `libunicode.h`, `unicode_gen.c`). Boundary lists and their set algebra, case
  folding of sets, indexed property tables with their generator, and canonical decomposition. The tables are parameters
  with well-formedness predicates, so that the theorems hold for every table.
- **Sorting** (`cutils.c`). The introsort with its stack of 50 segments, heapsort and insertion sort, with a comparator
  that may change its answers between calls.

Code that changes buffers in place is modelled by classes and methods with loops, proved against functions on values;
the theorems are about those functions and about whole runs.

Three findings about the code are kept as they are.

Captures of a repeated pattern are reset once before a repetition of minimum zero and not at all in one of minimum one
or more (`libregexp.c:2221-2230`), where section 22.2.2.3.1 of ECMA-262 resets them in every iteration. The reference
matcher `Match` follows the code, and `EcmaMatch` follows the standard. `StaleCapture` and `StaleReference` are inputs
on which they differ. An analysis of the pattern, `After`, names the groups that may keep a capture of an earlier
iteration; a group is safe, for example, when every further iteration sets it, or when nothing around it is repeated.
For every pattern in which no back reference may read such a group, code and standard have the same matches up to the
captures of the groups named (`AlmostConforms`), and the same altogether when none is named (`Conforms`);
`CompileAndExec` carries this down to the bytes. For plain patterns, without back references, assertions, lookarounds,
modifiers and empty repetitions, the condition is exact (`ConformsExactly`): every group named is the reason of a
difference on some subject. It is exact for the list of all matches. The first match alone may hide a stale group, as
in `(?:(a)|a)*`, where the second alternative is never first.

The reader computes exponents in 32-bit integers that wrap around (`dtoa.c:1571-1583`), so that some numerals with
nine- or ten-digit exponents are read as zero where they should overflow, or the other way round. `Atod` gives the exact
condition for the digits kept, `ReadsExactlyIff` the same on integers, `BinaryReads` by the leading bit for power-of-two
radices, and `ReadingLimits` in terms of digit count, point and exponent, with failing inputs.

Radices that are not powers of two keep a limited number of digits, 38 in decimal, and ignore the others
(`dtoa.c:726-733`), as ECMA-262 allows. `CutExactly` says what is lost, `ShortReads` that nothing is when the others are
zeros, and `LongDecimal` is an input that is rounded differently.

Allocation always succeeds and timeouts never fire in the model.

| area | files |
|---|---|
| regular expressions | `Regexp*.dfy`, `CharSet.dfy` |
| numbers | `Limb*.dfy`, `BigNumbers.dfy`, `Rounding.dfy`, `FloorLog.dfy`, `ConversionTables.dfy`, `Scaling.dfy`, `Doubles.dfy`, `DoubleBits.dfy`, `Printing.dfy`, `DigitOutput.dfy`, `Reading*.dfy`, `NumberText.dfy`, `NumberGrammar.dfy`, `WrittenNumbers.dfy`, `NumberPrinting.dfy` |
| code point sets | `CharRanges.dfy`, `CaseFolding.dfy`, `CaseLaws.dfy`, `CaseSets.dfy`, `Overlaps.dfy`, `PropertyTables.dfy`, `PropertyBuilder.dfy`, `Normalization.dfy` |
| sorting | `Sorting.dfy`, `QuickSort.dfy` |
| arithmetic | `Basics.dfy`, `Int32.dfy`, `Powers.dfy`, `RealPowers.dfy` |

`dafny verify dfyconfig.toml` verifies everything.

## Model

| member | source | states |
|---|---|---|
| RegexpText.NextThenPrev | libregexp.c:2558-2639 | from a character boundary GET_CHAR lands on a boundary, and stepping back returns to it and reads the same character |
| RegexpText.PrevThenNext | libregexp.c:2558-2639 | from a boundary GET_PREV_CHAR lands on a boundary, and stepping forward returns to it and reads the same character |
| RegexpText.CharsSnoc | libregexp.c:2558-2639 | the characters between two positions are the same read forward and backward |
| RegexpText.CharsEncode | libregexp.c:2558-2639 | encoding the characters read from a UTF-16 text gives its units back; other texts are read unit by unit |
| RegexpText.CharsJoined | libregexp.c:2558-2639 | no two characters read in a row are the halves of a surrogate pair |
| RegexpText.ForwardThenBackward | libregexp.c:2785-2795 | stepping back over n characters just read returns to the start, for every n and every boundary |
| CharSet.InSetIsInterval | libunicode.c:462-515 | for a nondecreasing boundary list of even length, an odd number of points at or below x means that x lies in one of its intervals, and conversely |
| RegexpLeaves.EmitRangeAccepts | libregexp.c:1165-1199 | the 16-bit or 32-bit range opcode emitted for a set accepts c if and only if c is in the set, including the 0xffff-means-infinity rule and the empty set |
| RegexpInterpreter.SearchPairs | libregexp.c:3022-3100 | binary search over sorted inclusive pairs finds c if and only if some pair holds it |
| RegexpInterpreter.TestRange16 | libregexp.c:3022-3062 | the 16-bit test equals membership in the pairs, with its special first comparison and 0xffff as infinity |
| RegexpInterpreter.TestRange32 | libregexp.c:3063-3100 | the 32-bit test equals membership in the pairs |
| RegexpInterpreter.CompareForward | libregexp.c:2975-3021 | the forward back-reference loop ends at q if and only if whole characters lead from its start to q and repeat the captured characters, up to case |
| RegexpInterpreter.CompareBackward | libregexp.c:2975-3021 | the backward loop ends at q if and only if whole characters lead back to q and, read forward, repeat the captured characters, up to case |
| RegexpLaws.RefForwardIff | libregexp.c:2989-3003 | the reference comparison succeeds with q exactly for the q whose characters from the start on have the canonical forms of the captured ones |
| RegexpLaws.RefBackwardIff | libregexp.c:3004-3018 | the same backward |
| RegexpLaws.MatchRefIff | libregexp.c:2975-3021 | a back reference to a set group matches exactly the stretches between character boundaries, in the matching direction, that repeat its characters up to case; one to an unset group matches the empty string |
| RegexpLaws.WordCharIff | libregexp.c:2550-2556 | is_word_char accepts exactly the class of word characters |
| RegexpLaws.MatchCharIff | libregexp.c:2813-2900 | a character, dot or class matches exactly the stretches of one character that it takes, up to case for a character |
| RegexpLaws.LineStartIff | libregexp.c:2869-2878 | the start of the subject, or in multi-line mode a place behind one of the four line terminators |
| RegexpLaws.LineEndIff | libregexp.c:2879-2888 | the end of the subject, or in multi-line mode a place before a line terminator |
| RegexpLaws.WordBoundaryIff | libregexp.c:2944-2973 | whether the character before and the one behind, in canonical form if case is ignored, are of the class of word characters |
| RegexpLaws.UpdateIs | libregexp.c:1782-1790 | the modifiers in force are those before and those added, without those removed |
| RegexpLaws.CanonFree | libregexp.c:1883-1897 | where case is not ignored, the matches of a pattern do not depend on the canonicalisation |
| RegexpLaws.RemovedCase | libregexp.c:1883-1897 | under a removed i the matches depend neither on the canonicalisation nor on whether i was on outside |
| RegexpInterpreter.ResetLoop | libregexp.c:2901-2920 | unsets exactly the captures of the given groups |
| RegexpMatcher.Match | libregexp.c:2221-2230 | the reference: every match of a pattern, best first, stays in bounds and on character boundaries and moves only in the matching direction; captures are reset once before a repetition of minimum zero and not at all in any other, as the code does |
| RegexpMatcher.Iterate | libregexp.c:2929-2944 | the reference repetition: iterations beyond the minimum that do not move are rejected |
| RegexpBytecode.FetchEncoded | libregexp.c:583-617 | decoding undoes encoding for every instruction whose operands fit, wherever it sits in a buffer |
| RegexpLeaves.OneCharExec | libregexp.c:1812-1821 | code of a one-character pattern, forward or wrapped in two steps back, does what the reference character match does |
| RegexpLoops.ProducesCheck | libregexp.c:2938-2944 | check_advance lets through exactly the states that moved away from the position pushed |
| RegexpLoops.OnceCorrect | libregexp.c:2233-2246 | a split around the atom produces the zero-or-one iterations in greedy or lazy order |
| RegexpLoops.StarCorrect | libregexp.c:2233-2246 | a split and a jump back produce all iterations, in order, although the loop has no counter |
| RegexpLoops.CountedCorrect | libregexp.c:2247-2263 | with a counter k on the stack, split, loop and drop produce at most k optional iterations |
| RegexpLoops.BackSplitCorrect | libregexp.c:2264-2267 | the compact form of plus: behind an atom that always moves, a split back to it produces the further iterations |
| RegexpLoops.ExactCorrect | libregexp.c:2271-2280 | with a counter k on the stack, loop produces exactly k iterations before what follows |
| RegexpQuantifiers.LoopsLoaded | libregexp.c:2215-2306 | every shape of quantifier code, with its copied atom, produces the iterations of the reference |
| RegexpAdvance.AdvanceSound | libregexp.c:1494-1558 | whenever the scan says that no advance check is needed, every match of the atom moves away from where it started, hence strictly in the matching direction |
| RegexpAdvance.StraightAdvance | libregexp.c:1494-1558 | for patterns without alternatives, lookarounds and repetitions the scan asks for a check if and only if the pattern names no character |
| RegexpAdvance.SimpleCount | libregexp.c:1560-1607 | characters and assertions in a row are a simple atom of as many characters as they name |
| RegexpAdvance.GreedyUsed | libregexp.c:2178-2206 | a greedy repetition of such an atom is compiled to the one-instruction loop with its number of characters |
| RegexpAdvance.QuantPredictable | libregexp.c:1498-1558 | a quantified atom that the scan still accepts was dropped or kept as it is |
| RegexpGreedy.SimpleMatch | libregexp.c:1560-1607 | a pattern whose code is simple has at most one match, and it is the straight run of its code |
| RegexpGreedy.RunsReturn | libregexp.c:2785-2795 | giving back all repetitions, char_count characters each, returns to where they started |
| RegexpGreedy.IterateIsRetries | libregexp.c:2775-2797 | the reference iterations of a simple atom are the retries of the greedy choice point: same positions, same order, ending exactly at the minimum |
| RegexpGreedy.GreedyCorrect | libregexp.c:3107-3149 | the one-instruction greedy loop produces the same states in the same order as the general loop, for every minimum and maximum |
| RegexpCorrect.CodeCorrect | libregexp.c:2118-2387 | for every pattern of characters, classes, assertions, groups, back references, alternatives, modifiers, lookarounds and quantifiers, in both directions and wherever it is loaded, the emitted code produces exactly the matches of the reference, in order |
| RegexpCorrect.LookCorrect | libregexp.c:2851-2862 | a lookahead or lookbehind takes the first match of its body, drops the choice points of the body, and goes on from where it started; a negative one restores the captures |
| RegexpCorrect.GroupCorrect | libregexp.c:1951-1966 | a group records its end positions in the order of the matching direction |
| RegexpCorrect.OrCorrect | libregexp.c:2355-2387 | alternatives are tried left to right |
| RegexpExec.ExecCorrect | libregexp.c:2483-2505 | a compiled program ends, with the first of all matches, or with none if and only if there are none |
| RegexpExec.Leftmost | libregexp.c:2483-2491 | the result is a match at the leftmost character position that has one, and the first one there |
| RegexpExec.NeverCrashes | libregexp.c:2725-3154 | no point of any run of a compiled program fetches outside the code, underflows the stack or touches a capture out of range |
| RegexpExec.StepNoSplit | libregexp.c:2558-2639 | no step of any program, compiled or not, moves the position or a capture into the middle of a surrogate pair |
| RegexpExec.RunsNoSplit | libregexp.c:3192-3198 | hence no run from a boundary ever does |
| RegexpExec.StartPos | libregexp.c:3192-3198 | a start inside a surrogate pair is moved back to the boundary before it |
| RegexpStandard.EcmaMatch | libregexp.c:2221-2230 | a second reference, with the captures of a repeated pattern unset in every iteration as section 22.2.2.3.1 of ECMA-262 requires: every match stays in bounds and on character boundaries and moves only in the matching direction |
| RegexpStandard.EcmaRepeat | libregexp.c:2221-2230 | RepeatMatcher of that section, with the same bounds |
| RegexpStandard.Agree | libregexp.c:2215-2306 | for every pattern, from corresponding states, unless a back reference may read a stale capture: the matches of the code and of the standard correspond one to one and in order, at the same positions and with the same captures except for the groups that the analysis After names, which the standard may leave unset |
| RegexpStandard.AfterBelow | libregexp.c:2221-2230 | nothing but the groups of a pattern becomes stale in it |
| RegexpDeviations.AfterIsStale | libregexp.c:2221-2230 | on plain patterns the analysis splits into one yes-or-no question for each group |
| RegexpDeviations.AnyRun | libregexp.c:2118-2387 | every plain pattern matches some word wherever it stands in a subject |
| RegexpDeviations.SetRun | libregexp.c:1951-1966 | every group of a plain pattern is set by some match |
| RegexpDeviations.StaleRun | libregexp.c:2221-2230 | every group that may be stale is stale after some match: the code reports an earlier iteration where the standard reports nothing |
| RegexpConformance.AlmostConforms | libregexp.c:2215-2306 | the matches of the code are those of the standard, one by one, except for stale groups |
| RegexpConformance.Conforms | libregexp.c:2215-2306 | if the analysis names no group, the two lists of matches are equal, for every pattern, direction, subject and start |
| RegexpConformance.ConformsExactly | libregexp.c:2215-2306 | for plain patterns, which are built from characters, classes, sequences, alternatives, groups and repetitions of non-empty patterns, the code agrees with the standard on all subjects if and only if the analysis names no group |
| RegexpConformance.OnceNotStale | libregexp.c:2215-2230 | in a pattern that repeats nothing more than once no group can be stale, with back references and lookarounds too |
| RegexpConformance.OnceConforms | libregexp.c:2215-2230 | so all its matches are those of the standard |
| RegexpConformance.Deviation | libregexp.c:2221-2230 | for every stale group of a plain pattern there is a subject on which the lists of matches differ |
| RegexpConformance.ResultAgrees | libregexp.c:2483-2505 | a search finds a match if and only if the standard does, at the same place, with the same captures except for stale groups, and the same captures altogether when there are none |
| RegexpConformance.StaleCapture | libregexp.c:2221-2230 | on ab a repetition of the alternatives (a) and b, with minimum zero, one or two, reports the a of the first iteration, where the standard reports no capture |
| RegexpConformance.StaleReference | libregexp.c:2221-2230 | on ab the same repetition with minimum zero, followed by a back reference to the group, matches the empty string, where the standard matches all of ab |
| RegexpLayout.OkShift | libregexp.c:117-125 | a block keeps its jump targets and stack depths wherever it is moved to |
| RegexpLayout.CodeBlock | libregexp.c:2191-2305 | in the code of every pattern each relative jump targets the start of an instruction of the same block or its end, with the same stack depth on both paths, and the block leaves the stack as it found it |
| RegexpLayout.ProgramBlock | libregexp.c:2483-2505 | a whole program is such a block followed by the final match |
| RegexpStack.StepDepth | libregexp.c:2753-2810 | every step, including backtracks and lookahead exits, keeps the stack at the depth the scan computed for the new address |
| RegexpStack.StackExact | libregexp.c:2389-2434 | at every point of every run the stack has exactly the scanned depth, enough for the instruction, and at most the size in the header |
| RegexpStack.DepthReached | libregexp.c:2389-2434 | the greatest depth is the depth at some point of the scan |
| RegexpBuffer.ComputeStackSize | libregexp.c:2389-2434 | the byte scan returns the greatest depth, or fails exactly when it exceeds the limit, and never underflows on compiled code |
| RegexpBuffer.NeedCheckAdvanceScan | libregexp.c:1494-1558 | the byte scan computes the advance analysis of the instructions |
| RegexpBuffer.SimpleQuantifierScan | libregexp.c:1560-1607 | the byte scan computes the number of characters of a simple block, or rejects it |
| RegexpCompiler.Compiler.Put | cutils.h:286-306 | appends bytes |
| RegexpCompiler.Compiler.PutOpU32 | libregexp.c:588-596 | appends an opcode and a 32-bit operand, and returns the position of the operand |
| RegexpCompiler.Compiler.Insert | libregexp.c:117-125 | opens a gap and keeps the bytes before and after it |
| RegexpCompiler.Compiler.Rotate | libregexp.c:2338-2350 | moves the last term before the earlier ones, through the space after the end |
| RegexpCompiler.Compiler.EmitCharOp | libregexp.c:1208-1214 | appends the encoded character opcode |
| RegexpCompiler.Compiler.EmitRangeOp | libregexp.c:1165-1199 | appends the encoded range opcode, 16-bit or 32-bit |
| RegexpCompiler.Compiler.EmitSimpleLoop | libregexp.c:2182-2206 | wraps the atom into the encoded one-instruction loop |
| RegexpCompiler.Compiler.EmitMaybe | libregexp.c:2233-2246 | inserts and appends the encoded zero-or-one or zero-or-more loop |
| RegexpCompiler.Compiler.EmitCounted | libregexp.c:2247-2263 | inserts and appends the encoded counted loop |
| RegexpCompiler.Compiler.EmitExact | libregexp.c:2271-2280 | inserts and appends the encoded mandatory loop |
| RegexpCompiler.Compiler.EmitOptional | libregexp.c:2281-2305 | appends the optional loop with a copy of the atom |
| RegexpCompiler.Compiler.EmitQuantifier | libregexp.c:2178-2307 | the buffer afterwards is the buffer before plus the encoded quantifier code, for every minimum, maximum and greediness |
| RegexpCompiler.Compiler.CompileCat | libregexp.c:2321-2353 | a sequence, rotated term by term when matching backward, is the encoding of its code |
| RegexpCompiler.Compiler.CompileOr | libregexp.c:2355-2387 | inserting a split and patching a jump gives the encoding of the alternatives |
| RegexpCompiler.Compiler.CompileGroup | libregexp.c:1951-1966 | a capture group is the encoding of its code |
| RegexpCompiler.Compiler.CompileLook | libregexp.c:1905-1928 | a lookaround, with its patched jump, is the encoding of its code |
| RegexpCompiler.Compiler.CompileRepeat | libregexp.c:2178-2307 | a repetition is the encoding of its code |
| RegexpCompiler.Compiler.Compile | libregexp.c:1792-2387 | the buffer grows by exactly the encoded code of the pattern; it fails exactly when there are too many capture groups |
| RegexpLoader.LayoutFetch | libregexp.c:2738-2741 | decoding the bytes at the address of an instruction gives that instruction back |
| RegexpLoader.CodeEncodable | libregexp.c:2436-2449 | every operand of a compiled pattern fits its field as long as the code is below the size limit of the buffer |
| RegexpLoader.LreCompile | libregexp.c:2451-2530 | the compiled bytes encode the program of the pattern, the header holds its capture count and its greatest stack depth, and compilation fails exactly for too many groups, too deep nesting or code longer than the buffer may grow |
| RegexpInterpreter.Interpreter.ExecLocal | libregexp.c:2813-3106 | one character, assertion, capture or back-reference instruction does what the transition system says |
| RegexpInterpreter.Interpreter.ExecInstr | libregexp.c:2725-3154 | one instruction follows the transition system |
| RegexpInterpreter.Interpreter.ExecQuant | libregexp.c:3107-3149 | the greedy loop instruction and its single choice point follow the transition system |
| RegexpInterpreter.Interpreter.Recurse | libregexp.c:2749-2812 | unwinding after a match or a failure resumes the state the transition system resumes |
| RegexpInterpreter.Interpreter.Retry | libregexp.c:2775-2797 | the greedy choice point gives back one repetition, stepping back char_count characters |
| RegexpInterpreter.Interpreter.Exec | libregexp.c:2725-3154 | the loop returns the captures exactly when the transition system ends in a match |
| RegexpInterpreter.CompileAndExec | libregexp.c:2451-3204 | compiling a pattern to bytes and running them gives the first match of the reference at the leftmost position, or none if and only if it has none; compilation fails exactly for too many groups, too deep nesting or too much code; by ECMA-262 the match is at the same place with the same captures except for stale groups, and the same altogether when the analysis names none |
| RegexpInterpreter.LreExec | libregexp.c:3156-3204 | running the bytes of a compiled pattern from an index returns the captures of the first match at the leftmost position, or fails if and only if the reference has no match |
| RegexpClasses.FoldingWf | libunicode.c:227-261 | every well-formed table gives a canonicalisation that maps code points to code points |
| RegexpClasses.FoldedClassAccepts | libregexp.c:1165-1199 | the range opcode of a folded set accepts c if and only if some member of the original set has the same canonical form |
| RegexpClasses.CompileFolded | libregexp.c:346-350 | folds a set in place and emits it: an error exactly for 65535 intervals or more, else bytes whose opcode accepts exactly the characters that agree with a member up to case |
| LimbDivision.UDiv1NormInit | dtoa.c:105-114 | the inverse is the quotient of 2^64 - 1 by d, less 2^32 |
| LimbDivision.UDiv1NormExact | dtoa.c:116-134 | for every normalised divisor, high word below it and low word, the wrapped 32-bit computation returns the true quotient and remainder |
| Limbs.MpAddUi | dtoa.c:74-89 | the list afterwards plus the carry is the old value plus b |
| Limbs.MpMul1 | dtoa.c:91-104 | the list and the carry are the value times b plus l |
| Limbs.MpShl | dtoa.c:169-183 | the list and the bits out are the value times 2^shift plus the bits in |
| Limbs.MpShr | dtoa.c:151-167 | the list is the shifted value and the bits shifted out are returned |
| Limbs.MpDiv1 | dtoa.c:136-149 | quotient and remainder of the multi-limb division by a limb |
| Limbs.MpDiv1Norm | dtoa.c:185-198 | in-place division by the shifted, inverted divisor returns the exact quotient and remainder by the unshifted one |
| BigNumbers.Mpb.SetU64 | dtoa.c:418-431 | the number becomes the 64-bit value, without leading zero limbs |
| BigNumbers.Mpb.GetU64 | dtoa.c:433-445 | returns the value modulo 2^64 |
| BigNumbers.Mpb.Renorm | dtoa.c:213-218 | drops leading zero limbs and keeps the value |
| BigNumbers.Mpb.GetBit | dtoa.c:299-310 | the bit of weight 2^k, zero beyond the end |
| BigNumbers.Mpb.FloorLog2 | dtoa.c:447-458 | the position of the highest bit, or -1 for zero |
| BigNumbers.Mpb.RoundsUp | dtoa.c:338-372 | decides to round up exactly when the mode and the dropped bits require it |
| BigNumbers.Mpb.ShrRound | dtoa.c:312-397 | the number becomes its value over 2^shift rounded in any of the three modes; a negative shift multiplies |
| BigNumbers.Mpb.Mul1Base | dtoa.c:1332-1350 | the number becomes value * base + a, with base 0 standing for 2^32 |
| BigNumbers.MpbCmp | dtoa.c:400-416 | compares the values of two normal numbers |
| Rounding.StickyRounded | dtoa.c:947-953 | rounding the quotient with its inexactness folded into the low bit, at a bit above the lowest two, rounds the exact fraction |
| FloorLog.MulLog2RadixIsFloor | dtoa.c:460-487 | mul_log2_radix(a, r) is the floor of a / log2(r) for every radix and every a from -2048 to 2048, negative a and powers of two included |
| ConversionTables.PerLimb | dtoa.c:701-720 | the tables of digits per limb and their powers are right for every radix |
| ConversionTables.MaxDigits | dtoa.c:722-728 | the largest digit counts separate all doubles and keep mantissas below 2^63 |
| ConversionTables.LeastDigits | dtoa.c:720-724 | one digit less would not separate them |
| ConversionTables.Pow5InverseTable | dtoa.c:220-239 | the table of powers of five holds their inverses |
| Scaling.PowUi | dtoa.c:241-268 | a^b by squaring, for every result below 2^64 |
| Scaling.PowUiInv | dtoa.c:270-297 | the power, its normalising shift and its inverse, from the table or computed |
| Scaling.MulPow | dtoa.c:892-955 | for every integer a and exponent f, positive or negative, the number holds a * radix^f * 2^offset, exactly or with the inexactness in its lowest bit, and keeps the requested number of bits |
| Doubles.MulPowRound | dtoa.c:957-966 | m * 2^e * radix^f rounded to an integer in the given mode |
| Doubles.RoundToD | dtoa.c:969-1001 | the real held by a big number rounded to 53 bits, or to the reduced precision of subnormals |
| Doubles.MulPowRoundToD | dtoa.c:1003-1012 | a * radix^f rounded to a double, for every non-zero a, radix and f, in every rounding mode |
| Doubles.DoubleUnique | dtoa.c:969-1001 | a positive real rounds to one double only |
| Doubles.NearestDouble | dtoa.c:969-1001 | no double is closer to a real than the one it rounds to |
| Printing.FixedDigits | dtoa.c:1259-1276 | fixed format yields exactly P digits, radix^(P-1) <= F < radix^P, rounded half away from zero, and the estimated exponent is raised at most once |
| Printing.TryDigits | dtoa.c:1194-1206 | the candidate of P digits: rounded half to even, at the smallest exponent at which it stays below radix^P, which is the estimate or one more |
| Printing.CandidateUnique | dtoa.c:1194-1206 | the double rounded half to even to P digits, at the smallest exponent at which it stays below radix^P, is unique |
| Printing.CandidateStripped | dtoa.c:1207-1211 | without its trailing zero the candidate of P digits is the candidate of P - 1 digits |
| Printing.ChosenUnique | dtoa.c:1193-1235 | what the search is proved to find is unique |
| Printing.StripZeros | dtoa.c:1207-1211 | removes all trailing zero digits and keeps the value, a leading digit that is not zero, and the candidates of all lengths passed over |
| Printing.FirstTry | dtoa.c:1193-1214 | the digits of the first, unchecked try read back as the double: a unit of the last digit is small enough, also at a power of two and after the exponent was raised |
| Printing.CloseRounds | dtoa.c:1212-1214 | a real within half a unit of a double, a quarter below a power of two, rounds to it |
| Printing.Converts | dtoa.c:1215-1221 | the check accepts exactly the digits that round to the double |
| Printing.FreeDigits | dtoa.c:1179-1235 | the descending search, for every finite non-zero double and radix: its digits are the candidate of their length and have no trailing zero, the candidates of this and all greater lengths read back as the double, and the candidate of one digit less does not, unless there is one digit only |
| DigitOutput.LimbDigits | dtoa.c:531-587 | the last digits of a limb |
| DigitOutput.NatDigits | dtoa.c:589-697 | all digits of an integer, without leading zeros |
| DigitOutput.OutputDigits | dtoa.c:846-889 | the last n digits of a big number, by limbs, for power-of-two and other radices |
| DigitOutput.FracDigits | dtoa.c:1241-1258 | a given number of fractional digits, rounded half away from zero; one digit more than the estimate leaves room for the whole number |
| DoubleBits.DecodeSource | dtoa.c:1124-1166 | taking a pattern apart keeps its value and normalises subnormals |
| DoubleBits.DecodeAssemble | dtoa.c:1590-1606 | putting it together again gives the same pattern |
| DoubleBits.NotTooSmall | dtoa.c:1597-1600 | a non-zero rounded mantissa never has an exponent below -1073, so that branch is never taken |
| DoubleBits.AssembleCorrect | dtoa.c:1590-1606 | rounding and assembling give the pattern of the correctly rounded real, with overflow and gradual underflow |
| DigitOutput.BitsInjective | dtoa.c:1124-1166 | different finite patterns are different numbers |
| NumberPrinting.Exponential | dtoa.c:1282-1300 | d.ddd with e, p or @ and a signed exponent denotes the digits: p counts powers of two |
| NumberPrinting.Fraction | dtoa.c:1301-1306 | 0.000ddd denotes the digits |
| NumberPrinting.Whole | dtoa.c:1307-1311 | ddd.ddd and ddd000 denote the digits, also when the reader cuts the trailing zeros |
| NumberPrinting.Layout | dtoa.c:1277-1311 | the text denotes the digits and has an exponent if and only if the mode forces one or, in the automatic mode, the position of the point is outside its range; the exponent is of two in the radices 2, 4, 8 and 16; without one the text has a leading zero exactly below one, and exactly the given digits |
| NumberPrinting.IntegerText | dtoa.c:1167-1177 | the fast path prints an integer below 2^53 exactly |
| NumberPrinting.FreeText | dtoa.c:1167-1235 | the text is read as the pattern that was printed and as no other; an integer below 2^53 is shown exactly unless an exponent is forced, and any other number with the digits that the search chooses, in the layout the mode asks for |
| NumberPrinting.FixedText | dtoa.c:1259-1311 | the text has exactly P significant digits, the first one not zero, in the layout the mode asks for, and denotes the double rounded half away from zero to them |
| NumberPrinting.FreeExponent | dtoa.c:1277-1300 | in the automatic mode a free-format text has an exponent if and only if its number is below radix^-6 or from radix^FreeMax on, 10^21 in decimal |
| NumberPrinting.FixedExponent | dtoa.c:1277-1300 | with P digits if and only if it is below radix^-6 or from radix^P on |
| NumberPrinting.FracText | dtoa.c:1241-1258 | the text of the fractional format denotes the double rounded half away from zero to n digits after the point, has exactly n of them, and no superfluous leading zero |
| NumberPrinting.Dtoa | dtoa.c:1107-1317 | for every double but NaN, format, exponent mode and radix: the sign, then Infinity or a text that keeps the promise of its format, zero and forced exponents included; minus zero shows its sign only on request |
| NumberPrinting.RoundTrip | dtoa.c:1107-1619 | printing any double but NaN in free format and reading the text gives the same pattern and sign, for all 35 radices and all three exponent modes; only the sign of zero can be lost, exactly when it was not asked for |
| ReadingTables.EnoughBits | dtoa.c:730-733 | the power-of-two radices keep more bits than a mantissa and its rounding need |
| ReadingTables.Limits | dtoa.c:735-751 | from max_exponent on everything overflows, and up to min_exponent everything underflows |
| Reading.Gather | dtoa.c:1461-1495 | the big number holds the digits kept, and the flag says whether a dropped digit is not zero |
| Reading.ReadDigits | dtoa.c:1441-1504 | leading zeros are skipped and the significant digits gathered |
| Reading.ReadExponent | dtoa.c:1535-1551 | the exponent, or the overflow flag exactly from 2147483640 on |
| Reading.FinishBinary | dtoa.c:1571-1580 | the digits of a power-of-two radix, all of them through the sticky bit, times the stored exponent, correctly rounded |
| Reading.FinishOther | dtoa.c:1581-1589 | the digits kept, times the stored exponent, correctly rounded |
| Reading.Finish | dtoa.c:1499-1607 | the exponent is computed in wrapping 32-bit arithmetic, and the result is the correctly rounded number that this exponent stands for |
| Reading.Atod | dtoa.c:1440-1607 | the result is the correctly rounded number that the digits kept stand for if and only if ReadsExactly holds: the exponent above the leading digit fits 32 bits, or what is left of it overflows or underflows as the number does; ReadsExactlyIff decides it on integers |
| Reading.OutOfRange | dtoa.c:1571-1583 | a number whose exponent does not fit 32 bits overflows or underflows |
| ReadingLimits.WrappedReads | dtoa.c:1571-1583 | an exponent that wrapped is answered rightly when the wrapped one meets the guard of the same branch, and wrongly when it is clearly on the other side; BinaryReads decides the band between |
| ReadingLimits.FlaggedReads | dtoa.c:1554-1561 | the answer for an exponent that was too long is right from the guard of the overflow or underflow branch on, and wrong on the other side; BinaryReads decides the band between |
| ReadingLimits.OtherRadices | dtoa.c:1581-1588 | decimal and the other radices, every numeral that the position counter can count: with an exponent below 2147483640 in size, read exactly if and only if exponent + point - leading zeros fits 32 bits; with a larger one always, up to 2147481599 digits |
| ReadingLimits.FittingReads | dtoa.c:1567-1606 | an exponent that fits is read exactly in every radix |
| ReadingLimits.FlaggedBinary | dtoa.c:1554-1561 | power-of-two radices: the overflow flag is right for numerals of up to 2147481599 bits |
| ReadingLimits.DecimalOverflow | dtoa.c:1582-1587 | 100000000e2147483639 wraps and is read as zero |
| ReadingLimits.DecimalUnderflow | dtoa.c:1582-1587 | 0.00000000001e-2147483639 wraps and is read as infinity |
| ReadingLimits.HexadecimalOverflow | dtoa.c:1572-1579 | in radix 16, 1@600000000 is read as zero, while 1@1610612000 wraps and is right |
| ReadingLimits.OctalWrap | dtoa.c:1572-1579 | in radix 8, 1@1000000000 and its inverse are both read wrongly |
| ReadingLimits.FlaggedOverflow | dtoa.c:1554-1561 | a hexadecimal numeral of 536870912 digits whose value is one is read as infinity |
| ReadingDigits.KeptDigits | dtoa.c:726-733 | the power-of-two radices keep as many digits as fit in 64 bits, the others as many as fit in 128 |
| ReadingDigits.CutExactly | dtoa.c:1479-1505 | the digits kept stand for the number cut below the last of them, which is the number written if and only if the others are zeros |
| ReadingDigits.ShortReads | dtoa.c:1440-1607 | a numeral that loses no digit and whose exponent fits is read as the correctly rounded number it stands for |
| ReadingDigits.LongDecimal | dtoa.c:1502-1509 | 9007199254740993 with a one at the 39th digit is read as 2^53, where the number written is nearer to 2^53 + 2 |
| ReadingExact.ReadsExactlyIff | dtoa.c:1554-1589 | the exact condition in all radices, for all digits, points and exponents, compared on integers: the numeral is zero, or its exponent is too long and the number overflows or underflows, or the exponent above the leading digit fits 32 bits, or what is left of it overflows or underflows as it should |
| ReadingExact.BinaryReads | dtoa.c:1554-1580 | power-of-two radices: the same condition read off the position of the leading bit, which decides alone except in two ties, where the other bits do |
| ReadingExact.HugeIs | dtoa.c:969-1001 | a number rounds to infinity if and only if its digits, scaled to integers, reach the bound |
| ReadingExact.TinyIs | dtoa.c:969-1001 | a number rounds to zero if and only if its digits, scaled to integers, do not exceed the bound |
| NumberText.ToDigitOfChar | dtoa.c:1319-1329 | the character of a digit is read as that digit |
| NumberText.ScanDigits | dtoa.c:1441-1478 | the scanning loop takes the longest run of digits and separators and, unless only integers are read, a point with another run |
| NumberText.AtodText | dtoa.c:1353-1619 | sign, prefixes, Infinity, digits, separators, point and exponent are scanned as Scan says for all options, failures included, and the number is read from them; NumberGrammar says what that is |
| NumberText.ReadPrefix | dtoa.c:1385-1418 | the prefixes 0x, 0o, 0b and the zero of old octal numbers, as the radix and the options allow |
| NumberGrammar.ToDigitIs | dtoa.c:1319-1329 | the digits are those of the lower- and upper-case alphabets |
| NumberGrammar.MarksAre | dtoa.c:1514-1520 | an exponent starts with e or E in radix 10, else with @ and, in the radices 2, 4, 8 and 16, p or P |
| NumberGrammar.ReadsScans | dtoa.c:1353-1553 | every numeral of the grammar, with nothing behind it that continues it, is scanned as what it says, up to its end |
| NumberGrammar.ScansReads | dtoa.c:1353-1553 | every text that is scanned as a number starts with such a numeral |
| NumberGrammar.ScanExact | dtoa.c:1353-1553 | for all texts, radices and options: a number if and only if the text starts with a numeral that nothing continues, infinite if and only if it says so, else a failure |
| NumberGrammar.AtodExact | dtoa.c:1353-1619 | so what is read is nothing, infinity or the number of the numeral, with the place behind it |
| WrittenNumbers.TextPrinted | dtoa.c:1282-1300 | printed numerals have no upper-case letter |
| WrittenNumbers.ScanText | dtoa.c:1440-1553 | the text of every numeral is taken apart into that numeral |
| CharRanges.CharRange.AddPoint | libunicode.h:56-64 | appends a point |
| CharRanges.CharRange.AddInterval | libunicode.h:66-75 | appends two points |
| CharRanges.CharRange.Compress | libunicode.c:432-458 | the list becomes strictly increasing and its set stays the same |
| CharRanges.CharRange.Op | libunicode.c:462-515 | the set of the result is the union, intersection, symmetric difference or difference of the sets, and its list is strictly increasing |
| CharRanges.CharRange.Op1 | libunicode.c:517-527 | the same with this set as the first operand |
| CharRanges.CharRange.UnionInterval | libunicode.h:81-87 | adds the interval from c1 to c2, both included |
| CharRanges.CharRange.Invert | libunicode.c:529-541 | the set becomes its complement in [0, UINT32_MAX) |
| CharRanges.CharRange.InvertTwice | libunicode.c:529-541 | two inversions restore a strictly increasing list |
| CharRanges.CanonicalUnique | libunicode.c:432-458 | equal sets have equal strictly increasing lists |
| CaseFolding.Canonicalize | libunicode.c:227-261 | the binary search finds the run that a linear scan finds, for every ordered table |
| CaseFolding.RunUnique | libunicode.c:227-261 | at most one run holds a code point |
| CaseFolding.UnmaskedUnchanged | libunicode.c:59-146 | a run leaves alone the code points outside its mask |
| CaseFolding.MaskedCanonical | libunicode.c:192-261 | code points in the mask are folded by their run and all others are canonical |
| CaseFolding.CanonicalBelow | libunicode.c:192-261 | canonical forms of code points are code points |
| CaseLaws.Unpacked | libunicode.c:59-66 | the code, length, kind and data packed into a run are read back |
| CaseLaws.AlternatingPair | libunicode.c:76-81 | letters in alternating case come in pairs of one canonical form: the odd one in Unicode mode, else the even one |
| CaseLaws.AlternatingPairs | libunicode.c:76-81 | two letters of such a run agree up to case if and only if they are a pair |
| CaseLaws.ThreeForms | libunicode.c:82-89 | upper, title and lower case in a row have one canonical form: the last in Unicode mode, else the first |
| CaseLaws.ShiftedRun | libunicode.c:67-75 | a run that is mapped to another keeps the offset, for the kinds that the mode folds |
| CaseLaws.SingleLetter | libunicode.c:99-108 | single letters with forms 32 or 1 apart |
| CaseLaws.ExtraLetter | libunicode.c:109-114 | letters whose other form is an extra code point |
| CaseLaws.IotaLetter | libunicode.c:90-98 | letters with iota subscript go to a lower-case run in Unicode mode only |
| CaseLaws.SeveralForms | libunicode.c:192-208 | letters with several forms at once stay, but for three in Unicode mode |
| CaseLaws.OutsideRuns | libunicode.c:242-261 | code points outside all runs are canonical |
| CaseLaws.AsciiOthers | libunicode.c:227-240 | below 128 everything but the letters is canonical |
| CaseLaws.AsciiLetters | libunicode.c:227-240 | below 128 the letters are pairs of one canonical form, whatever the table |
| CaseLaws.MaskedMoves | libunicode.c:552-613 | in runs of pairs and of three forms the mask holds exactly the code points that are not canonical |
| CaseLaws.MaskedKindIff | libunicode.c:554-568 | the kinds in the mask are exactly those that case folding, or conversion to upper case, changes in some table |
| Overlaps.SortAndRemoveOverlap | libunicode.c:615-656 | the list becomes strictly increasing and its set is the union of the intervals |
| CaseSets.CaseMask | libunicode.c:552-613 | the mask holds exactly the code points that some run may change |
| CaseSets.ScanTo | libunicode.c:694-703 | the table scan finds the run of the code point without leaving the table, so its assertion holds |
| CaseSets.FoldSet | libunicode.c:683-721 | the intervals cover exactly the canonical forms of the masked part of the set |
| CaseSets.RegexpCanonicalize | libunicode.c:660-742 | the set becomes exactly the canonical forms of its members, strictly increasing and bounded |
| PropertyTables.GetIndexPos | libunicode.c:271-302 | the binary search returns a true decoder state at or before c, with value zero, or nothing exactly from the upper bound of the table on |
| PropertyTables.IsInTable | libunicode.c:304-345 | the lookup decodes from that state and stops inside the table, with the value the decoder gives to c |
| PropertyTables.PropScan | libunicode.c:1458-1503 | the listed intervals hold exactly the code points whose run has value one |
| PropertyBuilder.ItemDecoded | unicode_gen.c:1898-1926 | decoding an item gives the runs it encodes, in all four formats |
| PropertyBuilder.LookupEncoded | libunicode.c:304-345 | the lookup in an encoded list of runs gives the value of the run that holds the code point |
| PropertyBuilder.Pack | unicode_gen.c:1872-1937 | the packing loop encodes the runs and builds an index of true decoder states, or stops at its assertion if and only if a block has no state of value zero among its first eight bytes |
| PropertyBuilder.RunLengths | unicode_gen.c:1858-1870 | the run lengths hold exactly the code points with the property |
| PropertyBuilder.BuildAndFind | unicode_gen.c:1846-1937 | from a property to its table and back: the lookup finds exactly the code points with the property |
| PropertyTables.LookupAgrees | libunicode.c:304-345 | the indexed lookup returns true if and only if c lies in a listed interval, for every complete table with true index entries |
| Normalization.DecomposedStable | libunicode.c:1127-1153 | full decomposition leaves nothing to decompose, for every well-founded table |
| Normalization.StableFixed | libunicode.c:1127-1153 | a string with nothing to decompose is its own decomposition |
| Normalization.JamoCompose | libunicode.c:1133-1141 | the jamo of a syllable are those that make it up, and no others do |
| Normalization.HangulIff | libunicode.c:1133-1134 | the code points made up of jamo are those decomposed by rule |
| Normalization.SplitsUnique | libunicode.c:1127-1153 | however code points are replaced by their mappings or jamo, the string with nothing left to replace is the same |
| Normalization.DecomposedExact | libunicode.c:1127-1153 | a string is the full decomposition if and only if replacements lead to it and nothing is left to replace |
| Normalization.Buffer.ToNfd | libunicode.c:1127-1153 | appends the full decomposition, Hangul syllables included: what is appended is reached by replacements and has nothing left to replace |
| Normalization.ReorderedPermutes | libunicode.c:1091-1125 | ordering permutes the string |
| Normalization.ReorderedInOrder | libunicode.c:1091-1125 | afterwards no neighbours a, b have cc(a) > cc(b) > 0 |
| Normalization.ExchangeKeepsOrdering | libunicode.c:1091-1125 | exchanging a reorderable pair does not change the canonical ordering |
| Normalization.OrderingUnique | libunicode.c:1091-1125 | however reorderable pairs are exchanged, the string without any is the same |
| Normalization.OrderingReached | libunicode.c:1091-1125 | the canonical ordering is reached from the string by exchanging reorderable pairs |
| Normalization.OrderingExact | libunicode.c:1091-1125 | a string is the canonical ordering if and only if it has no reorderable pair and exchanges lead to it |
| Normalization.ReorderedStable | libunicode.c:1091-1125 | the code points of each combining class stay in their order |
| Normalization.StartersStay | libunicode.c:1091-1125 | code points of class zero stay where they are, and none else comes to a place of class zero |
| Normalization.SortCc | libunicode.c:1091-1125 | the in-place loop computes the canonical ordering |
| Normalization.Normalize | libunicode.c:1198-1213 | the NFD path returns the normal form: reached by replacing code points until nothing is left to replace, then by exchanging marks until nothing is left to exchange |
| Normalization.NfdExact | libunicode.c:1198-1213 | that is one string for every input, the one computed |
| Normalization.NfdIdempotent | libunicode.c:1198-1213 | normalising twice changes nothing more |
| Sorting.InsertionSort | cutils.c:633-637 | sorts a segment when the comparator is a total preorder, permutes it for any comparator, also one whose answers vary from call to call, and leaves the rest alone |
| Sorting.HeapSort | cutils.c:480-512 | the same for heapsort |
| QuickSort.Med3 | cutils.c:514-519 | one of the three, and a median of them for a total preorder |
| QuickSort.Part | cutils.c:557-583 | splits a segment around the pivot, with elements equal to it collected at both ends, when equal questions get equal answers; permutes it and stays inside it for any answers |
| QuickSort.SwapBlock | cutils.c:590-609 | exchanges two blocks that do not overlap |
| QuickSort.Partition | cutils.c:552-615 | below, equal to and above the pivot, in that order; at least one element is equal |
| QuickSort.SortSegment | cutils.c:539-638 | sorts or splits the segment taken from the stack; every push stays inside the 50 entries and the pending work shrinks |
| QuickSort.Rqsort | cutils.c:522-639 | for every total preorder the array is sorted; for any comparator, also one whose answers vary from call to call, the method ends, only permutes, and needs no more than the 50 entries of its stack |

## Left out

- The JavaScript engine itself (quickjs.c), its command line tools and bindings.
- The surface syntax of patterns, named groups, error messages and the nesting limit of the parser: patterns are given as trees.
- Strings in classes (`\q{...}`) and the set operations of the v flag on them: classes are sets of code points.
- The header bytes of a compiled pattern other than the capture count and the stack size.
- Allocation failure, timeouts, checks of the C stack and the capacity of the big-number buffers.
- RegexpInterpreter.Interpreter.ExecQuant: the recursive call on a simple atom works on the shared value stack in the source; simple atoms contain no stack instruction, so the model keeps the stack aside.
- RegexpLoader.LreCompile: refuses code by its length; the allocator of the source grows its buffer by half and may refuse somewhat earlier.
- RegexpConformance.ConformsExactly: for patterns that are not plain only one direction is proved, as `Conforms`; an assertion or a back reference may keep a stale group from ever being seen.
- NaN, as a value to print and as the result of a failed read.
- The claim that free-format output is the shortest possible: the search tries only the nearest candidate of each length.
- NumberText.AtodText: texts are at most 2147483647 characters long; the position reported after a failure or an infinity is not specified.
- Reading.Atod: a point more than 2147483647 digits into the numeral, where the position counter of the source turns negative, is not modelled.
- The contents of libunicode-table.h, the decoding of combining classes and of the decomposition table: they are parameters.
- Composition (NFC and NFKC), scripts, general categories, and sequence properties.
- CharRanges.CharRange.UnionInterval: the wrap of c2 + 1 at the largest 32-bit value is not modelled.
- CaseSets.CaseMask: only for the two masks that canonicalisation uses.
- The word-wise exchange functions of the sort: elements are exchanged as a whole.

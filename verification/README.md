# Verified models of wgi's guest code

wgi serves requests with WebAssembly guests. Most of what can go wrong in them is in the C code they
are compiled from: QuickJS with its multi-precision arithmetic, its regular expressions and its
sort, a JSON tokenizer, timers on a linked list; and in the server's own log forwarding. This
project models that code in Dafny and proves what it is for. Code that updates memory is modelled by
methods on arrays and objects with the source's loops; each is proved against a specification that
does not mention how it works. `dafny verify dfyconfig.toml` checks everything.

**Multi-precision arithmetic** (libbf). Numbers are little-endian limbs in arrays, limbs are 32 or
64 bits wide, and every theorem holds for both widths. Limbs, LimbOps and Division cover the carry
loops and long division, Reciprocal the Newton reciprocal and the division built on it, Sqrt the
Karatsuba square root, Bits, RoundingSpec and Rounding correct rounding to any precision, Radix the
divide-and-conquer conversions, and FastMod, NttStage, Ntt, Congruence and Polynomial the
number-theoretic transform. Arith holds shared integer facts.

**Regular expressions** (libregexp, libunicode). CharRange is the algebra of character sets, ReClass
the class instruction and its binary search, ReSyntax the code emitted for a pattern and ReCode its
bytes, ReVm the machine as a step function, ReSpec the meaning of a pattern as the ordered list of
its matches, read as compiled and as in ECMA-262. ReMoves says which expressions take characters,
ReWords what words and lines are. ReYields, ReMeaning, ReSteps, ReSimple, ReCorrect and ReTheorem
prove that compiled code finds the first match. ReLanguage says which stretches of a text an
expression describes, without order or backtracking, and proves that the matches end exactly there;
ReResults proves what a result and its captures say in those terms, ReOrder which match is first.
ReCaptures and ReEcma prove when the two readings agree, ReDiffers where they do not. ReChecks
covers the two optimisations, ReStack and ReSafety the static stack bound, ReNesting what that bound
is in terms of the pattern, ReScan the byte scans of the compiler, ReFits when code fits its fields,
ReCompiler the compiler as it edits its buffer, and ReMachine the machine as it loops over bytes.
Together, in `ReMachine.CompileAndRun`, this gives the leftmost described stretch. ReEndless shows
what happens to lazy loops whose bodies can match nothing.

**Sorting** (SortSpec, HeapSort, Rqsort), **JSON tokens** (Jsmn, JsmnParser, JsonText, JsmnExact,
JsonTokens, JsmnParts), **timers** (TimerSpec, TimerRuns, Timers) and **log lines** (LogLines) stand
alone. Basics holds bytes and options.

Four places where the code does not do what its surroundings say:

- `mod_fast` asserts moduli from 2^(LIMB_BITS - 3) on, but for that smallest one the precomputed
  inverse does not fit a limb. `FastMod.ModFastFails` gives an input, `FastMod.ModFastExact`
  shows that this modulus is the only one. The moduli in use are all larger.
- Captures inside a loop are cleared once before a loop that can be skipped, not before every
  iteration as section 22.2.2 of ECMA-262 asks. `ReEcma.SearchSame` shows agreement if every body
  that can run twice sets or clears its groups on every match (`ReEcma.LoopsRefill`);
  `ReDiffers.GroupInLoopDiffers` is a family of patterns and texts without agreement.
  `ReDiffers.DeadBranchAgrees` shows why the condition is not exact: that would need to know
  which branches can match at all.
- A greedy optional iteration that takes nothing ends the loop and is kept, where ECMA-262
  discards it. `ReEcma.MatchesPruned` shows that this makes no difference if optional iterations
  take characters (`ReMoves.LoopsAdvance`); `ReDiffers.EmptyIterationDiffers` is a family on which
  the first matches end in different places.
- The check that a loop body advances is emitted for greedy loops only. On a lazy unbounded loop
  whose body first matches nothing, and with nothing behind it matching, the machine does not
  stop (`ReEndless.LazyLoopNeverStops`, for whole patterns `ReEndless.LazyPatternNeverStops`). The
  theorems on whole runs ask that bodies of such loops take a character
  (`ReMoves.LazyLoopsMove`), and nothing of any other loop.

Conventions: parameters marked `ghost` carry proof data only. Positions into arrays replace
pointers. A comparison callback is an object whose answers may change from call to call. Clocks are
parameters. Allocation always succeeds.

## Model

| member | source | states |
|---|---|---|
| `LimbOps.Add` | examples/js/quickjs/libbf.c:1024-1040 | sum of two n-limb numbers and a carry, with the carry out; overlapping operands allowed as in the source; nothing outside the result window changes |
| `LimbOps.AddUi` | examples/js/quickjs/libbf.c:1042-1056 | one limb added in place, with the early stop; value and carry exact |
| `LimbOps.Sub` | examples/js/quickjs/libbf.c:1058-1074 | difference with borrow in and out, exact as numbers |
| `LimbOps.Neg` | examples/js/quickjs/libbf.c:1077-1092 | two's complement negation with borrow, exact as numbers |
| `LimbOps.SubUi` | examples/js/quickjs/libbf.c:1094-1109 | one limb subtracted in place, with the early stop |
| `LimbOps.ShiftRight` | examples/js/quickjs/libbf.c:1113-1127 | shift right across limbs: result, bits shifted out and bits shifted in recompose the operand |
| `LimbOps.Mul1` | examples/js/quickjs/libbf.c:1130-1142 | product with one limb plus an addend; low limbs and high limb together are exact |
| `LimbOps.AddMul1` | examples/js/quickjs/libbf.c:1145-1158 | multiply-accumulate with one limb; no carry is lost |
| `LimbOps.MulBasecase` | examples/js/quickjs/libbf.c:1161-1172 | schoolbook product: the value of the result is the product of the values |
| `LimbOps.SubMul1` | examples/js/quickjs/libbf.c:1198-1211 | multiply-subtract with one limb; the returned limb is exactly what is still owed |
| `LimbOps.Cmp` | examples/js/quickjs/libbf.c:1415-1427 | the sign decides the order of the values, and 0 means the same limbs |
| `Division.Udiv1NormInit` | examples/js/quickjs/libbf.c:1214-1220 | the inverse satisfies 1 <= B^2 - (B + r) d <= d |
| `Division.Udiv1Norm` | examples/js/quickjs/libbf.c:1224-1242 | division by multiplication: the true quotient and remainder of a1 B + a0 for every a1 < d and d >= B/2 |
| `Division.Div1Norm` | examples/js/quickjs/libbf.c:1245-1265 | division of n limbs by one normalised limb, by either method, in place or not |
| `Division.EstimateDigit` | examples/js/quickjs/libbf.c:1310-1320 | the digit estimated from the two leading limbs is the true one or at most two more |
| `Division.SubtractDigit` | examples/js/quickjs/libbf.c:1321-1341 | after the multiply-subtract the add-back loop runs at most twice and leaves the true digit and remainder |
| `Division.LeadingDigit` | examples/js/quickjs/libbf.c:1296-1308 | the leading quotient limb is 0 or 1 and leaves a remainder below the divisor |
| `Division.DivNormBase` | examples/js/quickjs/libbf.c:1275-1344 | long division: old a = q b + r with 0 <= r < b, remainder left in place |
| `Reciprocal.DivNorm` | examples/js/quickjs/libbf.c:1275-1344 | the same through whichever path the sizes select, with top quotient limb at most 1 |
| `Reciprocal.NewtonStep` | examples/js/quickjs/libbf.c:1375-1403 | one Newton step on numbers: from a reciprocal of the high half to one of the whole with error below two units |
| `Reciprocal.CorrectHigh` | examples/js/quickjs/libbf.c:1389-1393 | the decrement loop on the high half stops with a positive remainder of at most twice the divisor |
| `Reciprocal.Recip` | examples/js/quickjs/libbf.c:1351-1412 | Newton reciprocal: a r < B^(2n) < a (r + 2) and top limb 1, through the recursion, the decrement loop and the dropped carry |
| `Reciprocal.IncrementQuotient` | examples/js/quickjs/libbf.c:1496-1510 | from any quotient that is not too large, repeated correction ends in the true quotient and remainder |
| `Reciprocal.DivNormLarge` | examples/js/quickjs/libbf.c:1433-1522 | division by multiplying with the reciprocal, exact for every size, padded and truncated divisor |
| `Sqrt.StepCorrect` | examples/js/quickjs/libbf.c:1976-2042 | the Karatsuba step on numbers: half quotient at most B^l, remainder in range, and one correction makes a negative one right |
| `Sqrt.SqrtRem1` | examples/js/quickjs/libbf.c:1887-1928 | table look-up and refinements give the floor square root and remainder of a limb |
| `Sqrt.SqrtRem2` | examples/js/quickjs/libbf.c:1944-1970 | floor square root and remainder of two limbs, in word arithmetic |
| `Sqrt.HalveQuotient` | examples/js/quickjs/libbf.c:2006-2014 | halving the quotient, with the odd bit returned to the remainder, keeps the division exact |
| `Sqrt.SubtractSquare` | examples/js/quickjs/libbf.c:2025-2034 | subtracting the square of the half quotient, including the case that it is B^l |
| `Sqrt.SqrtRemRec` | examples/js/quickjs/libbf.c:1976-2042 | s s + r = a and 0 <= r <= 2 s for every length, through the recursion |
| `Sqrt.SqrtRem` | examples/js/quickjs/libbf.c:2050-2068 | the same at the entry point, remainder and its top bit left in the operand |
| `Bits.GetBitsValue` | examples/js/quickjs/libbf.c:318-339 | a window of bits at any position, also negative, is the shifted value modulo B |
| `Bits.GetBitValue` | examples/js/quickjs/libbf.c:341-348 | a single bit at any position is that bit of the value |
| `Bits.ScanBitNz` | examples/js/quickjs/libbf.c:373-391 | tells exactly whether some bit at or below a position is set |
| `Bits.TrimTop` | examples/js/quickjs/libbf.c:599-601 | leading zero limbs carry no value |
| `Bits.ShiftUp` | examples/js/quickjs/libbf.c:613-618 | in-place shift left that loses nothing |
| `Rounding.GetRndAdd` | examples/js/quickjs/libbf.c:395-446 | rounding addend and inexactness are those of the rounding direction, for all seven directions |
| `Rounding.AddUnit` | examples/js/quickjs/libbf.c:528-549 | adding one unit in place; a carry out of the top halves the limbs and is reported |
| `Rounding.KeepBits` | examples/js/quickjs/libbf.c:570-586 | clears the bits below the cut and drops low zero limbs; value kept, lowest limb not zero |
| `Rounding.Bf.SetOverflow` | examples/js/quickjs/libbf.c:448-477 | infinity or the largest finite number, as the rounding direction asks |
| `Rounding.Bf.Round` | examples/js/quickjs/libbf.c:484-589 | correct rounding of normalised limbs to a precision, with subnormals, underflow, overflow and the inexact flag |
| `Rounding.Bf.NormalizeAndRound` | examples/js/quickjs/libbf.c:592-625 | the exact value of any limbs, rounded to the stated last place: result is the rounding of the value, inexact iff it changed, top bit set and lowest limb not zero; zero, infinity or the largest number by range and direction |
| `Rounding.PlaceIs` | examples/js/quickjs/libbf.c:496-511 | the bits kept reach down to the stated place: behind the radix point, of the least normal number, or from the top |
| `Rounding.RoundsToInteger` | examples/js/quickjs/libbf.c:2299-2302 | with no digits behind the radix point the result is an integer, rounded in the direction asked for |
| `Rounding.Bf.RoundAway` | examples/js/quickjs/libbf.c:515-524 | when no bit is kept the result is one unit in the last place, or zero with underflow |
| `RoundingSpec.RoundingScales` | examples/js/quickjs/libbf.c:395-446 | rounding to integers and scaling by a power of two commute, which carries the bit decisions to real values |
| `RoundingSpec.Directions` | examples/js/quickjs/libbf.c:395-446 | every direction for signed numbers: greatest multiple at most, least at least, nearest with ties to even or away, toward and away from zero, faithful |
| `Radix.SplitSizes` | examples/js/quickjs/libbf.c:2702-2705 | at every level both parts have floor or ceiling of n0 / 2^level limbs, and only levels below ceil(log2 n0) are split |
| `Radix.LevelPower` | examples/js/quickjs/libbf.c:2707-2712 | the power cached for a level is the right one for every sub-problem of that level |
| `Radix.FromRadixRec` | examples/js/quickjs/libbf.c:2693-2729 | value of the digits, with one cached power per level and no access beyond the table |
| `Radix.FromRadix` | examples/js/quickjs/libbf.c:2732-2753 | value of the digits, for every length and radix |
| `Radix.AdjustQuotient` | examples/js/quickjs/libbf.c:3426-3441 | whatever the guess, correction ends in the true quotient and remainder |
| `Radix.ToRadixRec` | examples/js/quickjs/libbf.c:3373-3456 | writes digits below the radix whose value is the operand, whatever the quotient guesses |
| `Radix.ToRadix` | examples/js/quickjs/libbf.c:3459-3482 | digits of the operand, least significant first |
| `Radix.ThereAndBack` | examples/js/quickjs/libbf.c:3459-3482 | to-radix then from-radix is the identity |
| `Radix.BackAndThere` | examples/js/quickjs/libbf.c:2732-2753 | from-radix then to-radix gives back the same digits |
| `Radix.DigitsUnique` | examples/js/quickjs/libbf.c:3373-3456 | digits are determined by their value |
| `FastMod.FastUdivCorrect` | examples/js/quickjs/libbf.c:5464-5491 | multiply and shift is a / d for every limb a and every divisor d > 0 |
| `FastMod.AddMod` | examples/js/quickjs/libbf.c:7368-7375 | true residue of the sum |
| `FastMod.SubMod` | examples/js/quickjs/libbf.c:7378-7385 | true residue of the difference |
| `FastMod.ModFastCorrect` | examples/js/quickjs/libbf.c:7390-7406 | the reduction is the true residue for every modulus above 2^(LIMB_BITS - 3) |
| `FastMod.ModFastFails` | examples/js/quickjs/libbf.c:7418-7425 | for the smallest modulus the assertion admits, the precomputed inverse is cut to 0 and the result is wrong |
| `FastMod.ModFastExact` | examples/js/quickjs/libbf.c:7390-7425 | the reduction is correct for all inputs if and only if the modulus is not that smallest one |
| `FastMod.MulModFast2` | examples/js/quickjs/libbf.c:7429-7439 | true residue of the product |
| `FastMod.MulModFast3` | examples/js/quickjs/libbf.c:7444-7452 | true residue of the product, or that plus the modulus |
| `FastMod.InitMulModFast2` | examples/js/quickjs/libbf.c:7454-7457 | the inverse is floor(b B / m) |
| `NttStage.Butterfly` | examples/js/quickjs/libbf.c:7750-7756 | sum and twisted difference, congruent and below 2 m |
| `NttStage.Stage` | examples/js/quickjs/libbf.c:7739-7760 | one stage of butterflies keeps every residue below 2 m and writes what the stage should |
| `NttStage.StageInvariant` | examples/js/quickjs/libbf.c:7739-7760 | a stage halves every column: the outputs still to be computed stay those of the input |
| `Ntt.LastStage` | examples/js/quickjs/libbf.c:7767-7776 | the stage without twiddle factors leaves the transform in natural order |
| `Ntt.State.Transform` | examples/js/quickjs/libbf.c:7721-7778 | the discrete Fourier transform modulo m in natural order, for every length up to the table limit |
| `Ntt.State.VecMul` | examples/js/quickjs/libbf.c:7780-7801 | entry-wise product times the inverse of the length, residues below 2 m |
| `Ntt.BuildTrig` | examples/js/quickjs/libbf.c:7839-7850 | the table holds the powers of the root and their inverses |
| `Ntt.State.GetTrig` | examples/js/quickjs/libbf.c:7818-7853 | the table for an order, built once; none beyond the limit |
| `Ntt.BuildPowers` | examples/js/quickjs/libbf.c:8281-8289 | roots of all orders from the root of the largest |
| `Ntt.BuildLengthInverses` | examples/js/quickjs/libbf.c:8273-8279 | the inverses of all powers of two |
| `Ntt.State.Convolve` | examples/js/quickjs/libbf.c:7940-7970 | transform, multiply, transform back: the cyclic convolution modulo m |
| `Polynomial.Inversion` | examples/js/quickjs/libbf.c:7940-7970 | transforming with a root and then with its inverse multiplies by the length; no primality is used |
| `Polynomial.ConvolutionTheorem` | examples/js/quickjs/libbf.c:7940-7970 | the scaled product of two spectra is the spectrum of the cyclic convolution |
| `CharRange.CharRange.Realloc` | examples/js/quickjs/libunicode.c:299-314 | grows the buffer and keeps the points |
| `CharRange.CharRange.AddPoint` | examples/js/quickjs/libunicode.h:68-76 | appends a point |
| `CharRange.Compress` | examples/js/quickjs/libunicode.c:326-352 | in place: same set, canonical points |
| `CharRange.CharRange.Op` | examples/js/quickjs/libunicode.c:355-405 | exact union, intersection or exclusive or of any two sorted point lists, character by character, canonical and of even length |
| `CharRange.CharRange.Union1` | examples/js/quickjs/libunicode.c:407-417 | exact union with another set |
| `CharRange.CharRange.UnionInterval` | examples/js/quickjs/libunicode.h:91-97 | exact union with an interval |
| `CharRange.CharRange.Invert` | examples/js/quickjs/libunicode.c:419-431 | exact complement of any sorted list of intervals, empty and touching ones included |
| `CharRange.InvertTwice` | examples/js/quickjs/libunicode.c:419-431 | complementing twice gives back the same points of a canonical set |
| `CharRange.CanonicalUnique` | examples/js/quickjs/libunicode.c:326-352 | a canonical point list is determined by its set |
| `ReCode.FetchEncoded` | examples/js/quickjs/libregexp.c:394-428 | reading an instruction back from its bytes gives the instruction |
| `ReClass.ClassExact` | examples/js/quickjs/libregexp.c:821-857 | the emitted class instruction accepts exactly the characters of the set, 0xffff standing for no end |
| `ReClass.Search16` | examples/js/quickjs/libregexp.c:2367-2406 | binary search in 16-bit ranges finds a character exactly if a range holds it, with the open end |
| `ReClass.Search32` | examples/js/quickjs/libregexp.c:2407-2443 | the same in 32-bit ranges |
| `ReScan.IsSimpleQuantifier` | examples/js/quickjs/libregexp.c:1034-1071 | the byte scan counts the characters of straight-line code, -1 for any other |
| `ReScan.CheckAdvanceScan` | examples/js/quickjs/libregexp.c:950-1030 | the byte scan decides whether the code certainly advances |
| `ReScan.ComputeStackSize` | examples/js/quickjs/libregexp.c:1773-1815 | the byte scan returns the maximum of the linear counter depth, -1 above 255 |
| `ReChecks.AdvanceSound` | examples/js/quickjs/libregexp.c:950-1030 | code that passes the check takes at least one character on every match |
| `ReChecks.OpcodeRefinesLoop` | examples/js/quickjs/libregexp.c:2450-2489 | for an atom of fixed length the loop opcode and the generic greedy loop yield the same ends in the same order |
| `ReCompiler.Compiler.EmitRange` | examples/js/quickjs/libregexp.c:821-857 | writes exactly the bytes of the class instruction, or refuses too many ranges |
| `ReCompiler.Compiler.WrapSimple` | examples/js/quickjs/libregexp.c:1566-1589 | wraps the loop opcode around the last atom |
| `ReCompiler.Compiler.WrapZeroOrMore` | examples/js/quickjs/libregexp.c:1603-1649 | skippable loops, by insertion in front of the atom |
| `ReCompiler.Compiler.WrapRequired` | examples/js/quickjs/libregexp.c:1654-1688 | required iterations, then a copy of the atom in an optional loop |
| `ReCompiler.Compiler.Quantify` | examples/js/quickjs/libregexp.c:1563-1691 | a quantifier rewrites the bytes of the last atom into exactly the loop code for it |
| `ReCompiler.Compiler.Compile` | examples/js/quickjs/libregexp.c:1215-1770 | compiles any pattern to exactly its code, insertions and patched jumps included; refused exactly for too many groups or ranges |
| `ReCompiler.Compiler.CompileAlt` | examples/js/quickjs/libregexp.c:1738-1770 | alternation by inserting a split and patching the jump over the second branch |
| `ReCompiler.Compiler.CompileCapture` | examples/js/quickjs/libregexp.c:1336-1355 | a group takes the next index and is refused beyond the limit |
| `ReCompiler.Compiler.CompileLook` | examples/js/quickjs/libregexp.c:1295-1313 | lookahead with its patched exit |
| `ReCompiler.Compiler.CompileProgram` | examples/js/quickjs/libregexp.c:1821-1909 | header and program; refused exactly if the pattern is or if its counting loops are nested more than 255 deep |
| `ReCompiler.Compiler.EmitTerm` | examples/js/quickjs/libregexp.c:1226-1510 | terms of one instruction: characters, dots, anchors, boundaries and classes |
| `ReCompiler.Compiler.WrapStar` | examples/js/quickjs/libregexp.c:1621-1637 | an unbounded loop inserted around the last atom, with the check that it advances |
| `ReCompiler.Compiler.WrapUpTo` | examples/js/quickjs/libregexp.c:1638-1649 | a counted optional loop inserted around the last atom |
| `ReCompiler.Compiler.WrapExactly` | examples/js/quickjs/libregexp.c:1658-1665 | a counted loop inserted around the last atom |
| `ReCompiler.Compiler.AppendStar` | examples/js/quickjs/libregexp.c:1667-1678 | an unbounded loop over a copy of the atom |
| `ReCompiler.Compiler.AppendUpTo` | examples/js/quickjs/libregexp.c:1679-1688 | a counted optional loop over a copy of the atom |
| `ReFits.EmitFits` | examples/js/quickjs/libregexp.c:1215-1770 | code below two gigabytes with few enough groups has jumps and indices that fit their fields, so it can be written down |
| `ReFits.AcceptedClasses` | examples/js/quickjs/libregexp.c:821-857 | of what the parser hands on, exactly patterns with a class of 65535 ranges or more are refused for their classes |
| `ReNesting.PeakIsLevels` | examples/js/quickjs/libregexp.c:1773-1815 | the linear counter depth of the code is the nesting of the loops that count, by the pattern alone |
| `ReNesting.ProgramNesting` | examples/js/quickjs/libregexp.c:1773-1815 | the same for the whole program, searching or not |
| `ReNesting.NestLevels` | examples/js/quickjs/libregexp.c:1773-1815 | patterns of every nesting up to a hundred million meet all conditions on compilation and have exactly that many levels, so the limit of 255 is met from both sides |
| `ReMeaning.MovesOn` | examples/js/quickjs/libregexp.c:950-1030 | every match of an expression that always takes characters ends past its start |
| `ReCorrect.GenericCorrect` | examples/js/quickjs/libregexp.c:1600-1691 | the generic loop code yields exactly the matches of the quantified expression, in order |
| `ReCorrect.Correct` | examples/js/quickjs/libregexp.c:1215-1770 | the code of an expression yields exactly its matches, in order of preference, whatever runs around it |
| `ReSimple.SimpleLoopYields` | examples/js/quickjs/libregexp.c:2450-2489 | the loop opcode yields exactly the matches of the quantified expression, in order |
| `ReTheorem.RunsToFirstMatch` | examples/js/quickjs/libregexp.c:2089-2494 | compiled code on any text from any start stops, and reports the first match in order of preference with its captures, or none |
| `ReWords.BoundaryIsEdge` | examples/js/quickjs/libregexp.c:2301-2321 | a word boundary is exactly where a word, a maximal run of letters, digits and underscores, starts or ends |
| `ReWords.LineStartIs` | examples/js/quickjs/libregexp.c:2227-2235 | the start anchor holds at the start of the text, with the flag at the start of every line |
| `ReWords.LineEndIs` | examples/js/quickjs/libregexp.c:2236-2244 | the end anchor holds at the end of the text, with the flag at the end of every line |
| `ReWords.DotIs` | examples/js/quickjs/libregexp.c:2245-2252 | the dot takes exactly the characters of lines |
| `ReLanguage.MatchesSpan` | examples/js/quickjs/libregexp.c:2089-2490 | in every reading the ordered matches end exactly where the expression, read as a set of stretches without order or backtracking, says |
| `ReResults.MatchesHold` | examples/js/quickjs/libregexp.c:2257-2276 | every match leaves in every group nothing or a stretch that the expression of that group describes |
| `ReResults.SearchResult` | examples/js/quickjs/libregexp.c:1851-1865 | a search succeeds if and only if some stretch from an admitted start is described, and its first result starts leftmost, with every group in place |
| `ReOrder.LoopPrefers` | examples/js/quickjs/libregexp.c:1516-1691 | the first match of a greedy loop over one character of any bounds ends as far right, that of a lazy one as far left as any described stretch |
| `ReOrder.ChoicePrefers` | examples/js/quickjs/libregexp.c:1738-1770 | the second branch counts only where the first describes nothing |
| `ReCaptures.MatchesLike` | examples/js/quickjs/libregexp.c:1603-1612 | captures do not decide what matches: starts that differ in captures have the same matches but for captures the match does not set or clear |
| `ReEcma.MatchesPruned` | examples/js/quickjs/libregexp.c:1621-1637 | where every optional iteration takes characters, keeping empty iterations and discarding them is the same |
| `ReEcma.MatchesSame` | examples/js/quickjs/libregexp.c:1603-1612 | where the body of every loop that can run twice sets or clears its groups, clearing captures once and clearing them per iteration is the same |
| `ReEcma.SearchSame` | examples/js/quickjs/libregexp.c:1603-1612 | under both conditions the compiled meaning is that of section 22.2.2 of ECMA-262: same matches, same captures, same order |
| `ReDiffers.GroupInLoopDiffers` | examples/js/quickjs/libregexp.c:1603-1612 | every loop over a group or another character, on every text with one before the other: the matches differ, captures are cleared once, not per iteration |
| `ReDiffers.EmptyIterationDiffers` | examples/js/quickjs/libregexp.c:1621-1637 | every greedy loop whose body prefers to take nothing, before every character it could take: the first matches end in different places |
| `ReDiffers.DeadBranchAgrees` | examples/js/quickjs/libregexp.c:1603-1612 | a loop outside the condition on which the meanings agree, because one branch never matches: no condition on the shape of loops is exact |
| `ReEndless.LazyLoopNeverStops` | examples/js/quickjs/libregexp.c:1597-1636 | any lazy unbounded loop anywhere in a program, at any position where the first match of its body takes nothing and nothing behind it matches: the machine takes any number of steps without stopping |
| `ReEndless.QuantNeverStops` | examples/js/quickjs/libregexp.c:1597-1678 | the same for the code of every lazy unbounded quantifier, whatever its lower bound |
| `ReEndless.LazyPatternNeverStops` | examples/js/quickjs/libregexp.c:1597-1678 | the same for whole programs of patterns that start with such a loop, from every start: the condition on lazy loops is needed |
| `ReStack.LinkedProgram` | examples/js/quickjs/libregexp.c:1773-1815 | all jumps of emitted code land on instructions at equal counter depth |
| `ReSafety.StepSafe` | examples/js/quickjs/libregexp.c:2089-2494 | every step of the machine keeps it on an instruction with the right number of counters, in all saved states |
| `ReSafety.StackBound` | examples/js/quickjs/libregexp.c:1773-1815 | over every run of every accepted pattern: never stuck, counter depth equal to the linear count, at most the computed maximum |
| `ReMachine.Machine.ExecSimple` | examples/js/quickjs/libregexp.c:2175-2443 | characters and assertions, from the opcode bytes |
| `ReMachine.Machine.ExecJump` | examples/js/quickjs/libregexp.c:2192-2226 | jumps, choices and lookaheads save the right state |
| `ReMachine.Machine.ExecSave` | examples/js/quickjs/libregexp.c:2257-2276 | captures set and cleared |
| `ReMachine.Machine.ExecCounter` | examples/js/quickjs/libregexp.c:2277-2300 | counters pushed, dropped, counted down and compared |
| `ReMachine.Machine.ExecGreedy` | examples/js/quickjs/libregexp.c:2464-2476 | the inner loop of the loop opcode counts the repetitions that match |
| `ReMachine.Machine.ExecQuant` | examples/js/quickjs/libregexp.c:2450-2489 | the loop opcode as one step |
| `ReMachine.Machine.Resume` | examples/js/quickjs/libregexp.c:2106-2174 | unwinding saved states after a match or a failure is what the step function says |
| `ReMachine.Machine.Run` | examples/js/quickjs/libregexp.c:2089-2494 | the machine loop ends in the outcome of the step function |
| `ReMachine.CompileAndRun` | examples/js/quickjs/libregexp.c:1821-2535 | refused exactly for a class of 65535 ranges, 255 groups or 256 levels of counting loops; otherwise a match if and only if some stretch is described, leftmost, with described stretches in all groups that took part, and first in order of preference |
| `ReMachine.HeaderSuffices` | examples/js/quickjs/libregexp.c:2499-2535 | over every run, captures and counters of the running state and of every saved state fit the space the header reserves |
| `ReMachine.RunCompiled` | examples/js/quickjs/libregexp.c:2499-2535 | compiled bytes and a text in: the first match in order of preference and its captures, or none |
| `ReMachine.Machine.ExecAtom` | examples/js/quickjs/libregexp.c:2464-2471 | the atom of a loop opcode, run without saved states |
| `ReMachine.Machine.GiveBack` | examples/js/quickjs/libregexp.c:2137-2158 | a saved loop gives back one iteration |
| `ReMachine.Machine.Execute` | examples/js/quickjs/libregexp.c:2104-2489 | one opcode does what one step of the machine should |
| `Rqsort.MedianIs` | examples/js/quickjs/cutils.c:504-509 | the chosen one of three is a median |
| `Rqsort.Partition` | examples/js/quickjs/cutils.c:547-573 | splits a window into like, below, above and like the pivot; bounds and permutation for every comparison |
| `Rqsort.Gather` | examples/js/quickjs/cutils.c:574-599 | moves the elements like the pivot to the middle by exchanging the smaller spans |
| `Rqsort.InsertionSort` | examples/js/quickjs/cutils.c:623-627 | a permutation of its window for every comparison, sorted for a lawful one |
| `Rqsort.Refine` | examples/js/quickjs/cutils.c:601-621 | sorting or splitting one pending piece keeps all other pairs in order |
| `Rqsort.Narrow` | examples/js/quickjs/cutils.c:535-622 | splits a piece until it is small: for every comparison the stack of 50 entries does not overflow, depth bounds its height |
| `Rqsort.Sort` | examples/js/quickjs/cutils.c:512-629 | for every comparison callback, even one that contradicts itself: ends within the array and the stack, with a permutation; sorted whenever the answers are those of a total preorder |
| `Rqsort.SwapBlock` | examples/js/quickjs/cutils.c:589 | two blocks of equal length change places |
| `Rqsort.SplitAround` | examples/js/quickjs/cutils.c:542-605 | median of three, partition and gathering: below, like and above the pivot |
| `HeapSort.SiftDown` | examples/js/quickjs/cutils.c:482-488 | keeps the elements whatever the comparison answers; restores the heap below an element if it is lawful |
| `HeapSort.RootLargest` | examples/js/quickjs/cutils.c:490-491 | the root of a heap is a largest element |
| `HeapSort.Sort` | examples/js/quickjs/cutils.c:470-502 | heapsort permutes its window and touches nothing else, whatever the comparison answers; sorted if it is lawful |
| `JsmnParser.Parser.AllocToken` | examples/lambda/jsmn.h:106-119 | a fresh token, or none without change |
| `JsmnParser.Parser.ParsePrimitive` | examples/lambda/jsmn.h:135-188 | token and position of a primitive; restored position on errors and lack of room |
| `JsmnParser.Parser.ParseString` | examples/lambda/jsmn.h:193-263 | token and position of a string with its escapes; restored position on errors and lack of room |
| `JsmnParser.Parser.CloseContainer` | examples/lambda/jsmn.h:308-360 | scans back for the open token, closes it and finds the one around it |
| `JsmnParser.Parser.Parse` | examples/lambda/jsmn.h:268-453 | exactly the run of the tokenizer function, or without tokens exactly the count |
| `JsmnParser.Parser.OpenContainer` | examples/lambda/jsmn.h:281-307 | a new open token as child of the current parent |
| `JsmnParser.Parser.Comma` | examples/lambda/jsmn.h:379-396 | the parent is the enclosing object or array again |
| `JsmnParser.Parser.Advance` | examples/lambda/jsmn.h:276-441 | one character position does what one step of the tokenizer should |
| `Jsmn.Restart` | examples/lambda/jsmn.h:268-453 | a run stopped for lack of room and resumed with more ends in the same tokens, state and result as one run; other results do not depend on the room |
| `Jsmn.RestartMany` | examples/lambda/jsmn.h:268-453 | any number of restarts ends like one run with the largest room |
| `Jsmn.CountAgrees` | examples/lambda/jsmn.h:268-453 | a successful run reports its number of tokens, and the run without tokens reports the same |
| `Jsmn.CountSuffices` | examples/lambda/jsmn.h:268-453 | the count found without tokens is exactly the room a run needs |
| `Jsmn.RunReports` | examples/lambda/jsmn.h:268-453 | what any run with any room reports: lack of room, or the count where the brackets match and the bracket error where they do not |
| `Jsmn.CountThenRun` | examples/lambda/jsmn.h:268-453 | after a successful count, a run with that room fails if and only if the brackets do not match, with INVAL at a wrong closing one and PART at the end |
| `JsmnExact.ByteClasses` | examples/lambda/jsmn.h:135-430 | the classes of bytes are those of sections 2 and 7 of RFC 8259 |
| `JsmnExact.StringExact` | examples/lambda/jsmn.h:193-263 | a string ends at a place if and only if there is a quote there and text with legal escapes before it |
| `JsmnExact.PrimitiveExact` | examples/lambda/jsmn.h:135-188 | a primitive ends at a place if and only if it is the first end, with printable characters before it |
| `JsmnExact.LooseIs` | examples/lambda/jsmn.h:193-263 | strings of the tokenizer are those of the grammar, except that control characters count as plain |
| `JsmnParts.PartMeans` | examples/lambda/jsmn.h:60 | PART: the text can be completed, more bytes make the same run succeed |
| `JsmnParts.InvalMeans` | examples/lambda/jsmn.h:58 | INVAL: no bytes that may follow make it valid |
| `JsonTokens.ValueRuns` | examples/lambda/jsmn.h:268-453 | tokenizing a printed value adds exactly its tokens under the current parent |
| `JsonTokens.PrintThenTokenize` | examples/lambda/jsmn.h:268-453 | every JSON text of the grammar, with any legal white space, gives the preorder traversal with exact starts, ends, kinds and sizes (sections 2 to 7 of RFC 8259) |
| `Timers.InitListHead` | examples/js/quickjs/list.h:42-46 | an empty ring |
| `Timers.ListAddTail` | examples/js/quickjs/list.h:65-68 | a ring with the node at its end |
| `Timers.ListDel` | examples/js/quickjs/list.h:70-79 | the ring without the node, whose links are cleared |
| `Timers.Runtime.UnlinkTimer` | examples/js/quickjs-wasi.c:1431-1437 | takes a live timer off the ring if it is on it |
| `Timers.Runtime.FreeTimer` | examples/js/quickjs-wasi.c:1439-1443 | frees a timer that is alive and not armed, releasing the callback it holds |
| `Timers.Runtime.Finalize` | examples/js/quickjs-wasi.c:1447-1455 | the finalizer step; the timer is freed exactly if it is not armed |
| `Timers.Runtime.SetTimeout` | examples/js/quickjs-wasi.c:1466-1495 | a new armed timer, last in the list, with exactly that timeout; nothing else changes |
| `Timers.Runtime.ClearTimeout` | examples/js/quickjs-wasi.c:1497-1505 | the timer of a live object is off the list, the others keep their order, no timer changes |
| `Timers.Runtime.Poll` | examples/js/quickjs-wasi.c:1564-1588 | fires the first expired timer of the list and changes that one only; without one, gives exactly the time until the next is due, at most ten seconds |
| `Timers.Runtime.FreeHandlers` | examples/js/quickjs-wasi.c:2119-2124 | shutdown disarms all timers and frees those without object |
| `Timers.Runtime.Scan` | examples/js/quickjs-wasi.c:1567-1584 | finds the first expired timer of the list, or exactly the time until the next is due, at most ten seconds |
| `Timers.Runtime.HandlerReturned` | examples/js/quickjs-wasi.c:1578-1579 | after the handler its reference to the callback is released |
| `TimerSpec.Step` | examples/js/quickjs-wasi.c:1431-1584 | every event keeps the invariant: alive iff armed or reachable, one callback reference in one place |
| `TimerSpec.HasEffect` | examples/js/quickjs-wasi.c:1431-1588 | what each event does, in terms of the list, the timers and the calls alone |
| `TimerSpec.EffectExact` | examples/js/quickjs-wasi.c:1431-1588 | that determines the world after the event |
| `TimerSpec.Lifetime` | examples/js/quickjs-wasi.c:1431-1584 | over every run: freed at most once, released at most once, alive exactly while armed or reachable |
| `TimerSpec.AllFreed` | examples/js/quickjs-wasi.c:2119-2124 | when nothing is armed, reachable or running, everything was freed and released exactly once |
| `TimerSpec.NeverAgain` | examples/js/quickjs-wasi.c:1497-1505 | a cleared or fired timer is never armed again |
| `TimerRuns.Fate` | examples/js/quickjs-wasi.c:1466-1588 | over every run: every timer set is armed, has fired or was disarmed, exactly one of these, exactly once |
| `TimerRuns.ClearedNeverFires` | examples/js/quickjs-wasi.c:1497-1505 | after clearTimeout no later event of any run starts the timer |
| `TimerRuns.FiresOnce` | examples/js/quickjs-wasi.c:1564-1588 | a handler is called at most once, and never after its timer was disarmed |
| `LogLines.LogForwarder.Write` | src/wasm.rs:84-109 | logs the lines the chunk completes and keeps the rest |
| `LogLines.LogForwarder.Drop` | src/wasm.rs:70-76 | logs what is left, unless it is empty |
| `LogLines.TwoParts` | src/wasm.rs:84-109 | lines of a text in two parts: what the first leaves over goes before the second |
| `LogLines.PiecesExact` | src/wasm.rs:84-109 | pieces are exactly what joins to the text and holds no newline |
| `LogLines.ChunksDoNotMatter` | src/wasm.rs:70-109 | however the bytes are cut, the log is the lines of all of them, only an empty last one left out |
| `LogLines.LinesAreLog` | src/wasm.rs:70-109 | the log is lines without newlines that join to the text, a newline at its end left out |
| `LogLines.Forward` | src/wasm.rs:84-109 | a forwarder fed any chunks and dropped has logged exactly those lines |

## Left out

- Memory-allocation failures, everywhere.
- FFT multiplication above the schoolbook product: packing limbs into residues, the Chinese remainder step, the AVX2 variant and strip-wise transforms beyond the table limit.
- Ntt.State.Convolve: lengths 2^k with 1 <= k <= 19 only; the root and its inverse are parameters with stated assumptions instead of the tables of constants.
- FastMod.FastUdivCorrect: for divisors above half the base the source shifts by the full word width, which C leaves undefined; the model lets the bit drop out, so that subtracting the divisor wraps as intended.
- Transcendental functions, decimal floating point, and reading and printing of numbers.
- Rounding.Bf.NormalizeAndRound: with precision 0 (no digits behind the point) in a direction that does not overflow to infinity, only while the exponent is below its maximum; beyond it the source resizes to no limbs and then writes the first.
- Rounding.Bf.Round: the same condition.
- Rounding.Bf.SetOverflow: with precision 0 only in a direction that overflows to infinity, for the same reason.
- Radix.FromRadix: numbers are integers, with exact products and powers, instead of floating-point numbers with unlimited precision.
- Radix.ToRadix: the same; the quotient guess is arbitrary, so nothing is claimed about how many corrections are needed.
- Parsing of pattern text. Patterns are syntax trees, of which the parser builds some.
- Back references, lookbehind, ignoring case, named groups and surrogate pairs in regular expressions; one unit is one character.
- ReTheorem.RunsToFirstMatch: lazy unbounded loops whose bodies may match nothing are left out, because the machine need not stop on them (`ReEndless.LazyPatternNeverStops`); safety (`ReSafety.StackBound`) covers them.
- ReCompiler.Compiler.Compile: patterns of whose code some part emitted on the way reaches two gigabytes are left out (`ReFits.Small`), because jump offsets are 32 bits wide.
- ReEcma.SearchSame: sufficient, not necessary; `ReDiffers.DeadBranchAgrees` is a pattern outside the condition on which the readings agree.
- Counters of the machine are unbounded numbers and character positions are indices, not addresses.
- Element size, alignment and byte-wise swapping in the sort; elements are moved whole.
- Strict mode and parent links of the tokenizer, which are compiled out; inputs of two gigabytes and more.
- File, signal and worker handlers, select, and the JavaScript engine around the timers; calls into scripts are events that may happen in any order.
- Request routing, module cache and file access of the server; seeking and reading of log files.

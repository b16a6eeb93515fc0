# Proofs about the quickjs engine's number, pattern and sorting code

This project models four parts of the quickjs sources and proves what they are for:

* **libbf**, the arbitrary precision library: limb arithmetic, division, reciprocals and
  square roots on buffers of limbs, rounded addition of floating point numbers, bitwise
  operations on integers, base conversion, the number theoretic transform and Chinese
  remaindering;
* **libunicode**, the algebra of character ranges;
* **libregexp**, the regular expression compiler, its static analyses and the
  backtracking machine;
* **rqsort** of cutils, the hybrid of quicksort, heap sort and insertion sort.

## How it is laid out

One base `B`, 2^32 or 2^64, is left open, so both builds of the library are covered.
`W(s, lo, n)` is the number that the limbs `s[lo..lo + n]` stand for, `P(n)` is `B^n`, and
`T(k)` is `2^k`.

| files | subject |
|---|---|
| `Hints`, `Arith`, `Limbs`, `LimbOps` | limbs, carry loops, the schoolbook product |
| `DivBounds`, `Division` | `udiv1norm`, `mp_divnorm`, `mp_recip`, `mp_divnorm_large` |
| `SquareRoot` | Zimmermann's square root |
| `Bits`, `LimbBits`, `RoundSpec`, `RoundLimbs`, `Float`, `RoundOrder`, `RoundScale` | rounding: what it is, the rule, the in-place code, the order of rounded and exact numbers |
| `Digits`, `AddLoops`, `Cancel`, `FloatAdd` | `bf_add_internal` |
| `LogicOp`, `Bitwise` | `bf_logic_op` |
| `Congruence`, `Fourier`, `Ntt` | modular arithmetic, the transform |
| `Convolution`, `NttMul`, `FftMul` | the convolution theorem, multiplication by transforms |
| `Garner`, `Crt` | mixed radix digits, `ntt_to_limb` |
| `RadixEstimate`, `Radix` | divide and conquer base conversion |
| `CharRange` | `cr_op` and its relatives, `re_emit_range`, the range search |
| `RegexpInput`, `RegexpCode`, `RegexpSemantics`, `RegexpOrder` | the subject, the code, two meanings of patterns |
| `RegexpMachine`, `RegexpRuns`, `RegexpAnalysis`, `RegexpLoops`, `RegexpSimple`, `RegexpGreedy`, `RegexpCorrect`, `RegexpMatch`, `RegexpExec`, `RegexpExists`, `RegexpLimits`, `RegexpEndless`, `RegexpLazy` | the machine, the correctness of compiled code, and loops that do not end |
| `RegexpRefs`, `RegexpCaptures` | back references, and what captures hold |
| `RegexpStack`, `RegexpDepth`, `RegexpScan` | stack depth, the scanning loops |
| `RegexpCompiler` | the compiler that inserts into, copies and patches a buffer |
| `SortOrder`, `SortParts`, `HybridSort` | `rqsort` |

Two devices recur in the proofs. A predicate `Ask` that is always true keeps a definition
folded until a proof mentions it, so that products and recursive functions do not disturb
proofs that do not need them. Long routines are cut into small methods with ghost
parameters, one for each step of the original.

## The main results

* *Division.* `mp_divnorm` and `mp_divnorm_large` give the exact quotient and remainder for
  all lengths; the schoolbook estimate is at most 2 too large, the quotient from the
  reciprocal at most 4 too small. `mp_recip` gives `a * r < B^(2n) < a * (r + 2)`.
* *Square root.* `a = s^2 + r` with `0 <= r <= 2s` for every even number of limbs, with one
  correction, even where the quotient is `B^l` and the root wraps.
* *Rounding.* The bit rule of `bf_get_rnd_add` gives the number that the mode defines, which
  is unique in every mode but the faithful one. `__bf_round` shows that number, normalized,
  for every precision, including none; the inexact flag is set exactly when the value
  changed, and overflow and underflow exactly when the rounded value leaves the range. In the
  directed modes the number shown lies on its side of the exact one, infinities and the
  largest number included.
* *Addition.* The limited precision sum is the exact sum rounded once: neither the digits
  that are never computed nor the sticky bit change the result.
* *Bitwise operations* on sign and magnitude agree with two's complement, bit for bit and
  without end; the results satisfy `x | y + x & y = x + y` and `x ^ y = x | y - x & y`.
* *Transform, convolution and recombination.* Every pass keeps its values below twice the
  modulus and the output is the discrete Fourier transform; transforming, multiplying and
  transforming back is the cyclic convolution; the recombined limbs are the sum of the
  numbers with the given residues. Together, `fft_mul` gives the product of two numbers.
* *Base conversion* is exact both ways, and each quotient needs at most two corrections.
* *Regular expressions.* Compiled code offers, wherever it is placed, exactly the outcomes
  of its pattern, in priority order and with captures; without back references and with
  lazy loops that advance, the machine stops and succeeds if and only if there is a match.
  Every capture that is reported is unset or holds the two ends of a match of its group, and
  capture 0 starts where the first match starts. A back reference goes on exactly where the
  captured characters are repeated.
  A lazy loop whose body may stay in place ends exactly as a search over its outcomes says,
  and never ends if and only if that search meets a place twice.
  On every run each pc is an instruction and the stack is as deep as the compiler's linear
  scan says. The compiler's buffer operations produce exactly that code.
* *Sorting.* `rqsort` sorts, permutes, and stays within its 50 stack entries.

## Model

| member | source | states |
|---|---|---|
| `LimbOps.MpAdd` | quickjs/libbf.c:1024-1040 | result plus carry times B^n is the sum of both operands and the incoming carry; nothing else is written, and the result may overlap an operand that is read ahead |
| `LimbOps.MpAddUi` | quickjs/libbf.c:1042-1056 | adds one limb in place; stopping early is right because the carry is zero |
| `LimbOps.MpSub` | quickjs/libbf.c:1058-1074 | result minus borrow times B^n is the difference less the incoming borrow |
| `LimbOps.MpNeg` | quickjs/libbf.c:1077-1092 | the negative less the incoming borrow, modulo B^n, with its borrow |
| `LimbOps.MpSubUi` | quickjs/libbf.c:1094-1109 | subtracts one limb in place, with the borrow |
| `LimbOps.MpMul1` | quickjs/libbf.c:1130-1142 | product with one limb plus an incoming limb |
| `LimbOps.MpAddMul1` | quickjs/libbf.c:1145-1158 | adds a multiple in place |
| `LimbOps.MpSubMul1` | quickjs/libbf.c:1198-1211 | subtracts a multiple in place, with the borrow limb |
| `LimbOps.MpMul` | quickjs/libbf.c:1161-1194 | the full product of two buffers |
| `LimbOps.MpCmp` | quickjs/libbf.c:1415-1427 | the sign is the order of the two values, both ways |
| `LimbOps.MpScanNz` | quickjs/libbf.c:362-370 | true exactly when the value is not zero |
| `DivBounds.EstimateWithin` | quickjs/libbf.c:1224-1242 | with the precomputed inverse, the two-limb quotient estimate leaves a remainder in [0, 2d) |
| `Division.Udiv1normInit` | quickjs/libbf.c:1213-1220 | the inverse is floor((B^2 - 1) / d) - B |
| `Division.Udiv1norm` | quickjs/libbf.c:1222-1242 | exact quotient and remainder of two limbs by a normalized limb |
| `Division.MpDiv1norm` | quickjs/libbf.c:1244-1265 | exact quotient and remainder of a buffer by a limb, whichever of the fast and the slow branch is taken |
| `DivBounds.EstimateNotTooLarge` | quickjs/libbf.c:1310-1342 | the one-limb quotient estimate is at most two too large, for any base and divisor with the top bit set |
| `Division.EstimateDigit` | quickjs/libbf.c:1310-1320 | the estimated digit is right or one or two too large |
| `Division.Restore` | quickjs/libbf.c:1328-1339 | adding back ends with the exact digit and remainder after at most two additions |
| `Division.DivDigit` | quickjs/libbf.c:1310-1342 | one exact quotient digit, the remainder in place of the dividend |
| `Division.MpDivnorm` | quickjs/libbf.c:1271-1344 | a = q * b + r with r < b for all lengths, and the top quotient limb is at most 1 |
| `DivBounds.RecipStep` | quickjs/libbf.c:1375-1403 | one Newton step keeps the reciprocal below the exact one and less than two units away |
| `Division.RecipShrink` | quickjs/libbf.c:1389-1393 | decreasing X_h until a * X_h fits keeps it at least B^h, so the loop ends |
| `Division.NewtonWrite` | quickjs/libbf.c:1397-1403 | the last addition writes the exact sum: its carry is zero |
| `Division.MpRecip` | quickjs/libbf.c:1346-1412 | a * r < B^(2n) < a * (r + 2), r has n + 1 limbs and its top limb is 1 |
| `DivBounds.LargePadded` | quickjs/libbf.c:1445-1478 | for a divisor padded with zeros, the quotient by the reciprocal is at most 3 too small and never too large |
| `DivBounds.LargeCut` | quickjs/libbf.c:1445-1478 | for a divisor that is cut off and rounded up, it is at most 4 too small and never too large |
| `Division.InverseForLarge` | quickjs/libbf.c:1445-1472 | the inverse used for long division, including the overflow of the rounded-up divisor |
| `Division.LargeQuotient` | quickjs/libbf.c:1473-1478 | b * q <= a < b * (q + 5) |
| `Division.LargeRemainder` | quickjs/libbf.c:1487-1495 | the residue fits in nb + 1 limbs and is a - b * q |
| `Division.LargeCorrect` | quickjs/libbf.c:1496-1509 | the correction loop ends with a remainder below the divisor |
| `Division.MpDivnormLarge` | quickjs/libbf.c:1433-1522 | the exact quotient and remainder, as `mp_divnorm` gives them |
| `SquareRoot.TableGood` | quickjs/libbf.c:1881-1883 | every table entry is the root of all its 16-bit numbers, or one less |
| `SquareRoot.Doubling` | quickjs/libbf.c:1944-2042 | for every base, one correction of the candidate is enough |
| `SquareRoot.MpSqrtrem1` | quickjs/libbf.c:1885-1928 | root and remainder of one limb, for 32 and 64 bits |
| `SquareRoot.MpSqrtrem2` | quickjs/libbf.c:1944-1970 | root and remainder of two limbs, the carry limb at most 1 |
| `SquareRoot.HalveQuotient` | quickjs/libbf.c:2006-2014 | dividing by the root and halving gives the quotient by twice the root, its carry included |
| `SquareRoot.CorrectRoot` | quickjs/libbf.c:2034-2040 | if the residue is negative, one step down gives the root, also when the root has wrapped |
| `SquareRoot.MpSqrtremRec` | quickjs/libbf.c:1976-2042 | root and remainder of 2n limbs, by recursion on halves |
| `SquareRoot.MpSqrtrem` | quickjs/libbf.c:2045-2068 | a = s^2 + r and 0 <= r <= 2s for every n and every a with a top limb of at least B/4 |
| `SquareRoot.RootIsFloor` | quickjs/libbf.c:2045-2047 | such an s is the floor of the root |
| `Digits.GetBits` | quickjs/libbf.c:317-339 | the LIMB_BITS bits from any position on, also a negative one or one above the number |
| `LimbBits.GetBit` | quickjs/libbf.c:341-348 | one bit at any position |
| `LimbBits.ScanBitNz` | quickjs/libbf.c:372-389 | whether any bit up to a position is set |
| `RoundSpec.RoundToCorrect` | quickjs/libbf.c:391-446 | the rule from the round bit and the sticky bit gives the number that each rounding mode asks for, stated as order and distance |
| `RoundSpec.RoundedUnique` | quickjs/libbf.c:391-446 | in every mode but the faithful one there is no other such number |
| `RoundSpec.Exact` | quickjs/libbf.c:405-444 | rounding changes the value if and only if bits are lost, and that is if and only if the round bit or the sticky bit is set |
| `Float.RoundingCorrect` | quickjs/libbf.c:477-589 | for every format and number the outcome shows the multiple of the last place that the mode asks for, with at most the bits of the format or the next power of two, or what the mode asks for beyond the range; inexact is set if and only if the number shown is not the number given, and overflow, underflow and zero are decided by the rounded value |
| `RoundSpec.StickyRounded` | quickjs/libbf.c:993-994 | a number and its upper part with a sticky bit round alike when two or more bits go |
| `RoundLimbs.GetRndAdd` | quickjs/libbf.c:391-446 | the decision read from the limbs is the rule applied to their value, at any precision, also zero or negative |
| `RoundLimbs.AddUnit` | quickjs/libbf.c:525-550 | adds a unit in place; on a carry out of the top the sum is halved |
| `Float.Bf.SetOverflow` | quickjs/libbf.c:448-475 | beyond the range: infinity in the modes to nearest and away from zero, down when negative, up when positive, and with infinite precision; else the largest number of the format, normalized |
| `Float.Bf.Round` | quickjs/libbf.c:477-589 | the limbs in place become the outcome of `RoundingCorrect`: the correctly rounded number, normalized and without a zero low limb, or zero, or overflow, with its flags |
| `RoundOrder.LargestFinite` | quickjs/libbf.c:461-472 | a number with the bits of the format is at most the largest finite number if and only if its exponent is in the range |
| `RoundOrder.Sides` | quickjs/libbf.c:448-589 | towards zero the magnitude shown is at most the exact one, unless the precision is infinite and it overflows; away from zero it is at least the exact one, unless it underflows in a format without subnormal numbers; both if and only if |
| `RoundOrder.Directed` | quickjs/libbf.c:448-589 | so for every number with an exponent in the range the directed modes keep to their side |
| `RoundOrder.SmallestUnit` | quickjs/libbf.c:489-508 | every finite number shown, subnormal or not, is a multiple of 2^(3 - range - prec) |
| `RoundScale.RoundScaled` | quickjs/libbf.c:591-627 | rounding does not depend on trailing zeros of the mantissa |
| `RoundScale.RoundSticky` | quickjs/libbf.c:926-1004 | for a format that keeps at least two bits fewer, the shortened number gives the same number and the same status |
| `FloatAdd.NormalizeAndRound` | quickjs/libbf.c:591-627 | leading zeros are removed without loss, and the value is rounded once |
| `FloatAdd.CmpU` | quickjs/libbf.c:736-760 | the order of the magnitudes of finite numbers, both ways |
| `FloatAdd.Compare` | quickjs/libbf.c:736-760 | the order with zero, infinity and NaN |
| `Cancel.XorLen` | quickjs/libbf.c:837-839 | the length of the exclusive or is the place where two numbers first differ |
| `Cancel.CountCancelled` | quickjs/libbf.c:807-866 | the difference has at least as many bits as the count leaves |
| `AddLoops.LowLoop` | quickjs/libbf.c:935-981 | the loop below the result ends, although it skips ahead, with the exact carry and whether anything is left there |
| `AddLoops.HighLoop` | quickjs/libbf.c:982-992 | the limbs of the result and the last carry are the rest of the exact sum |
| `FloatAdd.Lengths` | quickjs/libbf.c:914-929 | the number of limbs computed keeps two bits more than the precision after cancellation |
| `FloatAdd.EnoughBits` | quickjs/libbf.c:926-1004 | rounding the computed part with its sticky bit is rounding the exact sum |
| `FloatAdd.SumLimbs` | quickjs/libbf.c:930-1002 | the limbs are the upper part of the exact sum with a sticky bit, carry limb included |
| `FloatAdd.AddInternal` | quickjs/libbf.c:868-1010 | the exact sum or difference rounded once and correctly, with its status, for all operands: finite, zero, infinite or NaN |
| `FloatAdd.SumRounded` | quickjs/libbf.c:912-1005 | for every format, what is rounded is the computed part of the exact sum with its sticky bit, with the number of limbs that the code computes |
| `FloatAdd.RadixPointSum` | quickjs/libbf.c:912-1005 | with a finite precision counted from the radix point the result is wrong: one added to 2^k gives 2^k + 2 and no inexact flag, k the first multiple of LIMB_BITS that is not below the precision plus two |
| `LogicOp.LogicLimbs` | quickjs/libbf.c:2374-2387 | every limb is the operation on masked digits of the operands, whatever their alignment |
| `LogicOp.LogicCorrect` | quickjs/libbf.c:2360-2387 | every bit, below and above the limbs computed, is the operation on the bits in two's complement |
| `Bitwise.AddSi` | quickjs/libbf.c:2248-2259 | adding one or minus one to an integer without rounding is exact, or infinite if there is no such number |
| `Bitwise.LogicOperation` | quickjs/libbf.c:2322-2406 | for any two integers the result is the integer whose every bit is the or, the and, or the exclusive or of their bits, although the length is shortened for an and; the one integer that can be out of range becomes an infinity |
| `Bitwise.OneResult` | quickjs/libbf.c:2322-2406 | there is only one such integer |
| `Bitwise.LogicSums` | quickjs/libbf.c:2309-2406 | the or and the and of two integers add up to their sum, and the exclusive or is their difference |
| `Radix.Halves` | quickjs/libbf.c:2693-2729 | at level L all lengths are n0 / 2^L rounded down or up, and both halves are not empty, so one power for each level serves |
| `Radix.LevelBound` | quickjs/libbf.c:2732-2753 | the table of powers has an entry for every level that splits |
| `Radix.FromRadix` | quickjs/libbf.c:2693-2753 | the positional value of the digits |
| `RadixEstimate.EstimateNear` | quickjs/libbf.c:3411-3419 | the product with a reciprocal of (n2 + 1) * radixl_bits + 2 bits, rounded to n1 * radixl_bits bits and down, is at most two away from the quotient |
| `Radix.DivideByPower` | quickjs/libbf.c:3403-3441 | the exact quotient and remainder after at most two corrections in either direction |
| `Radix.ToRadix` | quickjs/libbf.c:3373-3482 | the n digits of a number below radix^n |
| `Radix.RoundTrip` | quickjs/libbf.c:2693-3482 | from digits to a number and back is the identity |
| `Radix.DigitsUnique` | quickjs/libbf.c:3373-3456 | digits are determined by their value |
| `Ntt.AddMod` | quickjs/libbf.c:7367-7375 | the sum below m, without overflow |
| `Ntt.SubMod` | quickjs/libbf.c:7377-7385 | the difference below m; the wrap of the limb is what the test sees |
| `Ntt.ModFast` | quickjs/libbf.c:7387-7407 | the remainder of a double limb: the estimate is at most two too small, and the masks from the wrapped difference add the modulus just as often |
| `Ntt.MulModFast3` | quickjs/libbf.c:7441-7452 | the product modulo m, or that plus m, from wrapped products only |
| `Ntt.MulModFast2` | quickjs/libbf.c:7427-7439 | the product modulo m |
| `Fourier.Decimate` | quickjs/libbf.c:7745-7760 | the even values of a transform are the transform of sums, the odd ones that of turned differences |
| `Ntt.PassHalfway` | quickjs/libbf.c:7738-7766 | a pass doubles the number of interleaved transforms that are known |
| `Ntt.Butterfly` | quickjs/libbf.c:7750-7756 | sum and turned difference stay below 2m with no wrap |
| `Ntt.Pass` | quickjs/libbf.c:7740-7760 | one pass for all pairs, every value below 2m |
| `Ntt.LastPass` | quickjs/libbf.c:7767-7776 | the last pass, also in place |
| `Ntt.NttFft` | quickjs/libbf.c:7721-7778 | for every power of two length from 2 on, the output is below 2m and congruent to the discrete Fourier transform of the input |
| `Ntt.GetTrig` | quickjs/libbf.c:7818-7853 | the table holds the powers of the root and their companions |
| `Convolution.TransformsMultiply` | quickjs/libbf.c:7940-7970 | the transform of the cyclic convolution is the product of the transforms, value by value |
| `Convolution.InverseTransform` | quickjs/libbf.c:7940-7970 | the transform with the inverse root gives back the values times their number |
| `Convolution.ConvolutionTheorem` | quickjs/libbf.c:7940-7970 | transform, multiply and scale, transform back: the cyclic convolution |
| `NttMul.VecMul` | quickjs/libbf.c:7780-7801 | every product, divided by the length, below twice the modulus |
| `NttMul.NttConv` | quickjs/libbf.c:7940-7970 | the cyclic convolution of the two buffers, for lengths transformed in one piece |
| `FftMul.ReadPiece` | quickjs/libbf.c:7995-8019 | the bits of one piece, in one, two or three limbs |
| `FftMul.LimbToNtt` | quickjs/libbf.c:7973-8028 | the residues of all pieces of a number |
| `FftMul.ConvolvedProduct` | quickjs/libbf.c:8358-8458 | the convolution of the pieces of two numbers, put together, is their product |
| `FftMul.FftMul` | quickjs/libbf.c:8358-8458 | the result is the product of the two numbers |
| `Garner.CrtUnique` | quickjs/libbf.c:8179-8191 | at most one number below the product of the moduli has given residues |
| `Crt.MixedRadix` | quickjs/libbf.c:8179-8191 | the mixed radix digits of the residues, each below its modulus |
| `Crt.MixedCorrect` | quickjs/libbf.c:8179-8212 | the digits stand for the one number with the given residues |
| `Crt.ToLimbs` | quickjs/libbf.c:8193-8212 | that number plus the carry, in limbs, with no overflow |
| `Crt.PutBits` | quickjs/libbf.c:7240-7257 | bits or-ed in at any position are added, modulo the width |
| `Crt.PutDigits` | quickjs/libbf.c:8224-8230 | the low dpl bits are written |
| `Crt.ShiftCarry` | quickjs/libbf.c:8231-8241 | the carry is the rest, shifted by dpl |
| `Crt.NttToLimb` | quickjs/libbf.c:8146-8243 | exactly the sum of v_i * 2^(i * dpl) modulo the width of the result, v_i the number with the stored residues; if the items are narrower than the result, modulo their width |
| `CharRange.Range.Compress` | quickjs/libunicode.c:325-353 | the same set as a strictly increasing list of even length, compacted in place |
| `CharRange.Range.Merge` | quickjs/libunicode.c:355-405 | a point is in the result if and only if it is in either set, in both, or in exactly one, by the operation; the result is canonical |
| `CharRange.Range.UnionWith` | quickjs/libunicode.c:407-417 | the union in place |
| `CharRange.Range.Invert` | quickjs/libunicode.c:419-431 | the complement |
| `CharRange.EmittedRange` | quickjs/libregexp.c:821-857 | the emitted bounds accept a character exactly when it is in the set, 0xffff meaning no bound included |
| `CharRange.Search` | quickjs/libregexp.c:2380-2402 | the binary search finds exactly the intervals that hold the character |
| `CharRange.EmitThenTest` | quickjs/libregexp.c:821-857 | emission and search together decide membership |
| `RegexpInput.PrevUndoesGet` | quickjs/libregexp.c:1924-2012 | PREV_CHAR undoes GET_CHAR if and only if the position does not cut a surrogate pair |
| `RegexpInput.GetUndoesPrev` | quickjs/libregexp.c:1924-2012 | GET_CHAR undoes PREV_CHAR from every such position |
| `RegexpInput.PairRead` | quickjs/libregexp.c:1924-2012 | all readers take two units for a code point if and only if they are its surrogate pair |
| `RegexpInput.ReadsEncoded` | quickjs/libregexp.c:1924-1941 | reading the UTF-16 encoding of any characters gives these characters back |
| `RegexpInput.WordLast` | quickjs/libregexp.c:1971-1992 | reading backwards gives the last of the characters that reading forwards gives |
| `RegexpInput.Places` | quickjs/libregexp.c:2227-2322 | line starts, line ends and word boundaries by code units alone |
| `RegexpRefs.ForwardRepeats` | quickjs/libregexp.c:2336-2349 | a reference leads to a place if and only if the characters up to it are the captured ones under case folding |
| `RegexpRefs.BackwardRepeats` | quickjs/libregexp.c:2350-2365 | the same in a lookbehind, where both are read backwards |
| `RegexpRefs.ReferenceOutcomes` | quickjs/libregexp.c:2323-2367 | the outcomes of a back reference in all cases: no such capture, one that is not set, and one that is |
| `RegexpCaptures.OutcomeKept` | quickjs/libregexp.c:2089-2494 | an outcome of a pattern changes the captures of that pattern only |
| `RegexpCaptures.CaptureSpan` | quickjs/libregexp.c:2257-2262 | a group stores the position where it starts and the one where it ends, exchanged in a lookbehind, and changes no capture outside of it |
| `RegexpCaptures.ResetMeans` | quickjs/libregexp.c:2263-2276 | a reset clears the captures of its range and no others |
| `RegexpCaptures.LeftOut` | quickjs/libregexp.c:1601-1615 | an optional group that is left out holds nothing, whatever it held before; it is the last choice of a greedy quantifier and the first of a lazy one |
| `RegexpCaptures.OutcomeGroups` | quickjs/libregexp.c:2089-2494 | after any outcome each capture is unset or holds the two ends of a match of its own group, whatever was tried and given up |
| `RegexpCaptures.FindReports` | quickjs/libregexp.c:1851-1873 | the captures of the first match: capture 0 starts at the first place where the pattern matches and ends where a match from there ends |
| `RegexpAnalysis.AdvanceSound` | quickjs/libregexp.c:947-1030 | if the scan says that code advances, no outcome of its pattern is empty |
| `RegexpScan.CheckAdvanceScan` | quickjs/libregexp.c:947-1030 | the loop computes that property |
| `RegexpScan.IsSimpleScan` | quickjs/libregexp.c:1032-1071 | the loop computes the number of characters of simple code |
| `RegexpSimple.SimpleLine` | quickjs/libregexp.c:1032-1071 | simple code has at most one outcome and consumes exactly that number of characters |
| `RegexpLimits.FastLoopAgrees` | quickjs/libregexp.c:2450-2488 | the fast greedy loop and the general one offer the same ends in the same order, for every minimum and maximum, with a check or without |
| `RegexpCorrect.EmitImplements` | quickjs/libregexp.c:1502-1770 | compiled code, wherever it is placed, offers exactly the outcomes of its pattern in their order, captures included, and leaves the stack as it was |
| `RegexpMatch.ProgramFinds` | quickjs/libregexp.c:1851-1873 | the whole program stops in the state of the first match, or fails |
| `RegexpExec.Machine.GreedyLoop` | quickjs/libregexp.c:2465-2476 | the loop without saved states gives the count and the position of the greedy run |
| `RegexpExec.Machine.Advance` | quickjs/libregexp.c:2105-2493 | every instruction, updating the fields in place, does the step of the machine |
| `RegexpExec.Machine.Consult` | quickjs/libregexp.c:2118-2166 | each kind of saved state is used or dropped as the machine says; captures are kept by a positive lookahead only |
| `RegexpExec.Machine.Backtrack` | quickjs/libregexp.c:2089-2494 | the loop ends where the run of the machine ends |
| `RegexpExec.CodePrepared` | quickjs/libregexp.c:1502-1770 | in compiled code all ranges are sorted for the binary search |
| `RegexpExec.LreExec` | quickjs/libregexp.c:2496-2535 | the result and the captures of the first match that the search defines; they hold what `FindReports` says, and without back references the result is 0 only if there is no match |
| `RegexpExists.OutcomeMatches` | quickjs/libregexp.c:2089-2494 | every outcome is a match in the sense of sets of positions |
| `RegexpExists.MatchOutcome` | quickjs/libregexp.c:2089-2494 | every match is an outcome |
| `RegexpExists.FindDecides` | quickjs/libregexp.c:1851-1873 | the search finds something if and only if some position matches |
| `RegexpExists.ProgramDecides` | quickjs/libregexp.c:2089-2494 | for patterns without back references whose lazy loops advance, the machine stops, and with success if and only if some position matches; lookarounds of all four kinds included |
| `RegexpLimits.StuckForever` | quickjs/libregexp.c:1594-1598 | a lazy loop without progress and without a way on never stops |
| `RegexpLimits.EmptyLazilyRunsForever` | quickjs/libregexp.c:1594-1598 | the pattern `(?:)*?c` runs for ever on the empty subject |
| `RegexpEndless.LoopFate` | quickjs/libregexp.c:1594-1637 | a lazy loop without a check succeeds, fails or never ends exactly as a search says that tries what follows and then the outcomes of the body in order, and is endless if one stays in place before any is accepted |
| `RegexpLazy.LazyProgramFate` | quickjs/libregexp.c:1594-1637 | the program of `(?:r)*?s`, r without captures, never stops if and only if that search is endless, and otherwise stops with its result |
| `RegexpStack.EmitStays` | quickjs/libregexp.c:1502-1770 | all code keeps to instruction boundaries and to the depths of the linear scan, after every insertion, copy and reversal |
| `RegexpDepth.StepKeeps` | quickjs/libregexp.c:2089-2494 | each step of the machine keeps the invariant, the saved states included |
| `RegexpDepth.EveryRunInOrder` | quickjs/libregexp.c:2089-2494 | on every run each pc is an instruction and the stack has the depth of the scan there |
| `RegexpDepth.StackFits` | quickjs/libregexp.c:1772-1815 | the stack never exceeds the size in the header |
| `RegexpDepth.MaxDepthReached` | quickjs/libregexp.c:1772-1815 | the size in the header is the depth of the scan at some place, not more |
| `RegexpScan.ComputeStackSize` | quickjs/libregexp.c:1772-1815 | the loop computes the largest depth, or an error beyond the limit |
| `RegexpCompiler.MakeRoom` | quickjs/libregexp.c:114-121 | the bytes behind a position move up in place, although the two places overlap, and those below it stay |
| `RegexpCompiler.Compiler.Quantify` | quickjs/libregexp.c:1566-1699 | insertions, copies and jumps of all quantifier cases give the code of the quantifier |
| `RegexpCompiler.Compiler.Concatenation` | quickjs/libregexp.c:1704-1736 | terms in order, or reversed inside a lookbehind by moving code |
| `RegexpCompiler.Compiler.Disjunction` | quickjs/libregexp.c:1738-1770 | a split is inserted before the first alternative and its jump patched |
| `RegexpCompiler.Compiler.Pattern` | quickjs/libregexp.c:1502-1770 | the buffer grows by exactly the code of the pattern, or there are too many captures or ranges |
| `RegexpCompiler.Compiler.Compile` | quickjs/libregexp.c:1820-1909 | the program of the pattern and its stack size, or an error exactly when a limit is exceeded |
| `SortParts.InsertionSort` | quickjs/cutils.c:623-627 | the segment is sorted, and permuted within itself |
| `SortParts.HeapSort` | quickjs/cutils.c:470-502 | the segment is sorted, and permuted within itself |
| `HybridSort.Med3` | quickjs/cutils.c:504-509 | one of the three, neither above nor below both others |
| `HybridSort.Partition` | quickjs/cutils.c:542-600 | smaller, equal and greater elements in three zones, the equal one not empty |
| `HybridSort.SortSegment` | quickjs/cutils.c:529-628 | depths on the stack are strictly increasing and at most 50, so 50 entries are enough; the work left shrinks |
| `HybridSort.Rqsort` | quickjs/cutils.c:511-629 | for every total preorder the array ends sorted and is a permutation of what it was |

## Left out

- Allocation failures, buffer growth, aliasing copies through `bf_op2` and `bf_move`, and debug printing: buffers have the stated size, and results that are resized are new arrays.
- LimbOps.MpMul: is the schoolbook product whatever the length; the branch for long operands is `FftMul.FftMul`.
- NttMul.NttConv: transforms longer than 2^NTT_TRIG_K_MAX, which the library splits, are not modelled, nor are the AVX2 branches.
- FftMul.FftMul: the choice of the length, the piece size and the moduli by `bf_get_fft_size` is given by what it guarantees (`FftMul.Plan`).
- The roots of unity, the moduli and the inverse constants are hypotheses of `Ntt.NttFft`, `NttMul.NttConv` and `Crt.NttToLimb`; the numeric tables are not part of this model.
- `exp`, `log`, `sin`, `pi` and the decimal numbers (`bfdec`).
- Multiplication, division and square root of floating point numbers: only addition is followed from operands to rounded result.
- FloatAdd.AddInternal: a finite precision counted from the radix point (BF_FLAG_RADPNT_PREC) is excluded, as libbf.h (122-124) excludes it for this operation; `FloatAdd.RadixPointSum` shows that it has to be. The precision is at least 1. The exponents of zero, infinity and NaN are a field `kind`.
- Float.RoundingCorrect: the range of exponents is at least 2; with the smallest number of exponent bits of the library, 3, it is 4.
- Float.Bf.Round: precision zero counted from the radix point is covered for exponents below the largest one only, because the largest number with no bits does not exist.
- Bitwise.LogicOperation: adding or subtracting one makes a new object that is then moved, as `bf_op2` does.
- Radix.ToRadix: numbers are integers rather than `bf_t` values; the reciprocal, its rounding and the rounding of the product are those of the code, on mantissas.
- Scanning of pattern text (escapes, group names, Annex B): the model starts from a syntax tree. Groups that do not capture leave no trace in it.
- Byte encoding of operands: the first cell of an instruction holds the instruction with its operands, the other cells are fillers, and all sizes, positions and jumps are those of the byte code. Code sizes are not limited to 32 bits.
- RegexpCorrect.EmitImplements: unbounded loops for which the compiler emits no zero-advance check (lazy ones, and those that refer back to captures) must have bodies that always advance; `RegexpLimits.StuckForever` shows why, and `RegexpEndless.LoopFate` what happens otherwise. Outcomes are those of the code: captures are reset once before a loop, and an empty iteration goes on rather than fails.
- RegexpExec.LreExec: the start does not cut a surrogate pair, since only then does going back undo going forward (`RegexpInput.PrevUndoesGet`). The machine's time and the limit on saved states are not modelled.
- RegexpCaptures.OutcomeGroups: of a group that contains a back reference only the order of the two ends is stated, and that they do not cut a surrogate pair, because sets of positions give no meaning to back references; `RegexpCorrect.EmitImplements` gives the outcomes of such groups.
- RoundOrder.SmallestUnit: the precision does not count from the radix point, where the last place is fixed by `Float.LastPlace`.
- Case folding is any function of characters; folding of classes at compile time is not modelled.
- RegexpScan.CheckAdvanceScan: the bitmap of captures is a set.
- CharRange.Range.Merge: points are unbounded numbers, and the operands are sorted lists of even length.
- HybridSort.Rqsort: elements are values of any type rather than bytes of a given size, so the choice among exchange functions is not modelled.

# Portable constant-folding arithmetic

`osprey1.0/arith` is the arithmetic with which the compiler folds constants. It computes every result on 16-bit limbs with
shift and add loops, so that a compilation gives the same constants on every host. This project models its IEEE 754
add, subtract, multiply, divide, compare and convert routines with the normalizer they share, its 64-bit integer
routines, its shifters, its Cray addition and multiplies, the conversions between the two formats, and the
page cache of its simulator, and proves what they compute.

## How the model is laid out

* `Ieee754.dfy` says what a correct result is, without looking at any routine. A finite number is a whole number of
  units, the unit being the least denormalized number, so an exact result is a fraction `num/den` of units.
  `NearestEven` compares a number with every finite number of the format; `Truncated` is the largest number not above;
  `NearestUnique` and `TruncatedUnique` show that each determines its result.
* `Normalizer.dfy` has `ar_i64norm` as a function of one register (left bits, coefficient and rounding bits side by
  side) and the proof that it rounds correctly what the register stands for. `Addition.dfy`, `Multiply.dfy` and
  `Division.dfy` show what register each operation hands over; `Compare.dfy`, `Conversions.dfy` and `Narrowing.dfy`
  build on them.
* `Exactness.dfy` says of every register exactly when the normalizer is right, `DivisionExactly.dfy` of every pair of
  operands exactly when the quotient is, and `Directed.dfy`, `DirectedSums.dfy` and `DivisionDirected.dfy` judge the
  directed modes. `Specials.dfy` gives class, sign and flags of every sum, difference, product and quotient, with
  infinities, NaNs and zeros among the operands.
* The operations themselves are methods on `Number` (in `Numbers.dfy`), a record with sign, exponent and a row of
  coefficient limbs that is updated in place; the result may be the same object as an operand. Records that the
  C code keeps as local structures are rows of limbs in local variables. Every method is proved equal to the function of
  its operands about which the theorems are stated.
* `Format` carries the widths, so one text covers the 32-bit and the 64-bit routines: `IEEE32` and `IEEE64`.
* `Limbs.dfy` has the limb macros, `Words.dfy` the 64-bit integer ones, and `Powers.dfy` the laws of products and
  powers of two. `Mul(a, b)` there is the product of two unknowns.
* `Cray.dfy` has the pyramids of the Cray multiplies, `CrayAddition.dfy` the record `CrayNumber` and the Cray addition,
  `CrayMultiply.dfy` the multiplies on whole records, and `Interchange.dfy` the conversions from Cray to IEEE and back.
  `InterchangeModes.dfy` and `ConversionModes.dfy` cover the operands, modes and flags that the main theorems of the
  conversions leave open. `NearestCray` compares a number with every Cray number, as `NearestEven` does for IEEE numbers.
* `Integers.dfy`, `Power.dfy`, `Bits.dfy` and `Pages.dfy` stand for themselves.

The default state register is assumed: denormalized numbers are kept and do not trap. The host is not MIPS.

## What turned out not to hold

* `ar_i64norm` repeats the sticky bit when it shifts left, and at a negative exponent mishandles a carry out of the last
  rounding. It rounds correctly whatever number the register stands for exactly if at most one left shift is made of a
  sticky bit and a negative exponent leaves room for the carry, or if all those numbers round to infinity anyway
  (`Exactness.SettledExactly`); for one number, `Exactness.NormExactly` says when. The second failure is not reached: no
  operation hands over such a register.
* `ar_ifmul64` with a denormalized operand can need two left shifts of a sticky bit. `Multiply.MulExactly` says for which
  operands the product is right, and for which INEXACT is; `Multiply.DenormalMultiplyResult` names two that fail.
* In the directed modes `ar_i64norm` bumps exact results of one sign, overflows to infinity in both directions, and
  loses INEXACT in a carry. `Directed.DirectedExactly` says when value and flag are right, `Directed.AddDirected`,
  `Directed.AddDirectedZero`, `Directed.AddDirectedFar`, `Directed.AddDirectedFarInexact`, `Directed.MulDirected` and
  `Directed.MulDirectedUnsettled` for all sums and products, `DirectedSums.SumDirected` and
  `DirectedSums.DifferenceDirected` for sums and differences of operands in any order, `DivisionDirected.DivDirected` for
  all quotients. `Directed.DirectedFailures` says what is delivered instead. In ZERO infinity is delivered beyond the
  format (`Directed.ZeroExactly`).
* `ar_ifdiv64` compares the remainder with truncated halves, quarters and eighths of the divisor.
  `DivisionExactly.DivExactly` says for which quotients this delivers the wrong neighbour or the wrong INEXACT, and
  `DivisionExactly.DivisionFails` names two operands.
* `ar_ifadd64` drops the sign and the implicit bit of an operand more than 55 places below the other. NEAREST is right all the
  same; `Addition.FarZero`, `DirectedSums.SumTruncated` and `DirectedSums.DifferenceTruncated` say when ZERO is, and
  `Addition.AddDelivers` when INEXACT is.
* `ar_ifix64` looks at the sign after it has cleared it, so the directed modes round negative values the wrong way
  (`Conversions.FixDirected`), and it reports OVERFLOW for -2^63 and takes infinities and NaNs for numbers of the next
  exponent (`Conversions.FixLarge`).
* `ar_i64to32` makes zeros of denormalized numbers, which is wrong in the direction away from zero
  (`ConversionModes.NarrowDenormalDirected`).
* `ar_i32to64` gives denormalized numbers the wrong value (`Narrowing.WidenExactly`).
* `ar_itoc64` gives a denormalized number an exponent that is one too large, so that it arrives as twice its value, and
  rounds negative numbers the wrong way in the directed modes (`Interchange.ToCrayExactly`,
  `InterchangeModes.ToCrayDenormal`). `ar_ctoi64` makes a NaN of a number out of range (`InterchangeModes.OutOfRangeStays`).
* `ar_cfadd64` does not report INEXACT for an operand more than 48 places below the other, for the bit that a carry
  shifts out, or for a sum that cancels to zero after bits were lost (`CrayAddition.InexactExactly`), and out-of-range
  operands that cancel give zero without OVERFLOW (`CrayAddition.AddOutcome`).
* `ar_cfmul128` does not report INEXACT for the bit that a carry shifts out, reports OVERFLOW for products of the largest
  exponent, and turns products beyond the range into zero (`CrayMultiply.DoubleDelivers`); exponents that are off by more
  than 2^14 wrap round and turn the sign (`CrayMultiply.DoubleOutcome`). The reciprocal iteration of `ar_cfmul64`
  has no room for the sum if the product of the coefficients is next to nothing (`CrayMultiply.SingleOutcome`).
* `ar_power` tests the leading bit of the power whatever its type, so that unsigned powers of 2^63 and more count as
  negative: 3 to the power 2^63 is delivered as zero without an error (`Power.PowerFails`). It also takes the largest
  unsigned number for -1. `Power.PowerExactly` says when the result is the power.
* `AR_ishftc` writes its result before it has read the field, which is lost if the result is the operand
  (`Bits.AliasedExactly`).

## Model

| member | source | states |
|---|---|---|
| Limbs.Add | osprey1.0/arith/arith.internal.h:1045-1075 | the limb rows with a carry in spell the sum of the two numbers, the carry out counting one full range |
| Limbs.Not | osprey1.0/arith/arith.internal.h:1174-1178 | the complemented row spells the largest number minus the number |
| Limbs.ShiftLeft | osprey1.0/arith/arith.internal.h:1194-1202 | twice the number plus the incoming bit, less the full range if the top bit went out |
| Limbs.ShiftRight | osprey1.0/arith/arith.internal.h:1286-1294 | the number halved, a bit entering at the top being worth half the range |
| Limbs.GuardBits | osprey1.0/arith/ieee_fmul.c:250-254 | the top three bits are the quotient by their weight, and the sticky test tells whether a remainder is left |
| Limbs.ValInjective | osprey1.0/arith/arith.internal.h:998-1003 | a number is spelled by one row of limbs only |
| Ieee754.MagnitudeOrder | osprey1.0/arith/compare.c:141-173 | exponent first and coefficient second order the magnitudes of a format as numbers |
| Ieee754.NearestUnique | osprey1.0/arith/ieee_norm.c:225-230 | at most one magnitude is nearest with ties to even, so the rounding specification determines the result |
| Ieee754.CorrectUnique | osprey1.0/arith/ieee_norm.c:217-236 | the same for rounding to nearest and for truncation |
| Normalizer.JamStands | osprey1.0/arith/ieee_norm.c:207-215 | a right shift that keeps the sticky bit keeps what a register stands for: exactly if even, within its last place if odd |
| Normalizer.JamNValue | osprey1.0/arith/ieee_norm.c:207-215 | k such shifts give the quotient by 2^k with any remainder ORed into the last bit |
| Normalizer.NormDelivers | osprey1.0/arith/ieee_norm.c:186-275 | in NEAREST and ZERO the normalizer returns the correctly rounded value of the number that its arguments encode at their exponent, and OVERFLOW, UNDERFLOW, INEXACT, ZERO and NEGATIVE exactly when they apply, for every register that settles and has room |
| Normalizer.NormFlags | osprey1.0/arith/ieee_norm.c:186-275 | in every mode the result has the given sign, NEGATIVE, OVERFLOW and ZERO tell its sign and class, and UNDERFLOW tells a zero that is not exact |
| Exactness.NormExactly | osprey1.0/arith/ieee_norm.c:186-275 | for every register and every number it can stand for, NEAREST and ZERO are right if and only if a negative exponent leaves room, or half the number is too large already; and at other exponents if and only if the register settles, the number is near enough to what the left shifts fill the register up to, or both are too large for the format |
| Exactness.SettledExactly | osprey1.0/arith/ieee_norm.c:186-275 | NEAREST is right for every number a register can stand for if and only if the sticky bit is clear or at most one left shift is made, and a negative exponent leaves room for a carry, or the least of those numbers, at a negative exponent half of it, rounds to infinity |
| Exactness.LowExactly | osprey1.0/arith/ieee_norm.c:206-253 | at a negative exponent the result is right if and only if the register has the room that the mode needs or half the number is too large for the format |
| Exactness.TwoShiftsInZero | osprey1.0/arith/ieee_norm.c:193-199 | in ZERO two left shifts of a sticky bit are right for every number |
| Exactness.UnsettledFails | osprey1.0/arith/ieee_norm.c:193-199 | a register with a sticky bit and two or more left shifts stands for a number that is rounded to the wrong neighbour, unless the least one rounds to infinity |
| Exactness.LateCarryNorm | osprey1.0/arith/ieee_norm.c:240-253 | a register whose exact value should round to the least number of exponent 2 is packaged with exponent 1 |
| Exactness.LateCarryNearest | osprey1.0/arith/ieee_norm.c:240-253 | the correct result of that register has exponent 2, and the delivered one is not nearest |
| Exactness.LateCarryEncodes | osprey1.0/arith/ieee_norm.c:240-253 | the register stands for that number |
| Directed.DirectedExactly | osprey1.0/arith/ieee_norm.c:186-275 | in the directed modes the result is the one of section 4.2 of IEEE 754 if and only if the direction points away from zero, or the exact value is neither a number of the format nor beyond all of them; INEXACT is wrong if and only if, away from zero, a carry up to the largest number loses the last rounding bit, or, towards zero, the exact value is a number of the format below the largest, which is bumped |
| Directed.UnsettledDirected | osprey1.0/arith/ieee_norm.c:193-275 | with two or more left shifts of a sticky bit the directed result is right if and only if the number is less than a last place, or at most one, below the filled register, or away from zero is beyond the largest number when the filled register is beyond the format; INEXACT fails for the number a place below alone |
| Directed.ZeroExactly | osprey1.0/arith/ieee_norm.c:229-275 | in ZERO the result is the largest number not above the exact value if and only if that is not beyond the format |
| Directed.DirectedFailures | osprey1.0/arith/ieee_norm.c:229-275 | where the directed modes fail they deliver the number after one of the format, and infinity beyond the format |
| Directed.AddDirected | osprey1.0/arith/ieee_fadd.c:284-363 | value and INEXACT, as above, for the nonzero sums of all finite operands that are near enough to be aligned |
| Directed.AddDirectedZero | osprey1.0/arith/ieee_fadd.c:284-363 | a zero sum has the sign of section 6.3 of IEEE 754 if and only if MINUS_INFINITY does not ask for minus |
| Directed.AddDirectedFar | osprey1.0/arith/ieee_fadd.c:289-295 | for operands more than P + 3 places apart the directed sum is right if and only if the small coefficient is not zero and its sign plus, or it is zero, the direction points away from zero, and there is no implicit bit or it has the other sign |
| Directed.AddDirectedFarInexact | osprey1.0/arith/ieee_fadd.c:289-295 | for such operands INEXACT is right if and only if the small coefficient is not zero and no carry in PLUS_INFINITY loses it, or away from zero the small operand is zero, or towards zero the large one is the largest number |
| Directed.MulDirected | osprey1.0/arith/ieee_fmul.c:199-258 | value and INEXACT, as above, for nonzero products of all normal operands, and of all others that need no two left shifts of a sticky bit |
| Directed.MulDirectedUnsettled | osprey1.0/arith/ieee_fmul.c:199-258 | the exact conditions on value and INEXACT for all other products |
| Numbers.Number.ShiftLeft | osprey1.0/arith/arith.internal.h:1194-1202 | the coefficient doubled, the new bit entering and the leading bit dropped, sign and exponent unchanged |
| Numbers.Number.ShiftRight | osprey1.0/arith/arith.internal.h:1286-1294 | the coefficient halved with a bit entering at the top |
| Numbers.Number.Increment | osprey1.0/arith/arith.internal.h:1119-1137 | the coefficient plus the carry, modulo the coefficient range, and the carry out |
| Numbers.Number.Complement | osprey1.0/arith/arith.internal.h:1174-1178 | the one's complement of the coefficient |
| Numbers.NormalizeLeft | osprey1.0/arith/ieee_norm.c:192-199 | the left loop is the register function that shifts until the leading bit is set or the exponent is 1 |
| Numbers.NormalizeRight | osprey1.0/arith/ieee_norm.c:206-215 | the right loop ends, and is the register function that keeps the sticky bit |
| Numbers.RoundCoeff | osprey1.0/arith/ieee_norm.c:217-236 | left bits and coefficient afterwards hold the rounded significand, for all four modes as coded |
| Numbers.Normalize | osprey1.0/arith/ieee_norm.c:173-291 | the record and the status after normalizing, rounding and packaging are those of the register function about which the rounding theorem is proved |
| Multiply.SumPyramid | osprey1.0/arith/ieee_fmul.c:213-242 | the pyramid leaves exactly the product of the significands in left bits, coefficient and extension, although the shifted row loses its top bit on the last step |
| Multiply.NextRow | osprey1.0/arith/ieee_fmul.c:226-241 | one row of the pyramid keeps sum plus remaining rows equal to the product, and the lost bit is the one the left bits started with |
| Multiply.MultiplySignificands | osprey1.0/arith/ieee_fmul.c:244-254 | coefficient and rounding bits are the product cut to three rounding bits, the last one sticky |
| Multiply.Multiply | osprey1.0/arith/ieee_fmul.c:153-258 | result and status for every pair of operands, NaNs, infinities and aliased results included |
| Multiply.MulExactly | osprey1.0/arith/ieee_fmul.c:199-258 | for all finite operands in NEAREST and ZERO, the product is correctly rounded if and only if its register settles, as it does for normal operands, or the product of the significands is near enough to the filled register; INEXACT is right but for a truncated product that the filled register happens to deliver |
| Multiply.MulDelivers | osprey1.0/arith/ieee_fmul.c:199-258 | with a register that settles, the exact product of finite operands correctly rounded with correct flags, down to zero and up to infinity |
| Specials.ProductClass | osprey1.0/arith/ieee_fmul.c:164-258 | in all modes and for all operands: UNDEFINED exactly for NaNs and infinity times zero, then a NaN and no other flag; otherwise the sign of the product, infinite for an infinite operand and zero for a zero one, OVERFLOW exactly if infinite, and UNDERFLOW exactly for zeros that stand for another number |
| Multiply.DenormalMultiplyResult | osprey1.0/arith/ieee_fmul.c:199-258 | a denormalized and a normal operand whose product is delivered as 1 plus six last places |
| Multiply.DenormalMultiplyNearest | osprey1.0/arith/ieee_fmul.c:199-258 | the correct result of that product is one last place lower |
| Addition.AlignedStands | osprey1.0/arith/ieee_fadd.c:284-305 | after sticky alignment, sum and difference of the registers stand for the exact sum and difference of the operands |
| Addition.SumSettled | osprey1.0/arith/ieee_fadd.c:284-305 | an aligned sum or difference with a sticky bit needs at most one left shift: more cancels only when nothing was lost |
| Addition.DifferenceBits | osprey1.0/arith/ieee_fadd.c:307-330 | complement plus addition gives the larger register minus the smaller or one less than the opposite, and bit 1 of the left bits tells which |
| Addition.AddAligned | osprey1.0/arith/ieee_fadd.c:307-341 | left bits, coefficient, rounding bits and sign of x become those of the signed sum, through recomplementing or the end-around carry |
| Addition.CloseBy | osprey1.0/arith/ieee_fadd.c:289-295 | registers within an eighth of a normal significand all round to it |
| Addition.FarNearest | osprey1.0/arith/ieee_fadd.c:289-295 | an operand more than P + 3 places below leaves the other one unchanged in NEAREST, which is the nearest value of the exact sum; INEXACT looks at its explicit coefficient only |
| Addition.FarZero | osprey1.0/arith/ieee_fadd.c:289-295 | for such operands truncation is right if and only if the small one has no ignored sign and no ignored implicit bit, and INEXACT if and only if it is not a mere implicit bit |
| Addition.AddDelivers | osprey1.0/arith/ieee_fadd.c:232-363 | for all finite operands in NEAREST, and all aligned ones in ZERO, the exact sum correctly rounded, with the sign of section 6.3 of IEEE 754 for zero sums and correct flags; INEXACT is correct if and only if the smaller operand is not an overlooked power of two |
| Addition.SubDelivers | osprey1.0/arith/ieee_fadd.c:367-389 | the same for the exact difference |
| DirectedSums.SumDirected | osprey1.0/arith/ieee_fadd.c:218-364 | in the directed modes, for all finite operands in any order: exactly when the sum is rounded as section 4.2 asks, when INEXACT is right, and when a zero sum has the sign of section 6.3 |
| DirectedSums.DifferenceDirected | osprey1.0/arith/ieee_fadd.c:367-389 | the same for the exact difference, the second operand having the opposite sign |
| DirectedSums.SumTruncated | osprey1.0/arith/ieee_fadd.c:284-363 | in ZERO, for operands in any order that are more than P + 3 places apart: exactly when the sum is truncated correctly and INEXACT is right |
| DirectedSums.DifferenceTruncated | osprey1.0/arith/ieee_fadd.c:367-389 | the same for the exact difference |
| Specials.AddClass | osprey1.0/arith/ieee_fadd.c:231-363 | in all modes and for all operands: UNDEFINED exactly for NaNs and infinities of different signs, then a NaN and no other flag; otherwise infinite and zero exactly if the sum must be, with its sign, OVERFLOW exactly if infinite, ZERO exactly if zero, and never UNDERFLOW |
| Specials.SubtractClass | osprey1.0/arith/ieee_fadd.c:367-389 | the same for the difference; a NaN operand is delivered with its own sign |
| Addition.Add | osprey1.0/arith/ieee_fadd.c:218-364 | result and status for every pair of operands, the result possibly being one of them |
| Addition.Subtract | osprey1.0/arith/ieee_fadd.c:367-389 | result and status of subtraction for every pair of operands |
| Limbs.RowOrder | osprey1.0/arith/compare.c:149-172 | limbwise comparison from the top is the order of the numbers |
| Compare.CompareNumbers | osprey1.0/arith/compare.c:117-178 | the status is the order of the represented numbers, infinities included and both zeros equal, or unordered for a NaN |
| Compare.GradualUnderflow | osprey1.0/arith/ieee_fadd.c:367-389 | in NEAREST a difference of finite operands is zero exactly if they compare equal, and otherwise has the sign of the comparison |
| Division.ExactPart | osprey1.0/arith/ieee_fdiv.c:289-357 | the first P + 1 rounds produce exactly the quotient of the shifted dividend by the divisor and leave its remainder |
| Division.QuotientEncodes | osprey1.0/arith/ieee_fdiv.c:265-287 | a register that stands for the quotient of the significands encodes the quotient of the operands at the computed exponent, denormalized divisors included |
| Division.DivDelivers | osprey1.0/arith/ieee_fdiv.c:265-363 | for a divisor significand divisible by eight the exact quotient correctly rounded with correct flags, in NEAREST and ZERO, for normal dividends and all others that need no two left shifts of a sticky bit |
| DivisionExactly.TailDecides | osprey1.0/arith/ieee_fdiv.c:290-361 | the rounding bits found with truncated divisors and the true ones lead to the same result if and only if the quotient is not one of the failing kind |
| DivisionExactly.DivExactly | osprey1.0/arith/ieee_fdiv.c:265-363 | for every finite dividend and finite nonzero divisor in NEAREST and ZERO, the delivered quotient is correctly rounded if and only if quotient and remainder are not of the failing kind, and INEXACT is right if and only if they are not of the misreported kind |
| DivisionExactly.DivisionFails | osprey1.0/arith/ieee_fdiv.c:290-363 | two IEEE 64 operands whose quotient is not rounded to nearest |
| DivisionDirected.DivDirected | osprey1.0/arith/ieee_fdiv.c:265-363 | for every finite dividend and finite nonzero divisor in the directed modes: after at most one left shift the quotient is right if and only if the direction points away from zero, or it is neither a number of the format, nor beyond it, nor taken for the middle of an odd divisor; otherwise if and only if it is near enough to the filled register; and the exact condition on INEXACT |
| Division.AtMost | osprey1.0/arith/ieee_fdiv.c:298-314 | the nested limb comparison is the comparison of the double-width numbers |
| Division.WideSubtract | osprey1.0/arith/ieee_fdiv.c:316-345 | complement-and-add over both rows and one leading bit subtracts exactly |
| Division.DivideLoop | osprey1.0/arith/ieee_fdiv.c:289-357 | quotient register and remainder after the loop, which starts from dividend and divisor in the upper rows |
| Division.NormalizeDivisor | osprey1.0/arith/ieee_fdiv.c:277-284 | a denormalized divisor is shifted until its leading bit is set, the exponent counting the shifts |
| Division.Divide | osprey1.0/arith/ieee_fdiv.c:193-364 | result and status for every pair of operands |
| Specials.QuotientClass | osprey1.0/arith/ieee_fdiv.c:205-363 | in all modes and for all operands: UNDEFINED exactly for NaNs, zero by zero and infinity by infinity, then a NaN and no other flag; otherwise the sign of the quotient, infinite for an infinite dividend or a zero divisor, zero for a zero dividend or an infinite divisor, OVERFLOW exactly if infinite, and UNDERFLOW exactly for zeros of another dividend or of an infinite divisor |
| Conversions.FloatDelivers | osprey1.0/arith/convert.c:511-537 | every signed or unsigned 64-bit integer is correctly rounded in NEAREST and ZERO |
| Conversions.FloatInteger | osprey1.0/arith/convert.c:511-537 | record and status of the conversion |
| ConversionModes.FloatClass | osprey1.0/arith/convert.c:511-537 | in every mode sign, class and flags of the converted integer, which is zero exactly for zero |
| ConversionModes.FloatDirected | osprey1.0/arith/convert.c:511-537 | in the directed modes the integer is rounded as section 4.2 asks if and only if the direction points away from zero, or it is neither a number of the format nor beyond it; and the exact condition on INEXACT |
| Conversions.FixDelivers | osprey1.0/arith/convert.c:317-386 | below 2^63 in magnitude the nearest integer with ties to even, INEXACT exactly for values with a fraction, OVERFLOW exactly from 2^bitsize on, ZERO and NEGATIVE for its sign |
| Conversions.FixDirected | osprey1.0/arith/convert.c:317-386 | in the other modes the integer is the one that the mode asks for if and only if the mode is ZERO, the value not negative, or the value whole; INEXACT exactly for values with a fraction, and the other flags as in NEAREST |
| Conversions.FixLarge | osprey1.0/arith/convert.c:317-386 | from 2^63 on, infinities and NaNs taken for numbers of the next exponent, the value modulo 2^64 under its sign, with OVERFLOW in every mode and SEMIVALID, ZERO and NEGATIVE exactly as stated |
| Conversions.FixNumber | osprey1.0/arith/convert.c:317-386 | integer and status of the conversion in all four modes as coded |
| Conversions.IntegerRoundTrip | osprey1.0/arith/convert.c:511-537 | converting an integer of magnitude at most 2^53 to IEEE 64 and back gives it back |
| Narrowing.NarrowDelivers | osprey1.0/arith/convert.c:980-1015 | every normal IEEE 64 number becomes the correctly rounded IEEE 32 number with correct flags |
| Narrowing.NarrowDenormal | osprey1.0/arith/convert.c:968-978 | zeros and denormalized numbers become the zero that is correct for them; the latter are reported as UNDEFINED and not as INEXACT or UNDERFLOW |
| Narrowing.WidenExactly | osprey1.0/arith/convert.c:1063-1086 | widening keeps the value if and only if the number is normal or zero |
| ConversionModes.NarrowClass | osprey1.0/arith/convert.c:934-1019 | class and flags of every narrowed number in every mode; a NaN keeps its upper coefficient bits, or gets a last place if they are clear |
| ConversionModes.NarrowDirected | osprey1.0/arith/convert.c:980-1015 | the exact conditions on value and INEXACT of normal numbers in the directed modes |
| ConversionModes.NarrowDenormalDirected | osprey1.0/arith/convert.c:968-978 | in the directed modes the zero delivered for a denormalized number is right if and only if the direction points towards zero |
| Narrowing.NarrowWiden | osprey1.0/arith/convert.c:934-1089 | narrowing undoes widening bit for bit if and only if the number is not a nonzero denormalized one; infinities and NaNs included |
| ConversionModes.WidenClass | osprey1.0/arith/convert.c:1023-1089 | class, coefficient bits and flags of every widened number, infinities and NaNs among them |
| Narrowing.NarrowNumber | osprey1.0/arith/convert.c:934-1019 | record and status of narrowing for every operand |
| Narrowing.WidenNumber | osprey1.0/arith/convert.c:1023-1089 | record and status of widening for every operand |
| Integers.MultiplyMagnitudes | osprey1.0/arith/math.c:1271-1452 | the accumulator is the product of the magnitudes modulo 2^64, and overflow is set exactly if the product is larger |
| Integers.MultiplyInteger | osprey1.0/arith/math.c:1235-1482 | the product modulo 2^64, with OVERFLOW exactly if the signed or unsigned type does not hold it |
| Integers.LeadingZerosOf | osprey1.0/arith/bits.c:1091-1119 | the count is the one for which the number lies between the two powers of two, and 64 for zero |
| Integers.DivideRound | osprey1.0/arith/math.c:1984-2003 | one round keeps quotient times scaled divisor plus rest equal to the dividend; the sign bit of the difference is a correct unsigned comparison, values of 2^63 and above included |
| Integers.DivideMagnitudes | osprey1.0/arith/math.c:1958-2004 | quotient and remainder of unsigned division |
| Integers.DivideInteger | osprey1.0/arith/math.c:1928-2018 | quotient and remainder of the magnitudes with the signs of truncating division, and the status for a zero divisor or dividend |
| Integers.WrongSign | osprey1.0/arith/math.c:2128-2172 | a nonzero quotient has the wrong sign exactly for the least number divided by -1 |
| Integers.Divide | osprey1.0/arith/math.c:2122-2172 | OVERFLOW exactly for a zero divisor and for the least signed number divided by -1, and otherwise the truncated quotient; ZERO and NEGATIVE tell its sign |
| Integers.Mod | osprey1.0/arith/math.c:2212-2268 | OVERFLOW exactly for a zero divisor, and otherwise the remainder with the sign of the dividend; ZERO and NEGATIVE tell its sign |
| Power.SquareStep | osprey1.0/arith/native.c:1613-1638 | one round of repeated squaring keeps the power that is to be computed |
| Power.NotASquare | osprey1.0/arith/native.c:1613-1638 | 2^63 is not a perfect square, so a square that overflows is larger than the magnitude of every number of the type |
| Power.RaiseLoop | osprey1.0/arith/native.c:1577-1640 | for a signed type the power of a base of magnitude at least two if the type holds it, and zero with an error exactly if it does not, although the loop stops at the first square that overflows; for an unsigned type the power modulo 2^64 |
| Power.PowerInteger | osprey1.0/arith/native.c:1505-1640 | result and status for every base and power, signed and unsigned: undefined for zero to a power that is not positive, zero for an ordinary base and a power with its leading bit set, whatever its type, and otherwise the power or OVERFLOW for a signed base and the power modulo 2^64 for an unsigned one |
| Power.PowerExactly | osprey1.0/arith/native.c:1533-1560 | the result is the power, OVERFLOW, the power modulo 2^64 or the truncated reciprocal that is asked for, if and only if for negative powers the base is not the largest unsigned word, and for others the leading bit of the power is clear, or the base is 0, 1, -1 or the largest unsigned word, or it is unsigned and even |
| Power.PowerFails | osprey1.0/arith/native.c:1555-1560 | 3 to the unsigned power 2^63 is delivered as zero without an error, which is not the power modulo 2^64 |
| Bits.DoubleShift | osprey1.0/arith/bits.c:144-270 | bit i of the result is bit i + count of the double word, running round its end |
| Bits.CircularShift | osprey1.0/arith/bits.c:808-883 | defined exactly for a field inside the type and a shift inside the field; then the low size bits are rotated and the others kept, as section 13.13 of ISO/IEC 1539:1991 asks, or cleared if the result is the operand; the result is untouched otherwise |
| Bits.AliasedExactly | osprey1.0/arith/bits.c:835-849 | a result that is the operand is the rotated operand if and only if the field is zero |
| Bits.RotatedBack | osprey1.0/arith/bits.c:808-883 | a circular shift by s followed by one by -s is the identity |
| Cray.SimplePyramid | osprey1.0/arith/cray_fmul.c:143-156 | the bit loop adds the pyramid of truncated halves to the register |
| Cray.FirstChunk | osprey1.0/arith/cray_fmul.c:97-115 | the pass over the first multiplier limb with its early exit, and the shift of all limbs by the places left over, add that part of the pyramid and leave the multiplicand halved sixteen times |
| Cray.SecondChunk | osprey1.0/arith/cray_fmul.c:116-133 | the same for the second limb, the shift leaving out the limb that is zero by then |
| Cray.LastChunk | osprey1.0/arith/cray_fmul.c:134-146 | the last pass, which shifts the third limb alone, adds the rest of the pyramid |
| Cray.FastPyramid | osprey1.0/arith/cray_fmul.c:95-142 | the three-chunk loop adds the same pyramid |
| Cray.BothTexts | osprey1.0/arith/cray_fmul.c:94-157 | from any start, which is all that the round modes differ in, both texts leave the same coefficient, left bits and rounding bits |
| Cray.TruncationError | osprey1.0/arith/cray_fmul.c:74-157 | the pyramid never exceeds the product in 128ths of the last place and falls short of it by less than 40 of them for 48 bits |
| Cray.ExactPyramid | osprey1.0/arith/cray_fmul.c:219-236 | coefficient and extension hold exactly twice the product |
| Cray.RoomToRound | osprey1.0/arith/cray_fmul.c:238-251 | the doubled product leaves room for both increments, so that neither carries out again |
| Cray.MultiplyDouble | osprey1.0/arith/cray_fmul.c:214-260 | the product rounded once, halves upward, to a coefficient of the same length; it carries into the exponent exactly if it rounds to one bit more, and is inexact exactly if it is no multiple of the last place |
| CrayMultiply.ExactProductIs | osprey1.0/arith/cray_fmul.c:209-244 | the exact product of two numbers is a whole number of units at the computed exponent, which the results are compared with |
| CrayMultiply.DoubleDelivers | osprey1.0/arith/cray_fmul.c:209-285 | for normalized operands in range a product in range is the closest Cray number with the right sign, OVERFLOW being reported also for the largest exponent without a carry, and INEXACT being right if and only if no carry alone lost a bit; products out of range become zero with UNDERFLOW, on the large side with OVERFLOW too |
| CrayMultiply.MultiplyDouble | osprey1.0/arith/cray_fmul.c:197-286 | record and status of the double precision product for every pair of operands, sign and exponent being added in one package, the result possibly being one of them |
| CrayMultiply.DoubleOutcome | osprey1.0/arith/cray_fmul.c:209-285 | sign, exponent and flags for every pair of operands: in range, wrapped round with the sign turned, or zero with UNDERFLOW |
| CrayMultiply.SingleDelivers | osprey1.0/arith/cray_fmul.c:58-193 | for normalized operands in range the rounded and the compensated product are normalized, with the right sign and flags, at most 105 and 9 of 128 last places too large and less than 62 and 158 too small, and one place more for a bit shifted out |
| CrayMultiply.ReciprocalDelivers | osprey1.0/arith/cray_fmul.c:85-176 | the reciprocal iteration and the exact product make up a power of two, with less than 238 of 128 last places too many and at most the place shifted out less 71 of 128 too few |
| CrayMultiply.MultiplySingle | osprey1.0/arith/cray_fmul.c:47-194 | record and status of the single precision product for every pair of operands and all three round modes, integer products and aliased results included |
| CrayMultiply.SingleOutcome | osprey1.0/arith/cray_fmul.c:58-193 | for every pair of operands and every mode: an integer with plus for two zero exponents, zero with UNDERFLOW and ZERO for an operand or product too small, the out-of-range exponent with the sign of the product and OVERFLOW for one too large, and otherwise the exponent of the product; the coefficient is off from the product of the coefficients by no more than in range |
| CrayMultiply.IntegersMultiply | osprey1.0/arith/cray_fmul.c:62-176 | integers that are shifted left by 48 places together are multiplied exactly in the modes that round or compensate |
| CrayAddition.AddSigned | osprey1.0/arith/cray_fadd.c:79-99 | coefficient, carry and sign become those of the signed sum, the complement and the carry around it telling which operand was larger |
| CrayAddition.AddDelivers | osprey1.0/arith/cray_fadd.c:43-134 | OVERFLOW exactly for sums beyond the range; otherwise operands of one sign give their exact sum with everything below its last place dropped, normalized unless it is zero, and for different signs the result is too large in the direction of the operand with the larger exponent, by less than a last place of that operand |
| CrayAddition.InexactExactly | osprey1.0/arith/cray_fadd.c:64-76 | INEXACT is right for every sum in range if and only if no operand was replaced by zero, no carry alone lost a bit, and no zero is left of a sum that lost bits |
| CrayAddition.AddOutcome | osprey1.0/arith/cray_fadd.c:43-134 | for every pair of operands: zero with UNDERFLOW and ZERO below the range, zero with ZERO alone if nothing is left, the out-of-range number with plus and OVERFLOW for operands or sums beyond the range, its coefficient holding the first bits of the sum, and otherwise the sum with NEGATIVE for its sign; INEXACT tells whether alignment lost a bit |
| CrayAddition.AddCommutes | osprey1.0/arith/cray_fadd.c:52-56 | result and status do not depend on the order of the operands |
| CrayAddition.AddZero | osprey1.0/arith/convert.c:632-634 | adding zero to a normalized number in range gives the number back |
| CrayAddition.Add | osprey1.0/arith/cray_fadd.c:43-134 | record and status for every pair of operands, the result possibly being one of them |
| Interchange.ToIeeeDelivers | osprey1.0/arith/convert.c:774-788 | every Cray number in range, normalized or not, becomes the correctly rounded IEEE 64 number with correct flags, down to denormalized numbers and zero and up to infinity |
| Interchange.CrayToIeee | osprey1.0/arith/convert.c:751-789 | record and status of the conversion for every operand |
| Interchange.ToCrayDelivers | osprey1.0/arith/convert.c:606-634 | in NEAREST a normal number becomes the nearest of all Cray numbers, ties to even, and a denormalized one the nearest to twice its value; INEXACT is never reported |
| Interchange.ToCrayExactly | osprey1.0/arith/convert.c:586-635 | in every mode and for every finite number the delivered number is the one that the mode asks for among all Cray numbers if and only if the operand is zero, or normal and either not negative, or converted in NEAREST or ZERO, or a Cray number |
| Interchange.IeeeToCray | osprey1.0/arith/convert.c:586-635 | record and status of the conversion for every operand and all four modes as coded |
| InterchangeModes.ToCrayClass | osprey1.0/arith/convert.c:586-635 | in every mode a finite number other than zero becomes a normalized number in range of its sign with no flag but NEGATIVE, a zero the Cray zero with ZERO, an infinity or NaN the out-of-range number with OVERFLOW under the sign the result had |
| InterchangeModes.ToCrayDenormal | osprey1.0/arith/convert.c:606-634 | in every mode a denormalized number is delivered as the mode asks for twice its value, if and only if it is not negative, or the mode is NEAREST or ZERO, or twice the value is a Cray number |
| InterchangeModes.OutOfRangeStays | osprey1.0/arith/convert.c:586-789 | a Cray number out of range becomes a NaN of its sign with OVERFLOW, and that the out-of-range number again |
| Interchange.RoundTrip | osprey1.0/arith/convert.c:586-789 | converting a normalized Cray number in range to IEEE 64 and back gives the same bits if and only if its exponent is that of a normal IEEE number |
| Pages.Cache.ReadPage | osprey1.0/arith/cray1_sim.c:3512-3525 | reading a page keeps every resident page equal to the memory |
| Pages.Cache.LoadWord | osprey1.0/arith/cray1_sim.c:3502-3527 | a load has the outcome it has on the flat memory, whichever pages are resident |
| Pages.Cache.StoreWord | osprey1.0/arith/cray1_sim.c:3563-3587 | a store has the effect it has on the flat memory, and is fatal below data_size and beyond the extra page |
| Pages.Cache.Run | osprey1.0/arith/cray1_sim.c:3484-3587 | any run of loads and stores has the outcomes it has on the flat memory |
| Pages.LoadsSeeLastStore | osprey1.0/arith/cray1_sim.c:3502-3587 | over any run a load that is not fatal delivers the last value stored at its address or else the file or fill word, and initialized words never change |
| Pages.FatalExactly | osprey1.0/arith/cray1_sim.c:3502-3587 | over any run a load is fatal if and only if its offset is negative, beyond the extra page, or on it before anything was stored there; a store is done if and only if it goes beyond the initialized data and not beyond the extra page |
| Pages.PagesEnough | osprey1.0/arith/cray1_sim.c:3479-3480 | the pages before the extra one hold all initialized data, the last of them some |

## Left out

- Normalizer.NormDelivers: in ZERO takes infinity for the correct result beyond the format, as the code does in every mode, where section 7.3 of IEEE 754 asks for the largest number; Directed.ZeroExactly says when that matters.
- Directed.DirectedExactly: asks for room for the increment at a negative exponent, which sums and products leave; Exactness.LowExactly says what is lost without it in the other modes.
- Bits.DoubleShift: models integers of 16-bit limbs, not the 8-bit case, which is the same with one 8-bit limb.
- Integers.DivideMagnitudes: calls the word shifts of int64.h where the source calls AR_shiftl and AR_shiftr.
- Integers.MultiplyInteger: writes the unrolled limb products as one method per multiplier limb.
- The 128-bit IEEE routines, the 8-, 16-, 32- and 46-bit integer cases: the same algorithms at other widths.
- Cray division, and the 128-bit Cray addition and conversions.
- Traps on denormalized numbers and the modes that flush them to zero.
- Square root, reciprocal approximations and everything that calls the host's mathematical library.
- Type tags, complex and pointer arithmetic, string conversion, the simulators' instruction interpreters.
- Bit fields, byte order and C integer promotion: limbs are natural numbers below their range, truncated where the source truncates.
- File input and output: the data file is a sequence of words, at least as long as the data it describes. An address outside the page table, which the source would look up out of bounds, counts as fatal.

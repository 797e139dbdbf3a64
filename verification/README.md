# A verified model of LibTomMath's modular arithmetic and of three Parrot algorithms

This Dafny project models the algorithmic core of the copy of LibTomMath that NQP carries
(`rakudo-star/nqp/3rdparty/libtommath`) and three algorithms of the Parrot virtual machine
(`rakudo-star/parrot/src`), and proves what each of them is for. `dafny verify dfyconfig.toml`
checks the whole project.

## What is modelled

**Numbers.** An `mp_int` is the class `MpInts.MpInt`: a growable buffer of digits `dp`, the count
`used` and a sign. `Valid()` is what the library promises of every number: digits below the base,
the top digit not zero, zero positive, everything from `used` up zero. `Mag()` and `Value()` say
which integer it is. The widths are parameters: `DIGIT_BIT` lies between 4 and 60, an `mp_digit` has
at least one bit more, and an `mp_word` holds `2 * DIGIT_BIT + GUARD_BIT` bits, so that a column can
take `GUARD` products; `mp_word` and `mp_digit` arithmetic wraps explicitly.

**Multiplication** (`Products`, `Multiply`, `MpMul`). Comba and schoolbook multiplication, cut off
above or below a column, work digit by digit; `mp_mul` chooses between them, Karatsuba and
three-way Toom-Cook, which recurse through it.

**Reduction and powers** (`Montgomery`, `MontgomerySetup`, `Barrett`, `Division`, `Reducers`,
`ModulusForms`, `SlidingWindow`, `DroppedPowers`, `Exptmod`, `SignedExponents`). Both Montgomery
reducers, Barrett reduction with its truncated product, long division with an estimated digit, the
folding reductions for moduli near a power of two, and the sliding-window exponentiation over any of
them.

**Number theory** (`Divisibility`, `Invmod`, `InverseSize`, `Roots`, `PrimeNumbers`, `PrimeTable`,
`MillerRabin`, `PrimeTests`, `NextPrime`). Binary extended Euclid with four and with two
coefficients, with bounds for its passes and its results, Newton's roots, Miller-Rabin with Fermat's
little theorem behind it, the combined primality test, the sieve for the next prime, and the table of
small primes with a proof that it is complete.

**Text** (`RadixText`). Printing, reading and measuring numbers in radix 2 to 64.

**Parrot.** `C3` is the merge and the method resolution order over a class hierarchy;
`BucketLists` and `HashTables` are the hash with its bucket store, chains, free list and doubling;
`Quicksort` is the in-place sort.

## Where the code differs from its own description

Each point names the member that states it; everything else is proved for all the inputs it is meant for.

- `mp_iseven` is false of zero, so `mp_invmod_slow` ends when b divides a, and succeeds wrongly
  exactly when b is a power of two above 1 (`Invmod.SlowVerdict`, `Invmod.FalseInverse`).
- `fast_mp_invmod` ends, for an odd b, exactly if b is positive and does not divide a
  (`Invmod.FastEnds`), and returns the inverse negated for a negative a (`Invmod.InvmodFast`).
- It does not bring the result below b (`InverseSize.NotReduced`). The result never exceeds a
  quarter of b for every bit of b and of the odd part of a mod b, and one more
  (`InverseSize.InverseBound`). It is below b whenever Euclid on those two numbers alone stays tame
  (`InverseSize.TameRunReduced`), which is so for every b if a mod b is a power of two times an odd
  number up to 9 (`InverseSize.SmallResidueReduced`).
- Negative powers: for a modulus n above 1 that `mp_reduce_2k` serves rightly, and where the inversion
  succeeds, the result is right exactly if n does not divide the base and it is not the case that the
  base is negative with n and the exponent odd (`SignedExponents.SignSlips`). Each exception has an
  input: `SignedExponents.MultipleSlips`, `SignedExponents.SignSlipsOnce`, and for the moduli served
  wrongly `SignedExponents.SpoiledSlips`. All bases coprime to n and all negative exponents come out
  right exactly if n is even and served rightly (`SignedExponents.NegativeRightExactly`).
- `mp_reduce_2k_setup` keeps one digit of the distance to the power of two; that is right exactly if
  B does not divide the modulus or the modulus is B (`Reducers.TwoKSetupIsRight`), and exactly then
  the reduction is right on all its inputs (`Reducers.TwoKReducesRight`). The moduli that get there
  with the wrong digit are the numbers (2^j - 1) * B with 1 < j < DIGIT_BIT, from 3 * B on
  (`ModulusForms.SpoiledModuli`).
- `mp_exptmod` keeps its promise Y = G^X mod P for all G and all X >= 0 exactly for the moduli above 1
  that are not of this kind (`Exptmod.RightExactly`). Modulo 1 nothing reduces the start value 1, so
  that exponent 0 gives 1 (`Exptmod.ModulusOne`). Modulo each n of this kind the square of n - 1 comes
  out as 2 * B + 1 instead of 1 (`Exptmod.SpoiledSquare`); every result is the power that the window
  makes when each product drops 2^p, and it is right modulo B (`DroppedPowers.RightModuloBase`).
- The comment of `mp_n_root` is wrong exactly for negative numbers that are not exact powers
  (`Roots.PromiseKept`, `Roots.PromiseBroken`).
- The comment of `mp_div` claims normalisation to half the base; the code normalises to a quarter and
  always stays below half (`Division.TopDigitLarge`), and its three-digit comparison is cut short by a
  leading zero digit. One add-back still suffices (`Division.AcceptedIsClose`).
- `mp_prime_is_prime` answers YES to 1 (`PrimeTests.OneIsCalledPrime`).
- `mp_prime_next_prime` does not end for 0, unless a prime congruent to 3 modulo 4 is asked for
  (`NextPrime.ZeroNeverEnds`).
- Asked for such a prime it misses the next number of that form that it would take exactly from 0, 1
  and 2 and between two table entries that are both of that form: the answer is then the first prime of
  their row, which is not above a (`NextPrime.NextPrime`, `NextPrime.SevenFails`). From 1 it is 2. From 0 and 2 the sieve starts at -1 with the residues of 1, passes over 3
  and ends by 1667 (`NextPrime.NextFromMinusOne`, `NextPrime.MinusOneFails`); with up to three rounds
  it ends at 7 (`NextPrime.SevenFromMinusOne`).
- With steps of 4 the sieve never finds a multiple of 3 (`NextPrime.ThreeIsMissed`). From two rounds
  on the round with base 3 makes up for that, so that what it takes is what `mp_prime_is_prime` calls
  prime (`NextPrime.AcceptedIsProbablyPrime`); with one round it takes what passes the round with
  base 2 and has no divisor from 5 on in the table.
- The diminished-radix reducer is never selected, because the test before it accepts every such
  modulus (`ModulusForms.DRIsTwoKL`).
- `Parrot_hash_put` returns no bucket for a new key (`HashTables.HashTable.Put`).

## Model

| member | source | states |
|---|---|---|
| `MpInts.MpInt.constructor` | rakudo-star/nqp/3rdparty/libtommath/bn_mp_init.c:19-45 | a new mp_int is a valid zero |
| `MpInts.MpInt.Clamp` | rakudo-star/nqp/3rdparty/libtommath/bn_mp_clamp.c:25-39 | leading zero digits go, zero becomes positive, the magnitude stays |
| `MpInts.MpInt.UsedIsLength` | rakudo-star/nqp/3rdparty/libtommath/tommath.h:179-182 | in a valid mp_int `used` is exactly the number of base-B digits of the magnitude |
| `MpInts.MpInt.DigitIsStored` | rakudo-star/nqp/3rdparty/libtommath/tommath.h:179-182 | the cells of the buffer are the digits of the magnitude, zero from `used` up |
| `Bits.CountBits` | rakudo-star/nqp/3rdparty/libtommath/bn_mp_count_bits.c:19-40 | the result is the bit length of the magnitude |
| `Products.ColumnsAreRows` | rakudo-star/nqp/3rdparty/libtommath/bn_fast_s_mp_mul_digs.c:52-81 | summing the digit products by columns and by rows gives the same number |
| `Products.LowPlusHigh` | rakudo-star/nqp/3rdparty/libtommath/bn_s_mp_mul_high_digs.c:43-71 | low columns plus high columns are the whole product |
| `Products.LowIsProductMod` | rakudo-star/nqp/3rdparty/libtommath/bn_s_mp_mul_digs.c:44-78 | cutting the rows off at a column keeps the product modulo that power of the base |
| `Multiply.ProductFits` | rakudo-star/nqp/3rdparty/libtommath/bn_fast_s_mp_mul_digs.c:70-74 | while a column holds at most GUARD products and its carry, the mp_word accumulator does not wrap |
| `Multiply.CarryFits` | rakudo-star/nqp/3rdparty/libtommath/bn_fast_s_mp_mul_digs.c:76-80 | the carry out of a full column is small enough for the next one |
| `Multiply.AddColumn` | rakudo-star/nqp/3rdparty/libtommath/bn_fast_s_mp_mul_digs.c:57-74 | the inner comba loop adds exactly the products of one column, in wrapping mp_word arithmetic |
| `Multiply.FastMulDigs` | rakudo-star/nqp/3rdparty/libtommath/bn_fast_s_mp_mul_digs.c:34-102 | c is the product of the magnitudes modulo B^digs, whenever the shorter operand has at most GUARD digits |
| `Multiply.AddRow` | rakudo-star/nqp/3rdparty/libtommath/bn_s_mp_mul_digs.c:61-73 | one row of schoolbook multiplication with its carries, also used for the high rows |
| `Multiply.MulDigs` | rakudo-star/nqp/3rdparty/libtommath/bn_s_mp_mul_digs.c:22-85 | the same product modulo B^digs, for operands of every length |
| `Multiply.MulHighSlow` | rakudo-star/nqp/3rdparty/libtommath/bn_s_mp_mul_high_digs.c:38-75 | c is exactly the value of the columns from digs up |
| `Multiply.FastMulHigh` | rakudo-star/nqp/3rdparty/libtommath/bn_fast_s_mp_mul_high_digs.c:27-93 | the columns from digs up, plus less than B^digs from the digits left over below |
| `Multiply.MulHighDigs` | rakudo-star/nqp/3rdparty/libtommath/bn_s_mp_mul_high_digs.c:21-76 | either branch leaves the high columns, off by less than B^digs |
| `MpMul.KaratsubaIdentity` | rakudo-star/nqp/3rdparty/libtommath/bn_mp_karatsuba_mul.c:126-148 | three products give the middle coefficient, which is never negative, and the pieces recombine to the product |
| `MpMul.KaratsubaMul` | rakudo-star/nqp/3rdparty/libtommath/bn_mp_karatsuba_mul.c:47-162 | c is the product of the magnitudes; the recursion through mp_mul gets smaller |
| `MpMul.CutAt` | rakudo-star/nqp/3rdparty/libtommath/bn_mp_karatsuba_mul.c:80-115 | the copy loops split a number at a digit into quotient and remainder |
| `MpMul.CutInThree` | rakudo-star/nqp/3rdparty/libtommath/bn_mp_toom_mul.c:37-70 | the three parts recombine to the operand and are short; each carries its sign |
| `MpMul.EvaluateAtTwo` | rakudo-star/nqp/3rdparty/libtommath/bn_mp_toom_mul.c:82-142 | the scaled evaluations at 1/2 and 2 in terms of the coefficients of the product |
| `MpMul.Interpolate` | rakudo-star/nqp/3rdparty/libtommath/bn_mp_toom_mul.c:174-244 | the subtractions, halvings and divisions by three recover the coefficients exactly |
| `MpMul.Recomposed` | rakudo-star/nqp/3rdparty/libtommath/bn_mp_toom_mul.c:246-271 | the shifted coefficients add up to the product |
| `MpMul.ToomMul` | rakudo-star/nqp/3rdparty/libtommath/bn_mp_toom_mul.c:25-278 | c is the signed product |
| `MpMul.BaseMul` | rakudo-star/nqp/3rdparty/libtommath/bn_mp_mul.c:34-57 | whichever base multiplier the size test picks, c is the product of the magnitudes |
| `MpMul.Mul` | rakudo-star/nqp/3rdparty/libtommath/bn_mp_mul.c:18-60 | c is a times b for all operands, signs and lengths included, and the mutual recursion ends |
| `Montgomery.MuClears` | rakudo-star/nqp/3rdparty/libtommath/bn_mp_montgomery_reduce.c:47-55 | adding mu times the modulus clears the current digit |
| `Montgomery.RadixInverse` | rakudo-star/nqp/3rdparty/libtommath/bn_mp_montgomery_reduce.c:47-55 | rho yields an inverse of B^e modulo n |
| `Montgomery.RedcUnique` | rakudo-star/nqp/3rdparty/libtommath/bn_mp_montgomery_reduce.c:19-113 | there is one reduced x / R modulo n, so the row-wise and the column-wise reducer agree |
| `Montgomery.RoundOnBuffer` | rakudo-star/nqp/3rdparty/libtommath/bn_mp_montgomery_reduce.c:46-94 | one round zeroes one more low digit, adds a multiple of n and stays within 2m+1 digits |
| `Montgomery.PropagateCarry` | rakudo-star/nqp/3rdparty/libtommath/bn_mp_montgomery_reduce.c:87-92 | the carry loop stays inside the buffer and adds the carry |
| `Montgomery.ReduceRows` | rakudo-star/nqp/3rdparty/libtommath/bn_mp_montgomery_reduce.c:38-113 | the result r has r * R congruent to x and r < n |
| `Montgomery.AddMultiple` | rakudo-star/nqp/3rdparty/libtommath/bn_fast_mp_montgomery_reduce.c:97-107 | adds mu * n to the columns without wrapping any mp_word |
| `Montgomery.CarryOver` | rakudo-star/nqp/3rdparty/libtommath/bn_fast_mp_montgomery_reduce.c:109-111 | a column takes the carry of the one below without wrapping |
| `Montgomery.RoundOfColumns` | rakudo-star/nqp/3rdparty/libtommath/bn_fast_mp_montgomery_reduce.c:68-111 | one column round: digit ix is cleared and the columns are worth x plus a multiple of n |
| `Montgomery.SweepCarries` | rakudo-star/nqp/3rdparty/libtommath/bn_fast_mp_montgomery_reduce.c:121-131 | the final carry pass leaves columns whose masked digits have the same value |
| `Montgomery.ReduceColumns` | rakudo-star/nqp/3rdparty/libtommath/bn_fast_mp_montgomery_reduce.c:26-167 | the result r has r * R congruent to x and r < n, with n.used below GUARD |
| `Montgomery.Reduce` | rakudo-star/nqp/3rdparty/libtommath/bn_mp_montgomery_reduce.c:19-113 | the same for every odd modulus, whichever branch is taken |
| `MontgomerySetup.SeedIsInverse` | rakudo-star/nqp/3rdparty/libtommath/bn_mp_montgomery_setup.c:38 | the start value is an inverse modulo 16 of every odd digit |
| `MontgomerySetup.NewtonStep` | rakudo-star/nqp/3rdparty/libtommath/bn_mp_montgomery_setup.c:24-31 | one step squares the error |
| `MontgomerySetup.RefineDoubles` | rakudo-star/nqp/3rdparty/libtommath/bn_mp_montgomery_setup.c:39-48 | the step as it is computed, with wrap-around, doubles the number of correct bits |
| `MontgomerySetup.Setup` | rakudo-star/nqp/3rdparty/libtommath/bn_mp_montgomery_setup.c:19-54 | an error exactly for an even modulus or zero; otherwise rho * n0 is -1 modulo B |
| `MontgomerySetup.DoubleStep` | rakudo-star/nqp/3rdparty/libtommath/bn_mp_montgomery_calc_normalization.c:42-51 | doubling and subtracting once keeps a power of two reduced |
| `MontgomerySetup.CalcNormalization` | rakudo-star/nqp/3rdparty/libtommath/bn_mp_montgomery_calc_normalization.c:24-54 | a is congruent to B^n.used and at most n; for odd n of at least 3 it is the remainder itself |
| `Barrett.NeverTooLarge` | rakudo-star/nqp/3rdparty/libtommath/bn_mp_reduce.c:27-58 | the estimated quotient never exceeds x / m |
| `Barrett.LowDigitsDoNotMatter` | rakudo-star/nqp/3rdparty/libtommath/bn_mp_reduce.c:40-58 | whatever lies below column k cannot reach the digits the estimate keeps |
| `Barrett.TruncatedProduct` | rakudo-star/nqp/3rdparty/libtommath/bn_s_mp_mul_high_digs.c:18-76 | the truncated product is short of the full one by less than k * B^(k+1) |
| `Barrett.AlmostLargeEnough` | rakudo-star/nqp/3rdparty/libtommath/bn_mp_reduce.c:27-58 | the estimate is short of x / m by less than 3 plus what truncation loses |
| `Barrett.EstimateQuotient` | rakudo-star/nqp/3rdparty/libtommath/bn_mp_reduce.c:27-58 | the quotient is at most x / m and at most k + 2 too small (2 when the full product is used) |
| `Barrett.Recovered` | rakudo-star/nqp/3rdparty/libtommath/bn_mp_reduce.c:60-82 | computing modulo B^(k+1) loses nothing: the difference comes back exactly |
| `Barrett.SubtractDown` | rakudo-star/nqp/3rdparty/libtommath/bn_mp_reduce.c:84-89 | the closing loop reaches the remainder in fewer than c subtractions |
| `Barrett.Reduce` | rakudo-star/nqp/3rdparty/libtommath/bn_mp_reduce.c:22-95 | x becomes x mod m for every x below m squared, with at most k + 2 closing subtractions |
| `Barrett.Setup` | rakudo-star/nqp/3rdparty/libtommath/bn_mp_reduce_setup.c:21-29 | mu is the integer part of B^(2k) / m |
| `Division.DivisionLaw` | rakudo-star/nqp/3rdparty/libtommath/bn_mp_div.c:90-92 | quotient and remainder satisfy a = q * b + r with r smaller than b and signed like a |
| `Division.DivisionUnique` | rakudo-star/nqp/3rdparty/libtommath/bn_mp_div.c:90-92 | and no other pair does |
| `Division.GuessIsLargeEnough` | rakudo-star/nqp/3rdparty/libtommath/bn_mp_div.c:190-202 | the two-by-one guess is never below the true digit |
| `Division.EstimateDigit` | rakudo-star/nqp/3rdparty/libtommath/bn_mp_div.c:190-227 | the correction loop ends with an estimate not below the true digit that passes its own test |
| `Division.AcceptedIsClose` | rakudo-star/nqp/3rdparty/libtommath/bn_mp_div.c:204-227 | what the test accepts is the true digit or one more, even where a zero leading digit cuts the comparison short |
| `Division.TopDigitLarge` | rakudo-star/nqp/3rdparty/libtommath/bn_mp_div.c:151-163 | normalisation makes the top digit of the divisor at least a quarter of the base, and always less than half |
| `Division.SkippedDigit` | rakudo-star/nqp/3rdparty/libtommath/bn_mp_div.c:185-188 | a position the loop skips has quotient digit zero |
| `Division.DivideDigit` | rakudo-star/nqp/3rdparty/libtommath/bn_mp_div.c:190-255 | one quotient digit, with a single add-back at most: 0 <= rest < y * B^(i-t-1) |
| `Division.LeadingDigit` | rakudo-star/nqp/3rdparty/libtommath/bn_mp_div.c:169-182 | the leading quotient digit by repeated subtraction |
| `Division.DividePositive` | rakudo-star/nqp/3rdparty/libtommath/bn_mp_div.c:165-256 | the digits found are the quotient, what is left the remainder |
| `Division.DivideMagnitudes` | rakudo-star/nqp/3rdparty/libtommath/bn_mp_div.c:151-274 | normalising and shifting back does not change the result |
| `Division.Div` | rakudo-star/nqp/3rdparty/libtommath/bn_mp_div.c:103-284 | an error exactly for a zero divisor; otherwise truncated quotient and remainder, with aliasing of operands and results |
| `Roots.ExptD` | rakudo-star/nqp/3rdparty/libtommath/bn_mp_expt_d.c:19-52 | c is a to the power b |
| `Roots.Tangent` | rakudo-star/nqp/3rdparty/libtommath/bn_mp_n_root.c:18-27 | integer powers are convex: s^b lies above the tangent at t |
| `Roots.NewtonProgress` | rakudo-star/nqp/3rdparty/libtommath/bn_mp_n_root.c:57-95 | a step never ends below the integer part of the root, and every step that moves makes progress |
| `Roots.NewtonLoop` | rakudo-star/nqp/3rdparty/libtommath/bn_mp_n_root.c:57-95 | the loop ends, at or above the integer part of the root |
| `Roots.CountDown` | rakudo-star/nqp/3rdparty/libtommath/bn_mp_n_root.c:97-110 | the correction loop ends at the integer part of the root |
| `Roots.NRoot` | rakudo-star/nqp/3rdparty/libtommath/bn_mp_n_root.c:28-127 | an error exactly for root exponent 0 and for an even root of a negative number; otherwise the integer part of the root of the magnitude, with the sign of a |
| `Roots.PromiseKept` | rakudo-star/nqp/3rdparty/libtommath/bn_mp_n_root.c:18-27 | the promise of the comment holds of the result exactly if a is not negative or an exact power |
| `Roots.PromiseBroken` | rakudo-star/nqp/3rdparty/libtommath/bn_mp_n_root.c:18-27 | an input that breaks it: the cube root of -2 comes out as -1 |
| `Roots.AverageAbove` | rakudo-star/nqp/3rdparty/libtommath/bn_mp_sqrt.c:57-68 | averaging never falls below the root |
| `Roots.FirstGuessIsSafe` | rakudo-star/nqp/3rdparty/libtommath/bn_mp_sqrt.c:43-44 | the first guess is never r + 1 for an argument r^2 + 2r |
| `Roots.SqrtRound` | rakudo-star/nqp/3rdparty/libtommath/bn_mp_sqrt.c:57-68 | away from that state a round stays away from it, decreases, and stops only at the root |
| `Roots.Sqrt` | rakudo-star/nqp/3rdparty/libtommath/bn_mp_sqrt.c:19-75 | an error exactly for a negative argument; otherwise r^2 <= arg < (r+1)^2 |
| `Invmod.HalvingStep` | rakudo-star/nqp/3rdparty/libtommath/bn_mp_invmod_slow.c:60-83 | halving u with its coefficients is exact and keeps u = A * x + B * y |
| `Invmod.Loop4Correct` | rakudo-star/nqp/3rdparty/libtommath/bn_mp_invmod_slow.c:59-141 | the loop ends with v = C * x modulo y, v a common divisor of x and y |
| `Invmod.SlowLoop` | rakudo-star/nqp/3rdparty/libtommath/bn_mp_invmod_slow.c:49-141 | the loop computes what Loop4 describes, and ends |
| `Invmod.SlowCorrect` | rakudo-star/nqp/3rdparty/libtommath/bn_mp_invmod_slow.c:145-149 | for a not divisible by b, the exit test succeeds exactly for coprime a and b, and then C inverts a |
| `Invmod.InvmodSlow` | rakudo-star/nqp/3rdparty/libtommath/bn_mp_invmod_slow.c:19-170 | success exactly as SlowSucceeds says; the result is the C found, brought into range, and an inverse unless b divides a |
| `Invmod.SlowVerdict` | rakudo-star/nqp/3rdparty/libtommath/bn_mp_invmod_slow.c:43-47 | the verdict is right except exactly when b is a power of two above 1 that divides a |
| `Invmod.PowerOfTwoOddPart` | rakudo-star/nqp/3rdparty/libtommath/bn_mp_invmod_slow.c:59-83 | the odd part is 1 exactly for the powers of two |
| `Invmod.FalseInverse` | rakudo-star/nqp/3rdparty/libtommath/tommath.h:222 | such a case: 0 is returned as the inverse of 4 modulo 4, because zero counts as not even |
| `Invmod.HalvingStep2` | rakudo-star/nqp/3rdparty/libtommath/bn_fast_mp_invmod.c:60-75 | for an odd modulus one coefficient is enough |
| `Invmod.Halve2Means` | rakudo-star/nqp/3rdparty/libtommath/bn_fast_mp_invmod.c:60-75 | all i factors of two go, and the coefficient becomes (B - m * x) / 2^i with 0 <= m < 2^i |
| `Invmod.FastStepMeans` | rakudo-star/nqp/3rdparty/libtommath/bn_fast_mp_invmod.c:58-115 | a pass in full, for u and v of either sign |
| `Invmod.FastResultMeans` | rakudo-star/nqp/3rdparty/libtommath/bn_fast_mp_invmod.c:58-138 | the result is D after the first pass that makes u zero |
| `Invmod.Loop2Correct` | rakudo-star/nqp/3rdparty/libtommath/bn_fast_mp_invmod.c:58-120 | the loop ends with v congruent to D * y modulo x, v a common divisor |
| `Invmod.FastCorrect` | rakudo-star/nqp/3rdparty/libtommath/bn_fast_mp_invmod.c:124-128 | for odd b not dividing a, success exactly for coprime a and b, and then D inverts a |
| `Invmod.InvmodFast` | rakudo-star/nqp/3rdparty/libtommath/bn_fast_mp_invmod.c:24-143 | success exactly for odd b coprime to a, an error for even b and zero, wherever the loop ends; the result is the D found, raised to zero or above, with the sign of a, so it inverts a up to that sign |
| `Invmod.FastPass` | rakudo-star/nqp/3rdparty/libtommath/bn_fast_mp_invmod.c:58-115 | the body of the loop computes FastStep, the pass that the theorems on passes are about |
| `Invmod.FastLoop` | rakudo-star/nqp/3rdparty/libtommath/bn_fast_mp_invmod.c:38-120 | the loop repeats the pass until u is 0, and ends |
| `Invmod.FastEnds` | rakudo-star/nqp/3rdparty/libtommath/bn_fast_mp_invmod.c:58-120 | for an odd modulus of either sign some number of passes reaches u = 0 exactly if b is positive and does not divide a |
| `InverseSize.NextComparison` | rakudo-star/nqp/3rdparty/libtommath/bn_fast_mp_invmod.c:58-115 | from one comparison to the next both coefficients spread by at most a quarter of b to either side, and u * v halves |
| `InverseSize.PassesAndSize` | rakudo-star/nqp/3rdparty/libtommath/bn_fast_mp_invmod.c:58-138 | at most BitLength(b) + BitLength(odd part of a mod b) passes, and D at most a quarter of b for each of them and one more |
| `InverseSize.InverseBound` | rakudo-star/nqp/3rdparty/libtommath/bn_fast_mp_invmod.c:130-138 | so 4 * c is at most (BitLength(b) + BitLength(odd part of a mod b) + 1) * b, for every odd b that does not divide a |
| `InverseSize.TameEnds` | rakudo-star/nqp/3rdparty/libtommath/bn_fast_mp_invmod.c:58-138 | Euclid on u and v alone, with bounds that do not depend on the coefficients, bounds the last D |
| `InverseSize.TameRunReduced` | rakudo-star/nqp/3rdparty/libtommath/bn_fast_mp_invmod.c:130-138 | where that run of Euclid on b and a mod b is tame, the inverse is below the modulus |
| `InverseSize.TameReduced` | rakudo-star/nqp/3rdparty/libtommath/bn_fast_mp_invmod.c:130-138 | it is enough that the odd part of a mod b is tame against every smaller odd number, whatever b is |
| `InverseSize.SmallResidueReduced` | rakudo-star/nqp/3rdparty/libtommath/bn_fast_mp_invmod.c:130-138 | which is so if a mod b is a power of two times an odd number up to 9 |
| `InverseSize.NotReduced` | rakudo-star/nqp/3rdparty/libtommath/bn_fast_mp_invmod.c:130-138 | the result need not be below the modulus: 820 for 253 modulo 777 |
| `Reducers.Fold` | rakudo-star/nqp/3rdparty/libtommath/bn_mp_reduce_2k.c:19-55 | the passes and subtractions compute Folded, and end below n |
| `Reducers.FoldedKeeps` | rakudo-star/nqp/3rdparty/libtommath/bn_mp_reduce_2k.c:19-55 | folding keeps the residue modulo every divisor m of n modulo which 2^p is d |
| `Reducers.TwoKSetupIsRight` | rakudo-star/nqp/3rdparty/libtommath/bn_mp_reduce_2k_setup.c:19-42 | the digit kept is congruent to 2^p exactly if B does not divide n or n is B |
| `Reducers.TwoKReducesRight` | rakudo-star/nqp/3rdparty/libtommath/bn_mp_reduce_2k.c:19-55 | with the digit kept, x comes out as x mod n for all x below n squared exactly if B does not divide n or n is B |
| `Reducers.LostDistance` | rakudo-star/nqp/3rdparty/libtommath/bn_mp_reduce_2k_setup.c:19-42 | for every other modulus accepted, the digit is 0 and the input 2^p, whose residue is B, goes to 0 |
| `Reducers.Redux` | rakudo-star/nqp/3rdparty/libtommath/bn_mp_exptmod_fast.c:85-133 | every reduction the exponentiation selects returns a value in range, congruent up to its factor |
| `Reducers.FactorInverse` | rakudo-star/nqp/3rdparty/libtommath/bn_mp_exptmod_fast.c:293-303 | that factor is invertible |
| `ModulusForms.ReduceIs2k` | rakudo-star/nqp/3rdparty/libtommath/bn_mp_reduce_is_2k.c:19-46 | testing bit by bit from the second digit up decides whether a is a single digit or 2^L - a is at most B |
| `ModulusForms.ReduceIs2kL` | rakudo-star/nqp/3rdparty/libtommath/bn_mp_reduce_is_2k_l.c:19-38 | yes for one digit, or at least half the digits all ones |
| `ModulusForms.DrIsModulus` | rakudo-star/nqp/3rdparty/libtommath/bn_mp_dr_is_modulus.c:19-37 | yes for at least two digits, all but the lowest all ones |
| `ModulusForms.DRIsTwoKL` | rakudo-star/nqp/3rdparty/libtommath/bn_mp_exptmod.c:70-86 | a diminished-radix modulus never gets as far as the diminished-radix reducer |
| `ModulusForms.SpoiledModuli` | rakudo-star/nqp/3rdparty/libtommath/bn_mp_exptmod.c:70-99 | the moduli that reach `mp_reduce_2k` with the wrong digit are exactly the numbers (2^j - 1) * B with 1 < j < DIGIT_BIT |
| `SlidingWindow.RepProduct` | rakudo-star/nqp/3rdparty/libtommath/bn_mp_exptmod_fast.c:253-259 | reducing a product of stand-ins for powers adds the exponents |
| `SlidingWindow.ReducedExactly` | rakudo-star/nqp/3rdparty/libtommath/bn_mp_reduce_2k.c:19-55 | folding with the digit 0 makes exactly the product that drops 2^p |
| `SlidingWindow.BuildTable` | rakudo-star/nqp/3rdparty/libtommath/bn_mp_exptmod_fast.c:140-191 | cell 1 and every cell of the upper half stand for the power of their index |
| `SlidingWindow.NextBit` | rakudo-star/nqp/3rdparty/libtommath/bn_mp_exptmod_fast.c:237-239 | placing a bit in the window extends the pending exponent by that bit |
| `SlidingWindow.Joined` | rakudo-star/nqp/3rdparty/libtommath/bn_mp_exptmod_fast.c:237-241 | a full window is an index in the filled half of the table |
| `SlidingWindow.FeedBit` | rakudo-star/nqp/3rdparty/libtommath/bn_mp_exptmod_fast.c:217-265 | after one bit, res stands for the bits consumed minus the pending window |
| `SlidingWindow.ReadExponentBit` | rakudo-star/nqp/3rdparty/libtommath/bn_mp_exptmod_fast.c:213-215 | shifting an mp_digit left delivers the bits of the exponent in order |
| `SlidingWindow.FeedExponent` | rakudo-star/nqp/3rdparty/libtommath/bn_mp_exptmod_fast.c:193-266 | the loop has consumed the whole exponent |
| `SlidingWindow.FinishWindow` | rakudo-star/nqp/3rdparty/libtommath/bn_mp_exptmod_fast.c:268-291 | the leftover window completes the exponent |
| `DroppedPowers.RightModuloBase` | rakudo-star/nqp/3rdparty/libtommath/bn_mp_exptmod_fast.c:140-291 | the power the window makes with products that drop 2^p is the true one modulo B, for every base, exponent and multiple of B |
| `DroppedPowers.FirstPowers` | rakudo-star/nqp/3rdparty/libtommath/bn_mp_exptmod_fast.c:140-291 | for the exponents 0, 1 and 2 it is 1, the base and the dropped square |
| `DroppedPowers.Width` | rakudo-star/nqp/3rdparty/libtommath/bn_mp_exptmod_fast.c:43-59 | the window is 2 bits wide for exponents of up to 7 bits, and so on up to 8 bits |
| `DroppedPowers.OpenWindow` | rakudo-star/nqp/3rdparty/libtommath/bn_mp_exptmod_fast.c:237-241 | fewer than w bits from a one on wait in the window |
| `DroppedPowers.UsedWindow` | rakudo-star/nqp/3rdparty/libtommath/bn_mp_exptmod_fast.c:237-265 | w bits from a one on square the result w times and multiply it by the cell they number |
| `DroppedPowers.ZeroBit` | rakudo-star/nqp/3rdparty/libtommath/bn_mp_exptmod_fast.c:221-235 | a zero bit between windows squares the result |
| `DroppedPowers.TimesMeans` | rakudo-star/nqp/3rdparty/libtommath/bn_mp_reduce_2k.c:33-52 | each product of the run drops 2^p and takes n off once |
| `DroppedPowers.CellsAndBits` | rakudo-star/nqp/3rdparty/libtommath/bn_mp_exptmod_fast.c:163-191 | the cells above the middle one have one factor more each, and the leftover bits square and multiply |
| `DroppedPowers.AfterLastWindow` | rakudo-star/nqp/3rdparty/libtommath/bn_mp_exptmod_fast.c:268-291 | the power is what the bits behind the last window make of the result so far |
| `SlidingWindow.PowerWindow` | rakudo-star/nqp/3rdparty/libtommath/bn_s_mp_exptmod.c:30-235 | for any reduction set up for the modulus, the result stands for the power; for one that drops 2^p it is DroppedPower |
| `Exptmod.ExptmodMontgomery` | rakudo-star/nqp/3rdparty/libtommath/bn_mp_exptmod_fast.c:86-307 | an error exactly for an even modulus; otherwise G^X mod n |
| `Exptmod.ExptmodBarrett` | rakudo-star/nqp/3rdparty/libtommath/bn_s_mp_exptmod.c:71-238 | G^X mod n, the same number |
| `Exptmod.ExptmodTwoKL` | rakudo-star/nqp/3rdparty/libtommath/bn_s_mp_exptmod.c:81-238 | G^X mod n by folding with a many-digit distance |
| `Exptmod.ExptmodTwoK` | rakudo-star/nqp/3rdparty/libtommath/bn_mp_exptmod_fast.c:122-307 | G^X mod n by folding if the setup kept the right digit; otherwise DroppedPower, for every exponent |
| `Exptmod.Exptmod` | rakudo-star/nqp/3rdparty/libtommath/bn_mp_exptmod.c:24-105 | for X >= 0: an error exactly for P <= 0; otherwise Outcome: G^X mod P (1 for X = 0 modulo 1), or, for a modulus that is set up wrongly, DroppedPower, which is G^X modulo B |
| `Exptmod.SpoiledSquare` | rakudo-star/nqp/3rdparty/libtommath/bn_mp_exptmod.c:88-99 | modulo every such modulus n the square of n - 1 comes out as 2 * B + 1 instead of 1 |
| `Exptmod.SpoiledValue` | rakudo-star/nqp/3rdparty/libtommath/bn_mp_exptmod.c:88-99 | modulo every such modulus the result is DroppedPower of the residue of G |
| `Exptmod.ModulusOne` | rakudo-star/nqp/3rdparty/libtommath/bn_s_mp_exptmod.c:133-137 | modulo 1 the exponent 0 gives 1 instead of 0 |
| `Exptmod.RightExactly` | rakudo-star/nqp/3rdparty/libtommath/bn_mp_exptmod.c:18-23 | the promise Y = G^X mod P holds for all G and X >= 0 exactly for the moduli above 1 that are not set up wrongly |
| `SignedExponents.Invert` | rakudo-star/nqp/3rdparty/libtommath/bn_mp_invmod.c:19-39 | success exactly as Inverts says, with operands and result possibly the same object; the result is the inverse of a modulo b up to the sign the fast routine slips in (in range for even b), or 0 if b divides a |
| `SignedExponents.NullInverse` | rakudo-star/nqp/3rdparty/libtommath/bn_mp_invmod_slow.c:43-47 | for a multiple of a power of two the slow routine finds 0 |
| `SignedExponents.SignedExptmod` | rakudo-star/nqp/3rdparty/libtommath/bn_mp_exptmod.c:33-66 | for X < 0: success exactly if the inversion succeeds; the result times G^(-X) is 1, or the sign to the power X, modulo P; it is 0 if P divides G, and DroppedPower of the inverse for a modulus that is set up wrongly |
| `SignedExponents.SignSlips` | rakudo-star/nqp/3rdparty/libtommath/bn_mp_exptmod.c:37-60 | where the inversion succeeds and the modulus is above 1 and not set up wrongly, the result is the wanted power exactly if P does not divide G and not all of this holds: negative base, odd modulus, odd exponent |
| `SignedExponents.NegativeValue` | rakudo-star/nqp/3rdparty/libtommath/bn_mp_exptmod.c:37-60 | what the result is where the modulus is not set up wrongly: times G^(-X) it is 1, or -1 exactly where the sign slips |
| `SignedExponents.NegativeUnique` | rakudo-star/nqp/3rdparty/libtommath/bn_mp_exptmod.c:37-60 | one number in range has this property, for a base coprime to the modulus |
| `SignedExponents.SpoiledNegativeValue` | rakudo-star/nqp/3rdparty/libtommath/bn_mp_exptmod.c:37-60 | and where it is, the result is DroppedPower of the inverse in range |
| `SignedExponents.NegativeRightExactly` | rakudo-star/nqp/3rdparty/libtommath/bn_mp_exptmod.c:18-23 | all bases coprime to P and all X < 0 come out right exactly if P is even and not set up wrongly |
| `SignedExponents.MultipleSlips` | rakudo-star/nqp/3rdparty/libtommath/bn_mp_exptmod.c:37-60 | 4 to the power -1 modulo 4 comes out as 0 |
| `SignedExponents.SpoiledSlips` | rakudo-star/nqp/3rdparty/libtommath/bn_mp_exptmod.c:37-60 | -1 to the power -2 comes out as 2 * B + 1 modulo every modulus that is set up wrongly |
| `SignedExponents.OddSlips` | rakudo-star/nqp/3rdparty/libtommath/bn_mp_exptmod.c:37-60 | -1 to the power -1 comes out as 1 modulo every odd P above 1 |
| `SignedExponents.SignSlipsOnce` | rakudo-star/nqp/3rdparty/libtommath/bn_mp_exptmod.c:37-60 | an input where it is not: for -2 to the power -1 modulo 7 the result is 4 |
| `PrimeNumbers.PrimeDividesProduct` | rakudo-star/nqp/3rdparty/libtommath/bn_mp_prime_miller_rabin.c:18-24 | a prime that divides a product divides a factor, by way of the inverses binary Euclid finds |
| `PrimeNumbers.RootsOfOne` | rakudo-star/nqp/3rdparty/libtommath/bn_mp_prime_miller_rabin.c:78-81 | only 1 and -1 square to 1 modulo a prime |
| `PrimeNumbers.Fermat` | rakudo-star/nqp/3rdparty/libtommath/bn_mp_prime_miller_rabin.c:61-67 | b^(p-1) is 1 modulo a prime that does not divide b |
| `PrimeNumbers.LargerPrime` | rakudo-star/nqp/3rdparty/libtommath/bn_mp_prime_next_prime.c:107-158 | above every number there is a prime |
| `PrimeNumbers.LargerPrime3Mod4` | rakudo-star/nqp/3rdparty/libtommath/bn_mp_prime_next_prime.c:107-158 | and one congruent to 3 modulo 4 |
| `MillerRabin.SquaredStep` | rakudo-star/nqp/3rdparty/libtommath/bn_mp_prime_miller_rabin.c:73-76 | squaring moves one step along the chain b^(r * 2^j) |
| `MillerRabin.ChainToOne` | rakudo-star/nqp/3rdparty/libtommath/bn_mp_prime_miller_rabin.c:69-91 | modulo a prime, a 1 in the chain comes from a 1 at its start or from a -1 before |
| `MillerRabin.PrimesAreStrong` | rakudo-star/nqp/3rdparty/libtommath/bn_mp_prime_miller_rabin.c:18-24 | a prime passes for every base it does not divide |
| `MillerRabin.StrongMeans` | rakudo-star/nqp/3rdparty/libtommath/bn_mp_prime_miller_rabin.c:44-91 | with a - 1 = r * 2^s and r odd, whatever r and s: b^r is 1, or b^(r * 2^j) is -1 for some j < s or j = 0 |
| `MillerRabin.StrongIsFermat` | rakudo-star/nqp/3rdparty/libtommath/bn_mp_prime_miller_rabin.c:61-91 | an odd number that passes for b has b^(a-1) = 1 |
| `MillerRabin.MillerRabin` | rakudo-star/nqp/3rdparty/libtommath/bn_mp_prime_miller_rabin.c:25-98 | an error exactly for b <= 1 or a <= 0; otherwise YES exactly as PassesRound says: for strong probable primes, and for a modulus `mp_exptmod` gets wrong exactly if the power it makes is 1 or -1 |
| `MillerRabin.RoundMeans` | rakudo-star/nqp/3rdparty/libtommath/bn_mp_prime_miller_rabin.c:61-95 | what the round says of every a and b |
| `MillerRabin.SpoiledRound` | rakudo-star/nqp/3rdparty/libtommath/bn_mp_prime_miller_rabin.c:61-67 | such a modulus fails the round, as it should, for every base that is not 1 or -1 modulo B |
| `MillerRabin.DivisorFails` | rakudo-star/nqp/3rdparty/libtommath/bn_mp_prime_miller_rabin.c:61-95 | a number fails the round with any of its divisors for the base |
| `PrimeTable.EntryFollows` | rakudo-star/nqp/3rdparty/libtommath/bn_prime_tab.c:17-56 | each entry follows the one before it with nothing but multiples of smaller primes between |
| `PrimeTable.TableIsComplete` | rakudo-star/nqp/3rdparty/libtommath/bn_prime_tab.c:17-56 | any initial part of the table holds exactly the primes up to its last entry |
| `PrimeTests.IsDivisible` | rakudo-star/nqp/3rdparty/libtommath/bn_mp_prime_is_divisible.c:23-46 | yes exactly if a prime up to the last entry divides a |
| `PrimeTests.Rounds` | rakudo-star/nqp/3rdparty/libtommath/bn_mp_prime_is_prime.c:61-72 | the rounds pass exactly if a is a strong probable prime to the first t primes, for every a |
| `PrimeTests.IsProbablyPrime` | rakudo-star/nqp/3rdparty/libtommath/bn_mp_prime_is_prime.c:25-79 | the error cases; YES to 1 and to no number below; prime or not up to the square of the largest entry; above the table YES exactly if no prime up to the last entry divides a and, with a - 1 = r * 2^s, the powers of each of the first t primes pass |
| `PrimeTests.VerdictMeans` | rakudo-star/nqp/3rdparty/libtommath/bn_mp_prime_is_prime.c:61-72 | the verdict above the table in terms of primes and powers alone, in both directions |
| `PrimeTests.PassedIsFermat` | rakudo-star/nqp/3rdparty/libtommath/bn_mp_prime_is_prime.c:61-72 | what is called prime above the table has p^(a-1) = 1 modulo a for each of the first t primes p |
| `PrimeTests.TableDividesMeans` | rakudo-star/nqp/3rdparty/libtommath/bn_mp_prime_is_divisible.c:23-46 | an entry from a given place on divides a exactly if a prime in that range does |
| `PrimeTests.TableEnds` | rakudo-star/nqp/3rdparty/libtommath/bn_prime_tab.c:17-56 | the table has 31 entries up to 127 or 256 up to 1619 |
| `PrimeTests.PrimesPass` | rakudo-star/nqp/3rdparty/libtommath/bn_mp_prime_is_prime.c:18-24 | YES for every prime and every number of rounds |
| `PrimeTests.SmallVerdict` | rakudo-star/nqp/3rdparty/libtommath/bn_mp_prime_is_prime.c:18-24 | above 1 and below the square of the largest entry the answer is exact |
| `PrimeTests.OneIsCalledPrime` | rakudo-star/nqp/3rdparty/libtommath/bn_mp_prime_is_prime.c:18-24 | 1 is answered YES |
| `NextPrime.StepResidues` | rakudo-star/nqp/3rdparty/libtommath/bn_mp_prime_next_prime.c:117-131 | with steps of 2 or 4, every residue cell the sieve relies on stays the remainder of the candidate, and the flag says whether such an entry divides it |
| `NextPrime.ThreeIsMissed` | rakudo-star/nqp/3rdparty/libtommath/bn_mp_prime_next_prime.c:117-131 | with steps of 4 the cell of 3 grows by 1 and never becomes 0 |
| `NextPrime.NextCandidate` | rakudo-star/nqp/3rdparty/libtommath/bn_mp_prime_next_prime.c:108-132 | the sieve stops at the first candidate no such entry divides, or where the step would leave a digit |
| `NextPrime.AfterPass` | rakudo-star/nqp/3rdparty/libtommath/bn_mp_prime_next_prime.c:108-142 | no candidate a pass goes over would have ended the search |
| `NextPrime.TakenIsAccepted` | rakudo-star/nqp/3rdparty/libtommath/bn_mp_prime_next_prime.c:134-158 | above the table the search ends exactly at what is to be taken |
| `NextPrime.AcceptedIsProbablyPrime` | rakudo-star/nqp/3rdparty/libtommath/bn_mp_prime_next_prime.c:144-158 | what is taken is what passes `mp_prime_is_prime` (and is 3 modulo 4 if that is asked for), with steps of 4 from two rounds on |
| `NextPrime.SearchPass` | rakudo-star/nqp/3rdparty/libtommath/bn_mp_prime_next_prime.c:107-158 | one pass of the search loop moves a as Pass describes, from -1 too |
| `NextPrime.Search` | rakudo-star/nqp/3rdparty/libtommath/bn_mp_prime_next_prime.c:95-158 | the search ends at the first candidate above its start that it does not reject, for cells that hold the number or 2 more |
| `NextPrime.ScanResult` | rakudo-star/nqp/3rdparty/libtommath/bn_mp_prime_next_prime.c:41-60 | where the table scan for a prime 3 modulo 4 stops, that is the next one exactly unless the entries around a are both 3 modulo 4 |
| `NextPrime.NextInTable` | rakudo-star/nqp/3rdparty/libtommath/bn_mp_prime_next_prime.c:37-70 | below the largest entry the scan has an answer except from 0, and from 2 if 3 modulo 4 is asked for; it is the next number exactly unless ScanFails; between two entries that are both 3 modulo 4 it is the start of their row, and from 1 it is 2 |
| `NextPrime.NextBySieve` | rakudo-star/nqp/3rdparty/libtommath/bn_mp_prime_next_prime.c:72-158 | from the largest entry on, starting at the number of the right form at or below a |
| `NextPrime.NextPrime` | rakudo-star/nqp/3rdparty/libtommath/bn_mp_prime_next_prime.c:23-163 | ends for every number except 0 with steps of 2; the result is the first number above the old magnitude that is taken exactly unless ScanFails: 3 modulo 4 is asked for, and the magnitude is at most 2 (the result is then 2 from 1, and that of FromMinusOne from 0 and 2) or lies between two entries that are both 3 modulo 4 (the result is then the start of their row) |
| `NextPrime.RunStartUnique` | rakudo-star/nqp/3rdparty/libtommath/bn_mp_prime_next_prime.c:41-60 | that start, the prime 3 modulo 4 at or below a from which on all primes to beyond a are of that form and the one before is not, is unique |
| `NextPrime.AcceptedMeans` | rakudo-star/nqp/3rdparty/libtommath/bn_mp_prime_next_prime.c:107-158 | what is taken above the table in terms of primes and powers alone: no prime from 2, or from 5 with steps of 4, divides it and the powers pass |
| `NextPrime.TakenMeans` | rakudo-star/nqp/3rdparty/libtommath/bn_mp_prime_next_prime.c:107-158 | what ends the search in the same terms, for cells that hold n + shift |
| `NextPrime.NextFromMinusOne` | rakudo-star/nqp/3rdparty/libtommath/bn_mp_prime_next_prime.c:79-158 | from 0 and 2, asked for 3 modulo 4, the sieve starts at -1 with every cell at 1 and ends by 1667 |
| `NextPrime.FromMinusOneUnique` | rakudo-star/nqp/3rdparty/libtommath/bn_mp_prime_next_prime.c:107-158 | there is only one answer from there |
| `NextPrime.EndsBy1667` | rakudo-star/nqp/3rdparty/libtommath/bn_mp_prime_next_prime.c:107-158 | at 1667 it would end at the latest, for every t and either table |
| `NextPrime.MinusOneFails` | rakudo-star/nqp/3rdparty/libtommath/bn_mp_prime_next_prime.c:107-158 | and its answer is never 3, which is the next one |
| `NextPrime.SevenFromMinusOne` | rakudo-star/nqp/3rdparty/libtommath/bn_mp_prime_next_prime.c:107-158 | with up to three rounds it is 7 |
| `NextPrime.SevenFails` | rakudo-star/nqp/3rdparty/libtommath/bn_mp_prime_next_prime.c:41-60 | for instance at 7, between 7 and 11, the result is 7 again |
| `NextPrime.NextUnique` | rakudo-star/nqp/3rdparty/libtommath/bn_mp_prime_next_prime.c:18-22 | there is only one such number |
| `NextPrime.NextSkipsNoPrime` | rakudo-star/nqp/3rdparty/libtommath/bn_mp_prime_next_prime.c:18-22 | no prime of the form asked for lies between, and below the square of the largest entry the result is the next one |
| `NextPrime.ZeroNeverEnds` | rakudo-star/nqp/3rdparty/libtommath/bn_mp_prime_next_prime.c:86-158 | from 0 with steps of 2, every run of the search loop of any length visits even numbers only, and no pass of it ends the search |
| `RadixText.NumeralReadsBack` | rakudo-star/nqp/3rdparty/libtommath/bn_mp_toradix.c:49-57 | the digits printed for n denote n |
| `RadixText.RoundTrip` | rakudo-star/nqp/3rdparty/libtommath/bn_mp_toradix.c:19-69 | in every radix from 2 to 64 the text of an integer denotes that integer, whatever follows the terminator |
| `RadixText.DenotesUnique` | rakudo-star/nqp/3rdparty/libtommath/bn_mp_read_radix.c:19-80 | a text denotes one integer |
| `RadixText.PrintThenRead` | rakudo-star/nqp/3rdparty/libtommath/bn_mp_read_radix.c:19-80 | reading what was printed gives the integer back |
| `RadixText.CaseInsensitive` | rakudo-star/nqp/3rdparty/libtommath/bn_mp_read_radix.c:46-51 | below radix 36 texts that differ in the case of letters only denote the same number |
| `RadixText.LettersOfEitherCase` | rakudo-star/nqp/3rdparty/libtommath/bn_mp_read_radix.c:46-51 | below radix 36 the k-th letter is a digit in both cases or in neither, worth 10 + k |
| `RadixText.ReadDigitMeans` | rakudo-star/nqp/3rdparty/libtommath/bn_mp_read_radix.c:46-66 | what every character is worth in every radix |
| `RadixText.DenotesMeans` | rakudo-star/nqp/3rdparty/libtommath/bn_mp_read_radix.c:40-75 | a text denotes the weighted sum of its longest run of digits after an optional minus sign |
| `RadixText.RMapIs` | rakudo-star/nqp/3rdparty/libtommath/bn_mp_radix_smap.c:19 | the map is the string 0-9, A-Z, a-z, +, /, character by character |
| `RadixText.TextSpells` | rakudo-star/nqp/3rdparty/libtommath/bn_mp_toradix.c:32-66 | every text is a sign and digits below the radix without leading zeros, worth the magnitude by their weights |
| `RadixText.WeightedUnique` | rakudo-star/nqp/3rdparty/libtommath/bn_mp_toradix.c:49-57 | a number has one such sequence of digits of a given length |
| `RadixText.PlainText` | rakudo-star/nqp/3rdparty/libtommath/bn_mp_toradix.c:49-57 | up to radix 36 the characters after the sign are 0-9 and A-Z below the radix, worth the magnitude by Horner's rule |
| `RadixText.NumeralSize` | rakudo-star/nqp/3rdparty/libtommath/bn_mp_radix_size.c:55-66 | k digits are printed exactly for numbers from r^(k-1) to below r^k |
| `RadixText.CaseMatters` | rakudo-star/nqp/3rdparty/libtommath/bn_mp_radix_smap.c:19 | in radix 36 the lower-case letters are no digits, and above they are worth 36 and more |
| `RadixText.FindDigit` | rakudo-star/nqp/3rdparty/libtommath/bn_mp_read_radix.c:52-56 | the search finds the digit of a character, 64 if there is none |
| `RadixText.ReadRadix` | rakudo-star/nqp/3rdparty/libtommath/bn_mp_read_radix.c:19-80 | an error exactly for a radix outside 2 to 64; otherwise a is what the text denotes |
| `RadixText.Reverse` | rakudo-star/nqp/3rdparty/libtommath/bn_reverse.c:18-34 | the stretch is reversed in place and nothing else changes |
| `RadixText.PrintDigits` | rakudo-star/nqp/3rdparty/libtommath/bn_mp_toradix.c:49-57 | the digits of t, lowest first |
| `RadixText.ToRadix` | rakudo-star/nqp/3rdparty/libtommath/bn_mp_toradix.c:19-69 | the sign and the digits of the magnitude, without leading zeros, and the terminator are in the buffer and nothing behind them is touched; the room mp_radix_size announces is enough |
| `RadixText.BinaryLength` | rakudo-star/nqp/3rdparty/libtommath/bn_mp_radix_size.c:37-41 | in radix 2 there are as many digits as bits |
| `RadixText.RadixSize` | rakudo-star/nqp/3rdparty/libtommath/bn_mp_radix_size.c:19-72 | 2 for zero; otherwise the number of digits, which the powers of the radix around the magnitude fix, with room for sign and terminator, the binary shortcut included |
| `C3.FindAcceptable` | rakudo-star/parrot/src/oo.c:1078-1116 | finds the first list whose head is in no other tail, and whether all lists are empty |
| `C3.DeleteAccepted` | rakudo-star/parrot/src/oo.c:1127-1140 | the first occurrence of the accepted class goes from every list |
| `C3.C3Merge` | rakudo-star/parrot/src/oo.c:1066-1148 | the recursive merge ends, and finds t exactly if t is the C3 order of the lists |
| `C3.MergeIsC3Order` | rakudo-star/parrot/src/oo.c:1078-1140 | a merge of duplicate-free lists finds t exactly if t has their classes once each, and at every place the first class left in some list that is left behind another in none, while the first left of every list before does wait behind another |
| `C3.MergeAgrees` | rakudo-star/parrot/src/oo.c:1066-1148 | every list is a subsequence of the result |
| `C3.MergeIsUnion` | rakudo-star/parrot/src/oo.c:1066-1148 | the result has every class of the lists once and no other |
| `C3.SomeAcceptable` | rakudo-star/parrot/src/oo.c:1076-1077 | while some order agrees with the lists, some head can be accepted |
| `C3.FailsOnlyWithoutOrder` | rakudo-star/parrot/src/oo.c:1122-1125 | a merge of duplicate-free lists fails exactly if no total order agrees with all of them |
| `C3.ComputeMRO` | rakudo-star/parrot/src/oo.c:1170-1224 | ends over an acyclic hierarchy, and finds an order exactly if it is the class followed by the C3 order of its parents' orders, in the order of the parents, and then the list of the parents |
| `C3.MROIsC3` | rakudo-star/parrot/src/oo.c:1196-1223 | the same of the function it computes |
| `C3.C3Unique` | rakudo-star/parrot/src/oo.c:1196-1223 | only one order has this property |
| `C3.MROIsLinearization` | rakudo-star/parrot/src/oo.c:1196-1223 | the class first, each ancestor once, the parents and each parent's own order kept |
| `C3.Monotone` | rakudo-star/parrot/src/oo.c:1196-1223 | the order of every ancestor, however far up, is a subsequence of the order of the class |
| `C3.AmbiguousWhen` | rakudo-star/parrot/src/oo.c:1122-1125 | a class has an order exactly if its parents have and some order agrees with theirs and with the parent list |
| `BucketLists.MoveKeeps` | rakudo-star/parrot/src/hash.c:1377-1403 | unlinking a bucket and pushing it on another list keeps every list well linked, disjoint and complete |
| `BucketLists.Relinked` | rakudo-star/parrot/src/hash.c:1469-1487 | the same, pointer by pointer, as inserting, deleting and splitting do it |
| `BucketLists.AllFree` | rakudo-star/parrot/src/hash.c:800-808 | the fresh store has empty chains and all buckets on the free list |
| `BucketLists.SecondHalfFree` | rakudo-star/parrot/src/hash.c:947-955 | the new half becomes the free list |
| `HashTables.SlotOfDouble` | rakudo-star/parrot/src/hash.c:822-827 | doubling leaves a hash value in its slot or moves it up by the old size |
| `HashTables.Inserted` | rakudo-star/parrot/src/hash.c:1377-1403 | a bucket off the free list adds one key to the map |
| `HashTables.Overwritten` | rakudo-star/parrot/src/hash.c:1384-1386 | a known bucket changes one value |
| `HashTables.Removed` | rakudo-star/parrot/src/hash.c:1477-1484 | a freed bucket takes one key out of the map |
| `HashTables.Resettled` | rakudo-star/parrot/src/hash.c:909-945 | after splitting, every bucket is where its hash belongs and the map is the same |
| `HashTables.HalfwayMoved` | rakudo-star/parrot/src/hash.c:935-939 | moving one bucket up keeps the half-split state in order |
| `HashTables.HashTable.constructor` | rakudo-star/parrot/src/hash.c:1066-1081 | a new hash is empty and has no storage |
| `HashTables.HashTable.BucketsArePartitioned` | rakudo-star/parrot/src/hash.c:774-812 | every bucket is on one list: the chain of its key, or the free list if it has none |
| `HashTables.HashTable.KeysAreUnique` | rakudo-star/parrot/src/hash.c:1421-1454 | no key is stored twice, and its bucket holds its value |
| `HashTables.HashTable.EntriesCountKeys` | rakudo-star/parrot/src/hash.c:1395 | entries is the number of keys |
| `HashTables.HashTable.FindBucket` | rakudo-star/parrot/src/hash.c:1438-1446 | the chain walk finds the bucket of the key, or none exactly if the key is absent |
| `HashTables.HashTable.GetBucket` | rakudo-star/parrot/src/hash.c:1226-1259 | NULL exactly for an absent key |
| `HashTables.HashTable.Get` | rakudo-star/parrot/src/hash.c:1273-1292 | the value of the key, or NULL |
| `HashTables.HashTable.AllocateBuckets` | rakudo-star/parrot/src/hash.c:776-808 | at least size buckets and less than twice that (or the initial two), all free |
| `HashTables.HashTable.Insert` | rakudo-star/parrot/src/hash.c:1393-1401 | the map with one more key, which gets the first free bucket while all others keep theirs |
| `HashTables.HashTable.StoreValueInBucket` | rakudo-star/parrot/src/hash.c:1377-1403 | the map updated at the key; a new key gets the first free bucket, and the store grows to twice its size exactly if there is none |
| `HashTables.HashTable.FullWhenNoneFree` | rakudo-star/parrot/src/hash.c:1388-1391 | there is no free bucket exactly if there are as many keys as buckets |
| `HashTables.HashTable.Put` | rakudo-star/parrot/src/hash.c:1421-1454 | the map updated at the key; a bucket is returned only for a key that was there before; which bucket a new key gets, and the new size |
| `HashTables.HashTable.Delete` | rakudo-star/parrot/src/hash.c:1469-1487 | the map without the key, whose bucket is the first free one then; nothing changes for an absent key |
| `HashTables.HashTable.SplitChain` | rakudo-star/parrot/src/hash.c:909-945 | chain i splits into chains i and i + n, in place |
| `HashTables.HashTable.ExpandHash` | rakudo-star/parrot/src/hash.c:842-956 | the map is unchanged, the size doubled, and every bucket of chain i is in chain i or i plus the old size |
| `Quicksort.ScanDown` | rakudo-star/parrot/src/utils.c:721-723 | the downward scan stops inside the stretch |
| `Quicksort.ScanUp` | rakudo-star/parrot/src/utils.c:725-727 | the upward scan reads nothing past the other one |
| `Quicksort.Partition` | rakudo-star/parrot/src/utils.c:715-741 | a permutation of the stretch, low cells before and high cells behind the pivot, whatever the comparison says |
| `Quicksort.PartedOrder` | rakudo-star/parrot/src/utils.c:711-755 | around a parted stretch only its two sides can be out of order |
| `Quicksort.SideSorted` | rakudo-star/parrot/src/utils.c:746-754 | sorting one side leaves the other as the only part out of order |
| `Quicksort.Deeper` | rakudo-star/parrot/src/utils.c:746-754 | a nested call gets less than half of the cells |
| `Quicksort.Sort` | rakudo-star/parrot/src/utils.c:706-756 | a permutation of the stretch with nothing else touched, sorted if the comparison is a total preorder, and recursion at most log2(n) deep |

## Left out

- SignedExponents.SignedExptmod: requires, for a negative exponent and an odd modulus, that the modulus does not divide the base, because the inversion does not end otherwise.
- SignedExponents.Invert: requires that an odd modulus does not divide a, for the same reason.
- Invmod.InvmodFast: requires of an odd modulus that it is positive and does not divide a, because the loop does not end otherwise.
- InverseSize.SmallResidueReduced: goes one way only. Which multiple of b the result lies in depends on the parities of all coefficients of the run, so that no condition short of the run itself was found to be exact; `TameRunReduced` is the widest sufficient condition proved, and `InverseBound` holds of every input.
- NextPrime.NextPrime: requires a number other than zero where the steps are 2, because the search does not end otherwise. With steps of 4 the cell of 3, which only grows, is a number that does not wrap.
- PrimeTable.TableIsComplete: is about the numbers of the table. With digits of 4 to 6 or 8 to 10 bits the larger entries do not fit one digit, and `mp_set` would mask them when it makes a base of them.
- Roots.NRoot: takes root exponents of any size; `mp_mul_d` by an exponent of B or more leaves a top cell that is not a digit.
- RadixText.ReadRadix: takes the text as a sequence that holds a terminator instead of a pointer.
- HashTables.HashTable.Put: key hashing and comparison are one function on keys with equality; the string fast path, whose hash value is cached in the string, is the same walk.
- C3.ComputeMRO: takes the parent lists as fresh values for every call, since the merge uses up the lists it gets, and leaves out null lists and null results.
- Quicksort.Sort: takes the comparison as a function without side effects.
- Allocation failure (`MP_MEM`), growing, shrinking and clearing of buffers, and the exits that only pass such errors on.
- The digit loops of addition, subtraction, shifts, comparison, one-digit division and division by three: these are modelled by the value they produce. Temporaries of the number-theoretic routines are integers instead of `mp_int` objects, so that aliasing among temporaries is not modelled.
- The one cell beyond the computed columns that the copy-out of `fast_s_mp_mul_digs` reads; the model copies the computed columns.
- The build variants `MP_LOW_MEM` and `BN_MP_DIV_SMALL`, and the diminished-radix reducer, which no modulus reaches.
- Squaring has routines of its own in the source (`mp_sqr` and its Karatsuba and Toom-Cook forms); here it is a product.
- In the hash, the bucket records are kept field by field in three sequences, pointers are bucket numbers, and a block of memory that is copied and doubled is a longer sequence; relocation by an address offset has no counterpart. Updating one hash from another, cloning, marking and conversions of keys and values are not modelled.
- `mp_jacobi`, `mp_is_square`, random primes, reading and writing of numbers in files.
- The rest of Parrot and NQP: it would not add to the algorithms above.

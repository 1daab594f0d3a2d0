# Verified model of the message hub's arithmetic, JSON and offline queue

This project models, in Dafny 4.11, three parts of the repository and proves what they are for:

* **LibTomMath** (`source/sharelibs/libtommath-1.0`): division, Barrett, Montgomery and diminished-radix
  reduction, Comba, Karatsuba and Toom-Cook products and squares, sliding-window exponentiation, roots, the modular
  inverse and radix conversion. Radix, word size and digit width are parameters. Routines that work in
  place on digits keep their arrays and wrap-around; the others take and return integers, related to
  digits by `Digits.Val` and `Digits.ToDigits`. A word accumulator is taken modulo the word size at every
  addition, so each result that mentions a guard also says that nothing overflows under it.
* **json-c** (`source/sharelibs/json-c`): the printer, the tokener's explicit-stack state machine and the
  insertion-ordered hash table. The format is that of sections 4, 5 and 7 of RFC 8259.
* **The offline message cache** (`source/mqttmsghub/hub-app/source/offlinemsgcache.c`): the bounded
  priority queue, first one producer at a time, then every interleaving of producers, sender threads and
  restarts as a step relation.

`dafny verify dfyconfig.toml` checks everything.

## Where the code falls short of what it is for

* `mp_exptmod` is wrong for the moduli (2^j - 1) * 2^DIGIT_BIT with 2 <= j < DIGIT_BIT: they pass the 2k test
  with a zero low digit, which makes the folding constant zero. `Exptmod.MishandledShape`,
  `Exptmod.MishandledSquare` and `Exptmod.MishandledExample` show it. P = 1 with X = 0 gives 1.
* `mp_mul` of operands with opposite signs and 350 digits or more can come out wrong, because `mp_lshd`
  leaves a zero with leading zeros and `mp_add` then compares digit counts (`ToomCook.MulSlips`,
  `ToomSlips.SlippingSquare`, `ToomSlips.SlippingTwice`). Powers of large negative numbers inherit this:
  `mp_exptmod` through its first product (`ExptmodFaults.SlippingExactly`, `ExptmodFaults.SlippingPower`) and
  `mp_expt_d_ex` (`Roots.CubeExactly`, `Roots.SlippingCube`).
* `fast_s_mp_mul_digs` copies an uninitialised word above its result, and the baseline form of
  `mp_montgomery_reduce` reads it. Within the guard of the Comba form nothing is read there; beyond it
  `mp_exptmod` needs that word to be zero (`ExptmodFaults.StrayExactly`, `ExptmodFaults.StrayCube`,
  `ExptmodFaults.StrayHappens`).
* `fast_mp_invmod` copies the sign of a to its result, so for negative a the result is no inverse
  (`Invmod.FastInvmod`); a negative exponent inherits this for negative G and odd X and P
  (`Exptmod.MpExptmod`). On a multiple of its odd modulus it does not end (`Invmod.SearchEnds`).
* The result of `fast_mp_invmod` can be above the modulus (`Invmod.InverseAboveModulus`, `Invmod.ResultBound`).
* `mp_invmod_slow` answers a multiple of an even power of two with the inverse 0, because `mp_iseven` is
  false of zero (`Invmod.SlowInvmod`, `Invmod.InverseOfZero`), and so does `mp_exptmod` for X < 0
  (`Exptmod.NegativeExpt`).
* `mp_expt_d_ex` with high bits first ignores the bits of e from DIGIT_BIT up (`Roots.ExptD`).
* The tokener returns an inner value when a text ends inside a comment (`JsonTokener.InnerValue`,
  `JsonRoundTrip.BrokenArray`).
* Two stars before the slash do not end a comment in JSON text (`JsonTexts.StarsStayOpen`).
* `write_file_string` reports a failed open as (size_t)-1, which passes both tests of its caller, so a
  message can be queued without a file (`OfflineRuns.QueuedWithoutFile`).
* A message whose sending failed while the queue was full is dropped from memory but keeps its file, so a
  restart queues it again (`OfflineRuns.DroppedComesBack`).
* A restart between a hand-over and the unlink of the file hands the message over again
  (`OfflineRuns.HandedTwice`), and a restart with more files than the capacity overfills the queue
  (`OfflineRuns.Overfilled`).
* The admission test and the eviction are separate locked sections, so under concurrency an eviction can
  take a message of higher priority than the newcomer (`OfflineRuns.StaleAdmission`); the sequential
  law is `OfflineQueue.OnlineIsTop`.
* The comment in `bn_mp_div.c` speaks of a normalised divisor of at least b/2; the code leaves b/4, and the
  proof uses that.

## Model

| member | source | states |
|---|---|---|
| `Exptmod.MpExptmod` | source/sharelibs/libtommath-1.0/bn_mp_exptmod.c:24-106 | No modulus at or below zero is accepted. X >= 0 gives G^X mod P outside one family of moduli and outside the bases whose first product slips, except that P = 1 with X = 0 gives 1; for a base that slips the power 1 is wrong. X < 0 is accepted exactly if G and P are coprime or P is an even power of two that divides G, where the answer is 0; for coprime numbers it is the inverse of G^abs(X), or minus it exactly when G is negative and X and P are odd. Beyond the Comba guard of Montgomery reduction the uninitialised words must be zero. On the excluded family a named base is squared to 0 |
| `Exptmod.ExptmodDispatch` | source/sharelibs/libtommath-1.0/bn_mp_exptmod.c:68-106 | The dispatch by the shape of the modulus, for X >= 0, with the same two exceptions |
| `Exptmod.NegativeExpt` | source/sharelibs/libtommath-1.0/bn_mp_exptmod.c:33-66 | The part for X < 0: which pairs are accepted, the inverse power with its sign, and 0 for multiples of an even power of two |
| `Exptmod.StraightStarts` | source/sharelibs/libtommath-1.0/bn_mp_exptmod_fast.c:158-161 | The first product is right modulo P whenever G >= 0, P is not reduced by Montgomery, or P has fewer digits than the Toom-Cook cutoff |
| `Exptmod.FalsePower` | source/sharelibs/libtommath-1.0/bn_mp_exptmod.c:39-61 | An even power of two is never one of the excluded moduli, so the false inverse 0 comes out as the power 0, which is no inverse |
| `Exptmod.InversePower` | source/sharelibs/libtommath-1.0/bn_mp_exptmod.c:58-61 | Raising a number c with G*c congruent to 1 or -1 gives the inverse of the power up to the power of that sign |
| `Exptmod.MishandledShape` | source/sharelibs/libtommath-1.0/bn_mp_exptmod.c:68-94 | The excluded moduli are exactly (2^j - 1) * 2^DIGIT_BIT with 2 <= j < DIGIT_BIT |
| `Exptmod.TwoKSound` | source/sharelibs/libtommath-1.0/bn_mp_reduce_2k_setup.c:19-42 | For a modulus accepted by the 2k test the one-digit constant is usable if and only if the low digit is not zero or the modulus is a power of two |
| `Exptmod.Setup2kExact` | source/sharelibs/libtommath-1.0/bn_mp_reduce_2k_setup.c:19-42 | The constant completes P to a power of two if and only if the low digit of P is not zero; otherwise it is 0 |
| `Exptmod.BaseVanishes` | source/sharelibs/libtommath-1.0/bn_mp_reduce_2k.c:19-57 | Every excluded modulus has a base whose square folds to 0 although the true square is not 0 modulo P |
| `Exptmod.MishandledSquare` | source/sharelibs/libtommath-1.0/bn_mp_exptmod.c:68-94 | For every excluded modulus the whole dispatch returns 0 for that base squared, which is wrong |
| `Exptmod.MishandledExample` | source/sharelibs/libtommath-1.0/bn_mp_exptmod.c:68-94 | With 28-bit digits, P = 3 * 2^28 and G = 2^15 are such a case: the true square is 2^28 |
| `Exptmod.Is2kL` | source/sharelibs/libtommath-1.0/bn_mp_reduce_is_2k_l.c:19-38 | Accepts one-digit moduli and those with at least half of their digits equal to the mask |
| `Exptmod.Is2k` | source/sharelibs/libtommath-1.0/bn_mp_reduce_is_2k.c:19-46 | Accepts one-digit moduli and those whose bits from DIGIT_BIT up are all ones |
| `Exptmod.DrIsCaught` | source/sharelibs/libtommath-1.0/bn_mp_exptmod.c:75-94 | Every diminished-radix modulus already passes the earlier 2k_l test, so the diminished-radix mode is never chosen by mp_exptmod |
| `Exptmod.Mod` | source/sharelibs/libtommath-1.0/bn_mp_mod.c:20-43 | The remainder brought into [0, P) for every a |
| `Exptmod.PlainExpt` | source/sharelibs/libtommath-1.0/bn_s_mp_exptmod.c:23-247 | The window machine over Barrett or 2k_l reduction gives G^X mod P whenever the reducer is sound |
| `Exptmod.MontgomeryExpt` | source/sharelibs/libtommath-1.0/bn_mp_exptmod_fast.c:32-315 | Even P is refused. For odd P > 1 the result is g^X mod P for the g that the first table entry stands for, and g is congruent to G exactly if the product of G and R mod P through mp_mul is right modulo P |
| `Exptmod.MontgomeryStart` | source/sharelibs/libtommath-1.0/bn_mp_exptmod_fast.c:147-161 | Which number the first table entry stands for, and that it is G exactly if the product is right modulo P |
| `ExptmodFaults.SlippingExactly` | source/sharelibs/libtommath-1.0/bn_mp_exptmod_fast.c:158-161 | For odd P the first product is wrong modulo P if and only if the slip of mp_mul is positive: no slip is a multiple of P |
| `ExptmodFaults.ThinSlips` | source/sharelibs/libtommath-1.0/bn_mp_exptmod_fast.c:158-161 | For even DIGIT_BIT and 117 <= B <= 348 the base -(b^(3B-1) + 1) slips modulo the odd number (b^(3B) - 1)/3 - b^(3B-1) |
| `ExptmodFaults.ThinIsMontgomery` | source/sharelibs/libtommath-1.0/bn_mp_exptmod.c:68-94 | Such moduli pass none of the 2k tests and go to Montgomery reduction |
| `ExptmodFaults.SlippingPower` | source/sharelibs/libtommath-1.0/bn_mp_exptmod.c:68-106 | mp_exptmod of that base to the power 1 is wrong |
| `ExptmodFaults.StrayExactly` | source/sharelibs/libtommath-1.0/bn_mp_montgomery_reduce.c:31-44 | A word left above the digits changes the residue that is reduced exactly if the guard fails and the word is not zero |
| `ExptmodFaults.StrayCube` | source/sharelibs/libtommath-1.0/bn_mp_exptmod_fast.c:147-303 | Beyond the guard, the cube of a base that Montgomery form turns into 1 is wrong for every nonzero digit in the uninitialised word above M[2] * M[1], even if all other such words are zero |
| `ExptmodFaults.StrayBase` | source/sharelibs/libtommath-1.0/bn_mp_exptmod_fast.c:147-161 | Every odd modulus above 1 has such a base |
| `ExptmodFaults.StrayHappens` | source/sharelibs/libtommath-1.0/bn_mp_montgomery_reduce.c:31-44 | With 28-bit digits there is a modulus of 256 digits that goes to Montgomery reduction and meets the conditions of that cube |
| `Window.Run` | source/sharelibs/libtommath-1.0/bn_mp_exptmod_fast.c:193-291 | After every exponent bit the result stands for G to the bits before the open window; at the end for G^X, for every exponent and every reducer |
| `Window.TakeExponentBit` | source/sharelibs/libtommath-1.0/bn_mp_exptmod_fast.c:213-265 | One bit of the exponent, in each of the three modes, keeps that relation |
| `Window.CloseWindow` | source/sharelibs/libtommath-1.0/bn_mp_exptmod_fast.c:241-265 | A full window indexes a built table entry between 2^(w-1) and 2^w and moves the exponent up by w bits |
| `Window.FlushWindow` | source/sharelibs/libtommath-1.0/bn_mp_exptmod_fast.c:268-291 | The bits left in an open window are multiplied in one by one |
| `Window.BuildTable` | source/sharelibs/libtommath-1.0/bn_mp_exptmod_fast.c:147-191 | Every table entry from 2^(w-1) to 2^w - 1 stands for the power of G that its index names |
| `Window.RepMul` | source/sharelibs/libtommath-1.0/bn_mp_exptmod_fast.c:222-264 | Multiplying two residues and reducing adds their exponents, for every reducer |
| `Window.MontgomeryRedux` | source/sharelibs/libtommath-1.0/bn_mp_montgomery_reduce.c:20-44 | The Montgomery residue of the digits if the guard chooses the Comba form, whatever lies above them; of the digits and the word above them if it chooses the baseline form |
| `Window.MontgomeryProduct` | source/sharelibs/libtommath-1.0/bn_fast_s_mp_mul_digs.c:83-100 | The same for a product by mp_mul: the word that the Comba multiplier copies from above its columns counts exactly if the baseline reduction follows |
| `Window.Redux` | source/sharelibs/libtommath-1.0/bn_s_mp_exptmod.c:76-86 | Each pluggable reducer returns a residue below P that agrees with its argument up to the reducer's factor |
| `Division.Div` | source/sharelibs/libtommath-1.0/bn_mp_div.c:103-287 | For every a and divisor: refused for zero, otherwise a = q*d + r with abs(r) < abs(d), r zero or of a's sign, and abs(q) the floor of the magnitudes' quotient |
| `Division.DivNormalized` | source/sharelibs/libtommath-1.0/bn_mp_div.c:165-259 | The digit loop divides exactly when the divisor's top digit is at least a quarter of the radix |
| `Division.EstimateDigit` | source/sharelibs/libtommath-1.0/bn_mp_div.c:190-228 | The estimated digit is the true quotient digit or one more |
| `Division.EstimateDown` | source/sharelibs/libtommath-1.0/bn_mp_div.c:212-228 | Lowering the estimate while the two-digit product exceeds the three leading digits never goes below the true digit |
| `Division.EstimatePassed` | source/sharelibs/libtommath-1.0/bn_mp_div.c:212-228 | Once the comparison passes, the estimate is at most one too large |
| `Division.EstimateEarly` | source/sharelibs/libtommath-1.0/bn_mp_div.c:212-228 | The same when the comparison stops early because its right side is an unclamped three-digit number |
| `Division.ExceedsMeans` | source/sharelibs/libtommath-1.0/bn_mp_div.c:223-228 | What comparing with the unclamped number decides: larger and at least three digits long |
| `Division.AddBack` | source/sharelibs/libtommath-1.0/bn_mp_div.c:243-256 | One addition of the divisor repairs an estimate that is one too large |
| `Division.TopDigitQuarter` | source/sharelibs/libtommath-1.0/bn_mp_div.c:147-163 | Normalising to DIGIT_BIT - 1 bits leaves a top digit of at least a quarter of the radix |
| `Barrett.Reduce` | source/sharelibs/libtommath-1.0/bn_mp_reduce.c:22-95 | For every x < m^2 the result is exactly x mod m, after at most m.used + 2 subtractions, although the high product drops its low carries |
| `Barrett.EstimateBounds` | source/sharelibs/libtommath-1.0/bn_mp_reduce.c:32-63 | The quotient estimate never exceeds the quotient and falls short by at most the loss plus two |
| `Barrett.HighColumnsLoss` | source/sharelibs/libtommath-1.0/bn_fast_s_mp_mul_high_digs.c:42-71 | Leaving out the columns below k costs at most k * b^(k+1) |
| `Barrett.TruncatedEstimate` | source/sharelibs/libtommath-1.0/bn_mp_reduce.c:32-63 | With the truncated product the estimate q satisfies q*m <= x < (q + k + 3)*m |
| `Exptmod.BarrettSetup` | source/sharelibs/libtommath-1.0/bn_mp_reduce_setup.c:21-29 | The reciprocal is the floor of b^(2k) over the modulus |
| `Montgomery.MontgomeryReduce` | source/sharelibs/libtommath-1.0/bn_mp_montgomery_reduce.c:20-113 | In place: for x < n*b^k the digits become the y in [0, n) with y*b^k congruent to x |
| `Montgomery.MuClears` | source/sharelibs/libtommath-1.0/bn_mp_montgomery_reduce.c:46-55 | The chosen multiplier makes the current digit zero |
| `Montgomery.LastSubtraction` | source/sharelibs/libtommath-1.0/bn_mp_montgomery_reduce.c:103-110 | One final subtraction is enough |
| `Montgomery.ReductionUnique` | source/sharelibs/libtommath-1.0/bn_mp_montgomery_reduce.c:31-36 | There is one such residue, so the column-wise and the digit-by-digit form return the same value |
| `FastMontgomery.FastMontgomeryReduce` | source/sharelibs/libtommath-1.0/bn_fast_mp_montgomery_reduce.c:26-167 | The column-wise form meets the same specification on the digits below used, whatever lies above them, with every column kept modulo the word size, under its guards |
| `FastMontgomery.ColumnFitsWord` | source/sharelibs/libtommath-1.0/bn_fast_mp_montgomery_reduce.c:92-111 | A column with k rows of delayed carries stays below the word size |
| `FastMontgomery.ClearColumn` | source/sharelibs/libtommath-1.0/bn_fast_mp_montgomery_reduce.c:68-111 | Clearing one column divides the value by the radix exactly, up to a multiple of n |
| `MontgomerySetup.Setup` | source/sharelibs/libtommath-1.0/bn_mp_montgomery_setup.c:20-54 | For odd n, and only then, rho with rho*n congruent to -1 modulo the radix, for 16, 32 and 64-bit digits |
| `MontgomerySetup.HenselStep` | source/sharelibs/libtommath-1.0/bn_mp_montgomery_setup.c:38-48 | Each Newton step doubles the number of correct bits |
| `MontgomerySetup.CalcNormalization` | source/sharelibs/libtommath-1.0/bn_mp_montgomery_calc_normalization.c:24-54 | For odd n > 1 the result is b^k mod n, below n |
| `Multiplication.Mul` | source/sharelibs/libtommath-1.0/bn_mp_mul.c:19-62 | Every branch ends in the value that ToomCook.MulValue gives, for all operands; that is the product plus the slip unless opposite signs meet parts of Toom-Cook size again, and the mutual recursion ends |
| `ToomCook.MulExact` | source/sharelibs/libtommath-1.0/bn_mp_mul.c:19-62 | The value is the product for operands of one sign of any size, and for all operands one of which is below the Toom-Cook cutoff |
| `ToomCook.MulSlips` | source/sharelibs/libtommath-1.0/bn_mp_toom_mul.c:25-280 | For opposite signs with parts below that size the value exceeds the product by exactly the slip, which is zero unless a middle coefficient is zero and the one below it is short |
| `ToomCook.OnlySumsSlip` | source/sharelibs/libtommath-1.0/bn_mp_toom_mul.c:164-273 | If the five products are right, the last additions alone decide by how much the result is off |
| `Multiplication.Karatsuba` | source/sharelibs/libtommath-1.0/bn_mp_karatsuba_mul.c:47-162 | The product of the magnitudes; the subtraction has its larger operand first |
| `Multiplication.Toom` | source/sharelibs/libtommath-1.0/bn_mp_toom_mul.c:25-280 | The value of the five products, interpolation and shifted sum for operands of any sign and size; the product plus the slip where MulSlips applies |
| `ToomCook.AssembledIs` | source/sharelibs/libtommath-1.0/bn_mp_toom_mul.c:248-273 | Adding up the shifted coefficients of one sign gives their weighted sum plus the slips of negative ones |
| `ToomCook.AddShifted` | source/sharelibs/libtommath-1.0/bn_mp_lshd.c:19-60 | Where adding a coefficient that was shifted without clamping goes wrong, and by how much |
| `ToomCook.AddProper` | source/sharelibs/libtommath-1.0/bn_mp_add.c:19-48 | Numbers whose digit counts are right are added exactly |
| `ToomSlips.SlippingSquare` | source/sharelibs/libtommath-1.0/bn_mp_mul.c:24-60 | With cutoff at most 3B and above B + 1, the product of -(b^(3B-1) + 1) and b^(3B-1) + 1 comes out b^B too large |
| `ToomSlips.SlippingProduct` | source/sharelibs/libtommath-1.0/bn_mp_toom_mul.c:248-273 | The same for all pairs with a one in the low third, zeros in the middle and enough digits on top |
| `ToomSlips.SlipShape` | source/sharelibs/libtommath-1.0/bn_mp_toom_mul.c:262-273 | A slip is b^B, b^(3B) or their sum, and needs opposite signs and Toom-Cook size |
| `ToomSlips.SlippingTwice` | source/sharelibs/libtommath-1.0/bn_mp_toom_mul.c:74-162 | When the parts are of Toom-Cook size again, the product of -(b^(9D-1) + 1) and b^(9D-1) + 1 is off by f * (8p^2 - 3p - 3p^3) with p = b^(3D) and f = b^D / 2 |
| `ToomCook.InterpolatedExact` | source/sharelibs/libtommath-1.0/bn_mp_toom_mul.c:176-246 | From the true values at the points the coefficients are recovered and every halving and third is exact |
| `Multiplication.HalvesShrink` | source/sharelibs/libtommath-1.0/bn_mp_karatsuba_mul.c:55-130 | All three half-size products have fewer digits in all, from four digits on |
| `ToomCook.PointShrinks` | source/sharelibs/libtommath-1.0/bn_mp_toom_mul.c:84-158 | Each product at a point has fewer digits in all than the whole, for all operands of Toom-Cook size |
| `Comba.FastMulDigs` | source/sharelibs/libtommath-1.0/bn_fast_s_mp_mul_digs.c:34-102 | The product modulo b^digs, with the accumulator kept modulo the word size, when min(used)*b^2 is at most the word size, equality included |
| `Comba.AccumulatorFits` | source/sharelibs/libtommath-1.0/bn_fast_s_mp_mul_digs.c:47-80 | Carry and column products together stay below the word size under that guard |
| `Comba.ColProduct` | source/sharelibs/libtommath-1.0/bn_fast_s_mp_mul_digs.c:47-80 | All columns with their weights add up to the product |
| `Comba.FastMulHigh` | source/sharelibs/libtommath-1.0/bn_fast_s_mp_mul_high_digs.c:27-93 | The columns from digs up, without the carries of those below |
| `Schoolbook.MulDigs` | source/sharelibs/libtommath-1.0/bn_s_mp_mul_digs.c:22-85 | The product modulo b^digs, row by row |
| `Schoolbook.MulHigh` | source/sharelibs/libtommath-1.0/bn_s_mp_mul_high_digs.c:22-76 | The same columns as the Comba form, row by row |
| `Rows.MulAddRow` | source/sharelibs/libtommath-1.0/bn_s_mp_mul_digs.c:50-78 | One row is added in place with its carry |
| `Squaring.FastSqr` | source/sharelibs/libtommath-1.0/bn_fast_s_mp_sqr.c:28-109 | The square, with every word modulo the word size, under a guard weaker than the caller's |
| `Squaring.ColumnByHalves` | source/sharelibs/libtommath-1.0/bn_fast_s_mp_sqr.c:52-82 | A column of a square is twice its first half, plus the middle square in even columns |
| `Squaring.MpSqr` | source/sharelibs/libtommath-1.0/bn_mp_sqr.c:19-55 | The square through every branch, for any sign, and the recursion ends |
| `Squaring.SchoolSqr` | source/sharelibs/libtommath-1.0/bn_s_mp_sqr.c:19-79 | The square row by row, in words that hold two squares of the radix |
| `Squaring.SquareStep` | source/sharelibs/libtommath-1.0/bn_s_mp_sqr.c:34-73 | After each row the rest is the square of the digits above it |
| `Squaring.KaratsubaSqr` | source/sharelibs/libtommath-1.0/bn_mp_karatsuba_sqr.c:25-116 | The square from three half-size squares |
| `Squaring.ToomSqr` | source/sharelibs/libtommath-1.0/bn_mp_toom_sqr.c:19-221 | The square from five third-size squares |
| `Magnitude.SubInPlace` | source/sharelibs/libtommath-1.0/bn_s_mp_sub.c:20-83 | x := x - n on the lowest used digits, the borrow read from the top bit of a wrapped machine digit; what lies above is unchanged |
| `Magnitude.AddDigits` | source/sharelibs/libtommath-1.0/bn_s_mp_add.c:19-104 | The sum of the magnitudes in one digit more than the longer has |
| `SpecialReduction.DrReduce` | source/sharelibs/libtommath-1.0/bn_mp_dr_reduce.c:33-91 | In place: for n = b^m - k and x < b^(2m) the digits become x mod n |
| `SpecialReduction.Fold` | source/sharelibs/libtommath-1.0/bn_mp_dr_reduce.c:52-77 | One fold replaces hi*b^m + lo by k*hi + lo on the digits |
| `SpecialReduction.FoldKeeps` | source/sharelibs/libtommath-1.0/bn_mp_dr_reduce.c:52-77 | A fold keeps the residue and never grows the number |
| `SpecialReduction.Reduce2k` | source/sharelibs/libtommath-1.0/bn_mp_reduce_2k.c:19-57 | The folding loop ends below n and gives x mod n whenever n + d is the power of two above n; the same loop is mp_reduce_2k_l |
| `SpecialReduction.FoldedPower` | source/sharelibs/libtommath-1.0/bn_mp_reduce_2k.c:28-52 | With constant 0 the loop is still right when n is a power of two |
| `Roots.NRoot` | source/sharelibs/libtommath-1.0/bn_mp_n_root_ex.c:28-127 | Refused for an even root of a negative number and for order 0, otherwise abs(c)^b <= abs(a) < (abs(c)+1)^b with a's sign |
| `Roots.NRootMagnitude` | source/sharelibs/libtommath-1.0/bn_mp_n_root_ex.c:54-119 | Newton from 2 and the correction loop end in the floor of the root, for every a >= 0 and b >= 1 |
| `Roots.Tangent` | source/sharelibs/libtommath-1.0/bn_mp_n_root_ex.c:57-95 | A power lies above its tangent, which keeps truncated Newton from falling below the root |
| `Roots.NewtonStep` | source/sharelibs/libtommath-1.0/bn_mp_n_root_ex.c:57-95 | From above a step moves down but not below the root; from below it moves up; a fixed point is the root or above it |
| `Roots.ExptD` | source/sharelibs/libtommath-1.0/bn_mp_expt_d_ex.c:19-78 | Low bits first gives a^e, and high bits first a^(e mod b), for a >= 0 and for negative a whose products stay below the Toom-Cook cutoff or whose e is even with low bits first; for the rest each product is the one of mp_mul |
| `Roots.CubeExactly` | source/sharelibs/libtommath-1.0/bn_mp_expt_d_ex.c:33-74 | A cube is right in either order if and only if its last product does not slip |
| `Roots.SlippingCube` | source/sharelibs/libtommath-1.0/bn_mp_expt_d_ex.c:33-74 | The cube of -(b^(3B-1) + 1) comes out b^B too large in either order, for 117 <= B <= 348 |
| `Roots.Sqrt` | source/sharelibs/libtommath-1.0/bn_mp_sqrt.c:19-75 | Refused for negative numbers, otherwise s with s^2 <= n < (s+1)^2 |
| `Roots.AverageStep` | source/sharelibs/libtommath-1.0/bn_mp_sqrt.c:57-68 | Above the root an iteration strictly decreases and stops only at the root |
| `Roots.OnlyFromNext` | source/sharelibs/libtommath-1.0/bn_mp_sqrt.c:57-68 | Iterating again from s when n = s^2 + 2s can only follow an iterate s + 1 |
| `Roots.ShiftAvoids` | source/sharelibs/libtommath-1.0/bn_mp_sqrt.c:43-55 | The digit-shift starting value is never that iterate |
| `Invmod.FastInvmod` | source/sharelibs/libtommath-1.0/bn_fast_mp_invmod.c:24-143 | Refused for even moduli and exactly when a and b have a common divisor; otherwise a*c is congruent to 1 if and only if a >= 0, and to -1 if not, the sign being copied. The magnitude is the coefficient that the last pass leaves, lifted to zero or above |
| `Invmod.ResultBound` | source/sharelibs/libtommath-1.0/bn_fast_mp_invmod.c:49-136 | The magnitude is below b or at most (n + 1) * b / 2 after n passes, and 2^(n - 1) is at most b times the residue of a |
| `Invmod.InverseAboveModulus` | source/sharelibs/libtommath-1.0/bn_fast_mp_invmod.c:49-137 | For 621 modulo 2233 the result is 3265, above the modulus |
| `Invmod.SearchEnds` | source/sharelibs/libtommath-1.0/bn_fast_mp_invmod.c:49-120 | For an odd modulus some pass of the search reaches u = 0 if and only if a is no multiple of b |
| `Invmod.EndlessPasses` | source/sharelibs/libtommath-1.0/bn_fast_mp_invmod.c:58-120 | From v = 0 no number of passes changes u = b and v = 0 |
| `Invmod.SlowInvmod` | source/sharelibs/libtommath-1.0/bn_mp_invmod_slow.c:19-170 | For even moduli: accepted exactly if a and b are coprime, or if b is a power of two that divides a, where the result is 0 because mp_iseven denies that zero is even; the result is below b and an inverse if and only if a and b are coprime |
| `Invmod.SlowSearch` | source/sharelibs/libtommath-1.0/bn_mp_invmod_slow.c:49-141 | The search ends in the greatest common divisor for x > 0, and in the odd part of b for x = 0 |
| `Invmod.StrippedPower` | source/sharelibs/libtommath-1.0/bn_mp_invmod_slow.c:85-108 | Stripping the factors two leaves 1 exactly for powers of two |
| `Invmod.InverseOfZero` | source/sharelibs/libtommath-1.0/bn_mp_invmod_slow.c:43-47 | mp_invmod(0, 2) succeeds with 0 |
| `Invmod.HalvedPairExact` | source/sharelibs/libtommath-1.0/bn_mp_invmod_slow.c:60-83 | An even combination of x and y is halved exactly, if need be after shifting its coefficients |
| `Invmod.MpInvmod` | source/sharelibs/libtommath-1.0/bn_mp_invmod.c:19-38 | Refused for moduli at or below zero, accepted exactly for coprime numbers and for multiples of an even power of two; the result is an inverse if and only if the numbers are coprime and b is even or a >= 0 |
| `Invmod.HalvedCong` | source/sharelibs/libtommath-1.0/bn_fast_mp_invmod.c:65-74 | Halving the coefficient is exact and keeps its congruence |
| `Invmod.LastDivisor` | source/sharelibs/libtommath-1.0/bn_fast_mp_invmod.c:117-129 | At u = 0 the numbers are coprime if and only if v = 1 |
| `Invmod.SignSpoils` | source/sharelibs/libtommath-1.0/bn_fast_mp_invmod.c:131-138 | A result congruent to -1 is no inverse for b > 2 |
| `Radix.RadixRoundTrip` | source/sharelibs/libtommath-1.0/bn_mp_read_radix.c:19-80 | Reading the text of any integer in any radix from 2 to 64 gives the integer |
| `Radix.ToRadix` | source/sharelibs/libtommath-1.0/bn_mp_toradix.c:19-69 | The text of the number, refused outside radix 2 to 64; RadixText.WrittenAt says which character stands where in it |
| `RadixText.WrittenAt` | source/sharelibs/libtommath-1.0/bn_mp_toradix.c:42-62 | Digit number i of abs(a) stands i places from the right, as character number d of the map, behind a minus for negative a and with no zero in front |
| `RadixText.WrittenDecimal` | source/sharelibs/libtommath-1.0/bn_mp_toradix.c:42-62 | In radix 10 the text is the one that printf gives for the number |
| `RadixText.SymbolAt` | source/sharelibs/libtommath-1.0/bn_mp_radix_smap.c:19-19 | The symbol of d is character number d of the literal map, for all 64 |
| `Radix.ReadRadix` | source/sharelibs/libtommath-1.0/bn_mp_read_radix.c:19-80 | The reading of every string, refused outside radix 2 to 64; RadixText.ReadDigits says what is read and where it stops |
| `RadixText.ReadDigits` | source/sharelibs/libtommath-1.0/bn_mp_read_radix.c:32-79 | Digits in the order of the map, with zeros in front or not and a minus or not, are read to their value, up to the first character that is no digit of the radix |
| `RadixText.MeaningExactly` | source/sharelibs/libtommath-1.0/bn_mp_read_radix.c:47-62 | A character means d if and only if it is character number d of the map, or up to radix 36 the other case of that letter |
| `RadixText.CaseIgnored` | source/sharelibs/libtommath-1.0/bn_mp_read_radix.c:47-51 | Up to radix 36 texts that differ in the case of letters only are read to the same number |
| `RadixText.ReadExamples` | source/sharelibs/libtommath-1.0/bn_mp_read_radix.c:46-79 | f and F are fifteen in radix 16, fF is 255, a is 36 and A is 10 in radix 64 |
| `RadixText.WriteExamples` | source/sharelibs/libtommath-1.0/bn_mp_toradix.c:42-62 | 12 in radix 10, -FF in radix 16 and +/ in radix 64 |
| `Radix.RadixSize` | source/sharelibs/libtommath-1.0/bn_mp_radix_size.c:19-72 | The length of the text plus one, also by the bit count in radix 2 |
| `Radix.DivD` | source/sharelibs/libtommath-1.0/bn_mp_div_d.c:37-109 | Quotient toward zero with the sign of a and remainder of the magnitude, through the power-of-two, three and general paths; refused for zero |
| `Radix.DivThree` | source/sharelibs/libtommath-1.0/bn_mp_div_3.c:20-73 | Multiplying by the digit b/3 and fixing up divides by three |
| `Radix.Estimate` | source/sharelibs/libtommath-1.0/bn_mp_div_3.c:40-56 | The estimate by b/3 never overshoots and its product fits a word |
| `JsonRoundTrip.RoundTrip` | source/sharelibs/json-c/source/json_tokener.c:239-992 | For every tree of null, bool, int64, string, array and object values and every layout flag, parsing the printed text gives the tree with its keys in order if it is nested less deep than the tokener has levels, and a nesting error if not |
| `JsonLayout.PrintIsLaid` | source/sharelibs/json-c/source/json_object.c:358-420 | For every regular tree and every layout flag the printed text is the compact text, laid out by a scanner that looks at brackets, commas, colons and quotes only |
| `JsonLayout.PrintedLaid` | source/sharelibs/json-c/source/json_object.c:1108-1149 | The same for a value inside arrays and objects, at any depth and after any bracket, comma or colon |
| `JsonLayout.PlainIsCompact` | source/sharelibs/json-c/source/json_object.c:375-420 | Without the spaced and pretty flags the text is the compact one and has no white space outside strings |
| `JsonLayout.PrintSqueezed` | source/sharelibs/json-c/source/json_object.c:375-420 | Deleting the white space outside strings from the text in any layout gives the compact text |
| `JsonLayout.QuotedIs` | source/sharelibs/json-c/source/json_object.c:106-164 | Strings are escaped as a table of character codes says |
| `JsonLayout.SlashesByFlag` | source/sharelibs/json-c/source/json_object.c:122-139 | Under the flag for bare slashes every slash stands for itself, without it every slash is escaped |
| `JsonLayout.PlainExample` | source/sharelibs/json-c/source/json_object.c:375-420 | The object with the member a = 1, plain: without any space |
| `JsonLayout.SpacedExample` | source/sharelibs/json-c/source/json_object.c:395-419 | The same spaced: a space inside each brace and after the colon |
| `JsonLayout.PrettyExample` | source/sharelibs/json-c/source/json_object.c:383-419 | The same pretty: the member on a line of its own, two spaces in |
| `JsonRoundTrip.TrailingIgnored` | source/sharelibs/json-c/source/json_tokener.c:381-386 | A printed value is returned whatever follows it, but for more of a number or a comment |
| `JsonRoundTrip.BrokenArray` | source/sharelibs/json-c/source/json_tokener.c:491-504 | For every value, an array that breaks off in a comment after its first element is taken for that element |
| `JsonRoundTrip.Parse` | source/sharelibs/json-c/source/json_tokener.c:291-954 | A printed value is read back at any place of any text and on any stack, and what follows is left unread |
| `JsonRoundTrip.TooDeep` | source/sharelibs/json-c/source/json_tokener.c:832-835 | A printed value nested too deep is refused for that reason and no other |
| `JsonRoundTrip.EscapedText` | source/sharelibs/json-c/source/json_object.c:106-164 | Whatever the printer escaped, the string states append the original characters |
| `JsonUnicode.AnyString` | source/sharelibs/json-c/source/json_tokener.c:532-691 | A string spelled with plain characters, letter escapes, four-digit escapes in any case and surrogate pairs is read as the bytes that these stand for, each character as bytes that decode to it |
| `JsonUnicode.BasicEscape` | source/sharelibs/json-c/source/json_tokener.c:590-681 | Any spelling of the four digits of a character that is no surrogate appends bytes that a UTF-8 decoder reads as exactly that character in shortest form |
| `JsonUnicode.PairEscape` | source/sharelibs/json-c/source/json_tokener.c:601-654 | The same for every character above U+FFFF and its pair of surrogates |
| `JsonUnicode.LoneEscape` | source/sharelibs/json-c/source/json_tokener.c:655-661 | A surrogate without a partner appends EF BF BD |
| `JsonUnicode.BrokenPair` | source/sharelibs/json-c/source/json_tokener.c:601-611 | A high surrogate before an escape that is no low one appends EF BF BD, and the second escape is read on its own |
| `JsonUnicode.Utf8Decodes` | source/sharelibs/json-c/source/json_tokener.c:613-672 | The bytes for every scalar value decode to it |
| `JsonUnicode.OnlySequence` | source/sharelibs/json-c/source/json_tokener.c:613-672 | And no other bytes do |
| `JsonUnicode.LetterEscape` | source/sharelibs/json-c/source/json_tokener.c:559-578 | The eight letter escapes append the characters with the codes 22, 5C, 2F, 08, 0C, 0A, 0D and 09 |
| `JsonUnicode.WrongEscape` | source/sharelibs/json-c/source/json_tokener.c:584-587 | A backslash before anything else is a string error, at the end of the text an early end |
| `JsonUnicode.AccentExample` | source/sharelibs/json-c/source/json_tokener.c:616-619 | The escape 00e9 gives the bytes C3 A9 |
| `JsonUnicode.PairExample` | source/sharelibs/json-c/source/json_tokener.c:667-672 | The pair D83D de00 gives the bytes F0 9F 98 80 |
| `JsonRoundTrip.Pop` | source/sharelibs/json-c/source/json_tokener.c:381-386 | A finished value is added to the level below, with white space before it or not |
| `JsonTokener.ParseEx` | source/sharelibs/json-c/source/json_tokener.c:239-992 | The loop ends for every text, over-long texts are refused, and the result is that of the passes through the switch, which the rows of JsonRoundTrip, JsonUnicode and JsonTexts describe |
| `JsonTokener.AcceptsExactly` | source/sharelibs/json-c/source/json_tokener.c:956-987 | For every text a value is returned exactly if the last pass finishes the outermost level or the text ends inside a comment after a finished value; it is the value of the top level |
| `JsonTokener.InnerValue` | source/sharelibs/json-c/source/json_tokener.c:963-987 | It comes from an inner level exactly in the second case |
| `JsonTokener.NoInnerValue` | source/sharelibs/json-c/source/json_tokener.c:296-310 | A text in which no slash is followed by a star or a slash never yields an inner value |
| `JsonTexts.WordsInAnyCase` | source/sharelibs/json-c/source/json_tokener.c:439-477 | true, false and null are recognised in every mixture of cases |
| `JsonTexts.NumbersClamp` | source/sharelibs/json-c/source/json_tokener.c:730-804 | Any digits, with a minus or zeros in front, are read to their value, and out of range to the nearest of -2^63 and 2^63 - 1 |
| `JsonTexts.SingleQuotes` | source/sharelibs/json-c/source/json_tokener.c:340-351 | A text in single quotes is a string |
| `JsonTexts.BlockComment` | source/sharelibs/json-c/source/json_tokener.c:479-530 | A comment without a star inside is skipped like white space |
| `JsonTexts.LineComment` | source/sharelibs/json-c/source/json_tokener.c:506-520 | So is a comment to the end of the line |
| `JsonTexts.StarsStayOpen` | source/sharelibs/json-c/source/json_tokener.c:522-530 | Two stars and a slash do not end a comment |
| `JsonTokener.StepProgress` | source/sharelibs/json-c/source/json_tokener.c:291-954 | Each pass through the switch reads on or lowers a rank, and keeps the stack well formed |
| `JsonTree.EscapeString` | source/sharelibs/json-c/source/json_object.c:106-164 | Copying plain runs together gives the character-by-character escape |
| `HashTable.Replay` | source/sharelibs/json-c/source/linkhash.c:493-685 | After any additions and deletions the table holds exactly the history as an insertion-ordered list |
| `HashTable.HistoryRecords` | source/sharelibs/json-c/source/linkhash.c:575-677 | That list has each live key once, with its last value, in order of its insertion |
| `HashTable.RecordsUnique` | source/sharelibs/json-c/source/linkhash.c:575-677 | No other list has these properties |
| `HashTable.Table.Lookup` | source/sharelibs/json-c/source/linkhash.c:613-626 | Finds exactly the live keys, past tombstones, and at the slot the list names |
| `HashTable.Table.LookupValue` | source/sharelibs/json-c/source/linkhash.c:640-649 | The value last stored under the key, or none for a key that is not in the table |
| `HashTable.Table.FreeSlot` | source/sharelibs/json-c/source/linkhash.c:583-588 | The insertion probe ends at a slot that is free, with no empty slot before it |
| `HashTable.Table.Place` | source/sharelibs/json-c/source/linkhash.c:583-605 | A new entry goes to the end of the list |
| `HashTable.Table.Resize` | source/sharelibs/json-c/source/linkhash.c:532-561 | Doubling keeps the contents and their order, and no inner insertion doubles again |
| `HashTable.Table.Insert` | source/sharelibs/json-c/source/linkhash.c:575-606 | Doubling if loaded, then placing, appends one pair |
| `HashTable.Table.Add` | source/sharelibs/json-c/source/json_object.c:467-503 | A known key keeps its place and takes the new value, a new key goes to the end |
| `HashTable.Table.Delete` | source/sharelibs/json-c/source/linkhash.c:651-685 | Removes exactly the key and says whether it was there |
| `HashTable.Table.Unlink` | source/sharelibs/json-c/source/linkhash.c:663-675 | All four cases of unlinking leave a proper doubly linked list |
| `HashTable.FreeKeeps` | source/sharelibs/json-c/source/linkhash.c:661-662 | A tombstone breaks no probe path |
| `OfflineQueue.OnlineIsTop` | source/mqttmsghub/hub-app/source/offlinemsgcache.c:326-515 | From an empty queue any sequence of offers leaves exactly the `capacity` greatest acceptable messages by priority and later arrival, in arrival order |
| `OfflineQueue.TopUnique` | source/mqttmsghub/hub-app/source/offlinemsgcache.c:326-432 | There is only one such selection |
| `OfflineQueue.NothingLost` | source/mqttmsghub/hub-app/source/offlinemsgcache.c:422-442 | Every acceptable offer is queued or counted as discarded |
| `OfflineQueue.Cache.Enqueue` | source/mqttmsghub/hub-app/source/offlinemsgcache.c:434-515 | Admission, checks, evictions and the push together are one step of that specification |
| `OfflineQueue.Cache.RemoveOneLowest` | source/mqttmsghub/hub-app/source/offlinemsgcache.c:358-432 | Removes the oldest entry of the lowest priority and counts it |
| `OfflineQueue.Cache.CanEnter` | source/mqttmsghub/hub-app/source/offlinemsgcache.c:326-356 | True if and only if there is room or an entry of no higher priority |
| `OfflineProtocol.StepInv` | source/mqttmsghub/hub-app/source/offlinemsgcache.c:434-626 | Every action of producers, evictions, senders and restarts keeps the invariant: which entries are queued, carried and on disk, who holds the lock, and what was handed over; their order is OfflineOrder's |
| `OfflineOrder.QueueInPushOrder` | source/mqttmsghub/hub-app/source/offlinemsgcache.c:503-582 | After every run without a restart the queue lists its entries in the order of their pushes, and what a sender has in hand comes before all of them |
| `OfflineOrder.SentInPushOrder` | source/mqttmsghub/hub-app/source/offlinemsgcache.c:535-618 | In such a run entries are taken off the queue in the order of their pushes, and handed over in that order, each once |
| `OfflineOrder.FailedSendRestores` | source/mqttmsghub/hub-app/source/offlinemsgcache.c:541-582 | A pop, a failed send and a put-back with nothing between them restore the queue if it was within its capacity, and drop its first entry if not |
| `OfflineOrder.NotOvertaken` | source/mqttmsghub/hub-app/source/offlinemsgcache.c:570-582 | A message put back stands before all others |
| `OfflineOrder.DrainsInOrder` | source/mqttmsghub/hub-app/source/offlinemsgcache.c:535-625 | A sender that meets no failure sends the whole queue in its order, unlinks exactly those files and leaves |
| `OfflineRuns.RunInv` | source/mqttmsghub/hub-app/source/offlinemsgcache.c:434-626 | So the invariant holds after every run in every interleaving |
| `OfflineRuns.Uninterrupted` | source/mqttmsghub/hub-app/source/offlinemsgcache.c:434-515 | A call whose steps run without a break ends refused or queued and does to the queue exactly what the sequential specification says |
| `OfflineRuns.QueuedHasFile` | source/mqttmsghub/hub-app/source/offlinemsgcache.c:461-510 | A queued entry has its file, holding its message or a beginning of it, if and only if the file could be opened and its eviction has not begun |
| `OfflineRuns.QueueIsOnDisk` | source/mqttmsghub/hub-app/source/offlinemsgcache.c:461-510 | After every run, outside the locked section, a queued entry has its file if and only if its own open succeeded |
| `OfflineRuns.QueuedWithoutFile` | source/mqttmsghub/hub-app/source/offlinemsgcache.c:474-493 | A failed open is taken for success, and a run reaches a queued entry with no file |
| `OfflineRuns.UnlinkOnlyAfter` | source/mqttmsghub/hub-app/source/offlinemsgcache.c:403-420 | A file is unlinked only for the victim of an eviction, after a hand-over, after a failed read or parse, or when nothing was written to it |
| `OfflineRuns.CapacityKept` | source/mqttmsghub/hub-app/source/offlinemsgcache.c:503-510 | From any queue within the capacity, reloaded or not, no run takes it above unless a restart brings more entries than that |
| `OfflineRuns.OnlyRestartsOverfill` | source/mqttmsghub/hub-app/source/offlinemsgcache.c:175-235 | One action takes the queue above its capacity exactly if it is a restart with more files than that |
| `OfflineRuns.Overfilled` | source/mqttmsghub/hub-app/source/offlinemsgcache.c:175-235 | A run reaches a queue of two at capacity 1 |
| `OfflineRuns.OneSender` | source/mqttmsghub/hub-app/source/offlinemsgcache.c:517-526 | At most one thread is past the guard |
| `OfflineRuns.HandedOnce` | source/mqttmsghub/hub-app/source/offlinemsgcache.c:559-565 | After every run the hand-overs of a message number the restarts that came between a hand-over and its unlink, plus one if it has been handed over since |
| `OfflineRuns.HandedTwice` | source/mqttmsghub/hub-app/source/offlinemsgcache.c:559-565 | A run with such a restart hands a message over twice |
| `OfflineRuns.LoadedText` | source/mqttmsghub/hub-app/source/offlinemsgcache.c:550-559 | What is handed over is the enqueued message or a beginning of it, and not empty |
| `OfflineRuns.RestartReloads` | source/mqttmsghub/hub-app/source/offlinemsgcache.c:175-235 | A restart queues exactly the entries with a file, in timestamp order, and unlinks none: every queued message is there, and also those dropped because the queue was full |
| `OfflineRuns.DroppedComesBack` | source/mqttmsghub/hub-app/source/offlinemsgcache.c:569-582 | A run drops a message because the queue is full, keeps its file, and a restart queues it again |
| `OfflineRuns.RestartRestores` | source/mqttmsghub/hub-app/source/offlinemsgcache.c:175-235 | At rest, with nothing dropped, the reloaded queue is the queue itself |
| `OfflineRuns.HolderMoves` | source/mqttmsghub/hub-app/source/offlinemsgcache.c:503-510 | Whoever holds the list lock can go on |
| `OfflineRuns.FairEviction` | source/mqttmsghub/hub-app/source/offlinemsgcache.c:326-356 | An eviction spares higher priorities exactly if the admission test still passes when the lock is taken |
| `OfflineRuns.StaleAdmission` | source/mqttmsghub/hub-app/source/offlinemsgcache.c:438-510 | Otherwise a message admitted early evicts a higher one that overtook it |
| `CacheFileName.HeaderOfName` | source/mqttmsghub/hub-app/source/offlinemsgcache.c:291-324 | Reading a file name gives the header back; a negative priority comes back as the default |
| `CacheFileName.NameShape` | source/mqttmsghub/hub-app/source/offlinemsgcache.c:291-299 | A name begins with the decimal timestamp, goes on with a dash and the decimal priority if that is not negative, and ends in .cache |
| `CacheFileName.HeaderOfDigits` | source/mqttmsghub/hub-app/source/offlinemsgcache.c:301-324 | Of two digit texts with a dash between them the first is the timestamp and the second the priority; without the dash the priority is 8 |
| `CacheFileName.HeaderOfTexts` | source/mqttmsghub/hub-app/source/offlinemsgcache.c:301-324 | The same for any texts: what stands before the first dash is scanned as the timestamp, what stands after it as the priority, 8 if nothing does |
| `CacheFileName.NameExample` | source/mqttmsghub/hub-app/source/offlinemsgcache.c:291-324 | Priority 8 at time 17 is 17-8.cache, and is read back so |
| `CacheFileName.NamesApart` | source/mqttmsghub/hub-app/source/offlinemsgcache.c:291-299 | Two names agree if and only if the timestamps and the written priorities do |

## Left out

- Multiplication.Mul: for opposite signs with parts of Toom-Cook size again the value is that of the recursive function MulValue, and a closed form is given for one family only (ToomSlips.SlippingTwice).
- Invmod.FastInvmod: a multiple of an odd b is excluded, because by SearchEnds the loop does not end on it.
- Exptmod.MpExptmod: for X < 0 a multiple of an odd P is excluded, because by Invmod.SearchEnds the search for the inverse does not end on it; for X < 0 nothing is claimed about the value for a modulus of the mishandled family, nor for negative G and an odd P of Toom-Cook size, where the first product of the inverse may slip.
- Exptmod.MontgomeryExpt: beyond the Comba guard asks for zero in the uninitialised words, because the code is wrong otherwise (ExptmodFaults.StrayCube).
- Roots.ExptD: for negative a of Toom-Cook size the result is given as a chain of products of mp_mul, and compared with the power only for cubes.
- Roots.NRoot: the order must be a digit, below the radix, although mp_digit has more bits.
- HashTable.Table.Insert: is stated for keys that are not in the table yet, as json_object_object_add_ex calls it; the load test compares 100*count with 66*size in place of a product of doubles, and sizes do not wrap.
- SpecialReduction.Reduce2k: works on integers, so the digit form of the constant is in Exptmod.Setup2k.
- Division.Div: the digit buffers are integers with digit access, so update in place and aliasing of the outputs are not captured; the same holds for Barrett, exponentiation, roots, the inverse, Karatsuba and Toom-Cook.
- JsonTokener.ParseEx: flags are 0 and the text is one whole C string, so strict mode and chunked input are not modelled; the value of a floating-point number is kept as its text, and its text is taken to convert if it begins like a number.
- JsonRoundTrip.RoundTrip: excludes doubles, whose formatting is the C library's.
- OfflineProtocol.StepInv: starts from an initialised list, capacity >= 1, priorities >= 0 and distinct (timestamp, priority) names; a file that exists but cannot be opened for reading is not modelled, because the parser is then given a null pointer.
- CacheFileName.HeaderOfName: numbers that overflow int or int64 in atoi and atoll are not modelled.
- Memory exhaustion (MP_MEM, malloc returning NULL), MP_8BIT digits, BN_MP_DIV_SMALL, import and export of numbers, random numbers.
- gcd and lcm: they would only repeat the arguments of the inverse.
- Primality tests, Jacobi symbols and square roots modulo a prime.
- Hashing itself (hashlittle and its seed): the hash is an arbitrary function of the key.
- The HTTP server, the MQTT client, ciphers, configuration, logging, message counters and the thread pool.

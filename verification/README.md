# Verified core of Dropbear and its big-integer library

A Dafny model of the hardest parts of the Dropbear SSH server and client, and
of the multiple-precision library it carries, with proofs of what they promise.
`dafny verify dfyconfig.toml` checks the whole project.

The model follows a build with 28-bit digits in 32-bit cells and 64-bit words.

**Big integers.**  `Mp` holds `mp_int` as a class with sign, digit count and
cell buffer.  `Multiply` (with `Product` and `Columns`) covers every arm of
multiplication and squaring, `Division` the long division, and `Montgomery`,
`Reductions` and `Barrett` the modular reductions.  `InvMod` is the binary
inversion, `Sqrt` the square root.  `Powers`, `Window`, `Sliding` and
`Exponentiation` are modular exponentiation from the single exponent bit to the
choice of strategy.  `Primes` and `MillerRabin` prove that no prime fails the
Miller-Rabin test.

**Curve25519.**  `Field25519` and `Pack25519` are the limb arithmetic, in
arrays of signed 64-bit limbs whose type makes every overflow a proof
obligation.  `X25519` shows that the scalar multiplication is that of section 5
of RFC 7748, and `Curve` that this is multiplication by the scalar under the
tangent and chord laws of the curve.

**Channels.**  `CircBuffer` is the ring buffer and the FIFO it stands for.
`ChannelSpec` gives what a channel does as functions on its state, `Channel` is
the struct updated in place and proved against them, and `ChannelProtocol` runs
two such channels over FIFO links (sections 5.2 and 5.3 of RFC 4254).
`ChannelLaws` states exactly what each operation does, independently of how it
is written, and that a channel being closed can always be finished.

**Key exchange.**  `KeyDerivation` is section 7.2 of RFC 4253 over an
uninterpreted hash, `KexProtocol` client and server over FIFO links (section
7.3), `Kex` the session updated in place and runs that carry the key bytes,
`Algo` the negotiation (section 7.1).  `Buffer` and `Ubin` are the wire format
of integers (section 5 of RFC 4251).

Results of system calls, clocks, the hash function and the secrets of an
exchange are parameters.  Where the source exits or fails an assertion, the
model returns a flag or the value `Exit`.

## Where the code falls short

Some promises do not hold on all inputs.  In each case the code is modelled as
it is, the failing inputs are exhibited, and the exact condition is proved.

- `mp_exptmod` is wrong on the moduli 2^b - 2^28 with 30 <= b <= 55, because
  `mp_reduce_2k_setup` keeps only the low digit of 2^p - n.  On each of them some
  square comes out as 0; what survives is the power modulo 2^28.  It is right on
  all other moduli but 1, where the exponent 0 gives 1 (`RightExactly`).
- `mp_invmod` with an odd modulus and a negative argument stores the negative of
  the inverse, and `mp_exptmod` inherits this for odd negative exponents.
- Client and server may judge the guessed key exchange differently, because each
  skips unusable entries of its own list only after counting them.  Under the
  older rule this takes one usable and one unusable first entry, under the
  newer one an unusable first entry of the client (`BothJudge`, `JudgedApart`).
- Receive keys change at the other side's NEWKEYS only if ours was sent before;
  the order of messages guarantees this.  A channel that reads stderr from its
  own descriptor beside a socket would keep it open after CLOSE; the protocol
  results assume, as every channel type arranges, that a socket channel has no
  stderr descriptor.

## Model

| member | source | states |
|---|---|---|
| Mp.Int.Clamp | libtommath/bn_mp_clamp.c:13-26 | drops zero digits from the top and keeps the magnitude; zero comes out positive |
| Mp.Int.Grow | libtommath/bn_mp_grow.c:7-41 | room for `size` cells, the new ones zero, the number unchanged |
| Mp.CountBits | libtommath/bn_mp_count_bits.c:7-27 | the bit length of the magnitude |
| Multiply.Column | libtommath/bn_s_mp_mul_digs_fast.c:45-67 | the inner comba loop adds exactly column ix of the product, and the 64-bit accumulator does not overflow |
| Multiply.ComboColumns | libtommath/bn_s_mp_mul_digs_fast.c:43-74 | the columns as digits and one carry: their value is that of the columns, for any starting column |
| Multiply.StoreDigits | libtommath/bn_s_mp_mul_digs_fast.c:76-92 | the digits in place in c, the cells below the first column kept, those above zeroed, the result clamped |
| Multiply.MulDigsFast | libtommath/bn_s_mp_mul_digs_fast.c:22-94 | the product modulo B^digs, even at the largest factor comba accepts |
| Multiply.SchoolRow | libtommath/bn_s_mp_mul_digs.c:36-70 | one row added in place with its carries, cut off at column digs |
| Multiply.MulDigs | libtommath/bn_s_mp_mul_digs.c:10-77 | the product modulo B^digs from either arm: schoolbook and comba agree |
| Multiply.MulHighDigsFast | libtommath/bn_s_mp_mul_high_digs_fast.c:15-84 | the digits from digs up are those of the product without its columns below digs; what lies below is whatever c held |
| Multiply.HighRow | libtommath/bn_s_mp_mul_high_digs.c:36-61 | one row of the truncated product |
| Multiply.MulHighDigs | libtommath/bn_s_mp_mul_high_digs.c:9-67 | the product without its columns below digs, from either arm |
| Multiply.SquareColumnSum | libtommath/bn_s_mp_sqr_fast.c:33-78 | a column of the square from half the products, doubled, with the middle term and the carry, within 64 bits |
| Multiply.SqrFast | libtommath/bn_s_mp_sqr_fast.c:16-96 | the square |
| Multiply.SquareRowInto | libtommath/bn_s_mp_sqr.c:23-62 | a row of the schoolbook square: the digit at 2ix, the doubled products and the carries, in place |
| Multiply.SqrSchool | libtommath/bn_s_mp_sqr.c:7-68 | the square |
| Multiply.Sqr | libtommath/bn_mp_sqr.c:7-27 | the square of a signed number, whichever arm is taken; the output may be the input |
| Multiply.Slice | libtommath/bn_s_mp_balance_mul.c:37-43 | the slice of digits copied one by one and clamped, in a buffer of its own |
| Multiply.AddSlices | libtommath/bn_s_mp_balance_mul.c:36-72 | the slices and the left-over, each multiplied and shifted to its place, add up to the product |
| Multiply.BalanceMul | libtommath/bn_s_mp_balance_mul.c:7-80 | the product of the magnitudes; the mutual recursion with mp_mul ends because every slice is shorter |
| Multiply.Mul | libtommath/bn_mp_mul.c:7-51 | the signed product for every pair of operands and every aliasing of the output |
| Product.ColsCong | libtommath/bn_s_mp_mul_digs_fast.c:40-74 | for all digit strings the n lowest columns give the product modulo B^n |
| Product.ColsAll | libtommath/bn_s_mp_mul_digs_fast.c:40-74 | all columns give the product |
| Product.HighSnoc | libtommath/bn_s_mp_mul_high_digs.c:36-61 | what one row adds to the product without its low columns |
| Product.SquareColumn | libtommath/bn_s_mp_sqr_fast.c:54-71 | a column of a square is twice the products below the middle, plus the middle one in even columns |
| Montgomery.ColumnCleared | libtommath/bn_s_mp_montgomery_reduce_fast.c:61-104 | the multiple mu chosen from rho makes the current column divisible by B |
| Montgomery.ClearColumn | libtommath/bn_s_mp_montgomery_reduce_fast.c:61-104 | one round with delayed carries: the column cleared, its carry passed on, every column within its cap and so within 64 bits |
| Montgomery.ClearColumns | libtommath/bn_s_mp_montgomery_reduce_fast.c:58-104 | after all rounds the upper columns hold (x + m n) / B^k for some m < B^k |
| Montgomery.CarryColumns | libtommath/bn_s_mp_montgomery_reduce_fast.c:114-124 | the remaining carries turn the columns into digits of the same number |
| Montgomery.StoreColumns | libtommath/bn_s_mp_montgomery_reduce_fast.c:126-151 | the masked columns k to 2k back in the cells of x, the rest zeroed |
| Montgomery.OneSubtraction | libtommath/bn_s_mp_montgomery_reduce_fast.c:153-156 | what is left is below 2n, so a single subtraction brings it into [0, n) |
| Montgomery.ReduceFast | libtommath/bn_s_mp_montgomery_reduce_fast.c:14-158 | for 0 <= x < n B^k: r in [0, n) with r B^k = x modulo n; the size test cannot fail |
| Montgomery.ClearDigit | libtommath/bn_mp_montgomery_reduce.c:34-82 | one digit cleared in place with its carries propagated |
| Montgomery.ReduceBaseline | libtommath/bn_mp_montgomery_reduce.c:26-101 | the same result from the digit-by-digit form |
| Montgomery.Reduce | libtommath/bn_mp_montgomery_reduce.c:7-101 | the same result from either arm |
| Montgomery.ReducedUnique | libtommath/bn_mp_montgomery_reduce.c:34-98 | an odd modulus admits only one such r, so the two forms agree |
| Montgomery.NewtonStep | libtommath/bn_mp_montgomery_setup.c:26-35 | each step squares the power of two modulo which x inverts b |
| Montgomery.Setup | libtommath/bn_mp_montgomery_setup.c:7-41 | in wrapping 32-bit arithmetic: rho n0 = -1 modulo B, or MP_VAL exactly for even n |
| Montgomery.CalcNormalization | libtommath/bn_mp_montgomery_calc_normalization.c:12-43 | B^k modulo n by doubling and conditional subtraction |
| Reductions.FoldShrinks | libtommath/bn_mp_reduce_2k.c:18-41 | a fold keeps the value nonnegative, never grows it, and moves it by a multiple of 2^p - d |
| Reductions.FoldedKeeps | libtommath/bn_mp_reduce_2k.c:18-41 | the "goto top" loop keeps the value modulo every common divisor of 2^p - d and n, whatever d is |
| Reductions.FoldedIsRem | libtommath/bn_mp_reduce_2k.c:18-41 | the "goto top" loop yields the residue whenever n divides 2^p - d |
| Reductions.Reduce2k | libtommath/bn_mp_reduce_2k.c:7-47 | leaves exactly what the fold loop computes, for every d |
| Reductions.Reduce2kL | libtommath/bn_mp_reduce_2k_l.c:10-48 | leaves exactly what the fold loop computes, for a d of any length |
| Reductions.Setup2k | libtommath/bn_mp_reduce_2k_setup.c:7-31 | only the low digit of 2^p - n |
| Reductions.Setup2kL | libtommath/bn_mp_reduce_2k_setup_l.c:7-27 | the whole of 2^p - n |
| Reductions.Is2k | libtommath/bn_mp_reduce_is_2k.c:7-37 | the bit scan says yes exactly for one digit or when n is within B of the next power of two |
| Reductions.Is2kL | libtommath/bn_mp_reduce_is_2k_l.c:7-27 | yes exactly for one digit or when at least half the digits are all ones |
| Reductions.IsDrModulus | libtommath/bn_mp_dr_is_modulus.c:7-26 | yes exactly when there are two digits or more and all but the lowest are all ones |
| Reductions.DrFoldDigits | libtommath/bn_mp_dr_reduce.c:48-59 | the in-place loop computes (x mod B^m) + k (x / B^m) in m digits and a carry of at most k |
| Reductions.DrFold | libtommath/bn_mp_dr_reduce.c:40-65 | one pass up to the clamp; only for k = B can the carry cell hold B, and then the cells below it are worth less than n |
| Reductions.SubInPlace | libtommath/bn_s_mp_sub.c:7-68 | the digit loop in wrapping 32-bit arithmetic is the subtraction, also from a carry cell of B, because it borrows there |
| Reductions.DrReduce | libtommath/bn_mp_dr_reduce.c:20-77 | x modulo n for n = B^m - k with any 0 < k <= B; each pass keeps the residue and the loop ends |
| Division.EstimateNotBelow | libtommath/bn_mp_div.c:160-173 | the one-digit estimate is never below the quotient digit |
| Division.RefineNotBelow | libtommath/bn_mp_div.c:175-196 | a rejected digit was too large, so refinement never undershoots |
| Division.RefineOneAbove | libtommath/bn_mp_div.c:175-196 | an accepted digit is at most one too large, although the divisor is normalised only to a top digit of B/4 or more |
| Division.CmpMag | libtommath/bn_mp_cmp_mag.c:7-38 | the digit counts decide first, also on operands that are not clamped |
| Division.TooBig | libtommath/bn_mp_div.c:181-196 | what the comparison with the unclamped three-digit t2 really decides |
| Division.Refine | libtommath/bn_mp_div.c:175-196 | stops at the quotient digit or one above |
| Division.TrialDigit | libtommath/bn_mp_div.c:160-196 | the trial digit is the quotient digit or one more |
| Division.DigitFound | libtommath/bn_mp_div.c:198-213 | after the subtraction and at most one add-back the remainder is in [0, y) |
| Division.DivideStep | libtommath/bn_mp_div.c:155-214 | step 3 for one i: x and q keep x0 = q y + x, and x falls below the shifted divisor |
| Division.TopDigit | libtommath/bn_mp_div.c:142-152 | the top quotient digit by repeated subtraction: x0 = q y + x with x below the shifted divisor |
| Division.DivideNormalized | libtommath/bn_mp_div.c:138-214 | quotient and remainder for a normalised divisor |
| Division.DivideMags | libtommath/bn_mp_div.c:128-232 | normalisation, division and the shift back of the remainder, on magnitudes |
| Division.Div | libtommath/bn_mp_div.c:86-245 | c b + d = a, |d| < |b|, d of the sign of a, for all a and all b other than 0; MP_VAL exactly for b = 0; outputs may be inputs or missing |
| Division.ModOrFail | libtommath/bn_mp_mod.c:7-30 | the remainder with the sign of the divisor, from the truncated one; MP_VAL exactly for b = 0 |
| Barrett.ColsBound | libtommath/bn_mp_reduce.c:24-40 | the columns the high product drops are worth less than k B^(k+1) |
| Barrett.NotTooHigh | libtommath/bn_mp_reduce.c:21-43 | the estimate never exceeds the true quotient |
| Barrett.NotTooLow | libtommath/bn_mp_reduce.c:21-43 | it falls short by fewer than k + 3 |
| Barrett.Setup | libtommath/bn_mp_reduce_setup.c:9-16 | mu is the quotient of B^(2k) by m; MP_VAL for m = 0 |
| Barrett.EstimateQuotient | libtommath/bn_mp_reduce.c:16-43 | q1, the truncated product and the second shift give such an estimate |
| Barrett.WrappedResidue | libtommath/bn_mp_reduce.c:45-69 | subtracting modulo B^(k+1) and adding back recovers x - q m |
| Barrett.Reduce | libtommath/bn_mp_reduce.c:10-82 | x modulo m for every 0 <= x < B^(2k), so for every x < m^2, with at most um + 2 back-off subtractions |
| InvMod.HalveRow | libtommath/bn_s_mp_invmod_fast.c:46-71 | halving a coefficient, after moving it by the odd modulus if needed, is exact and keeps the row |
| InvMod.HalveFast | libtommath/bn_s_mp_invmod_fast.c:46-71 | the twos leave u, the row and the common divisors stay |
| InvMod.FastRows | libtommath/bn_s_mp_invmod_fast.c:40-89 | ends with u = 0 and v the greatest common divisor, u + v being the measure |
| InvMod.IntoRange | libtommath/bn_s_mp_invmod_fast.c:99-110 | adds and subtracts b until the coefficient is in [0, b) |
| InvMod.Fast | libtommath/bn_s_mp_invmod_fast.c:12-117 | success exactly for coprime a and odd b > 1; the result is the inverse with the sign of a |
| InvMod.HalveCombination | libtommath/bn_s_mp_invmod_slow.c:41-70 | moving both coefficients by (y, -x) makes both even |
| InvMod.SlowRows | libtommath/bn_s_mp_invmod_slow.c:33-92 | the four-coefficient loop ends with v the greatest common divisor as a combination |
| InvMod.Slow | libtommath/bn_s_mp_invmod_slow.c:7-118 | success exactly for b > 1 coprime to a, with the inverse in [0, b), for even and for odd b |
| InvMod.InvMod | libtommath/bn_mp_invmod.c:7-22 | success exactly when gcd(a, b) = 1 and b > 1; the stored number is the inverse in [0, b) if and only if a >= 0 or b is even, and else its negative is |
| Powers.RepMul | libtommath/bn_s_mp_exptmod_fast.c:138-150 | under every reduction, multiplying and reducing representatives adds the exponents |
| Powers.LossyMul | libtommath/bn_mp_reduce_2k.c:18-41 | where the fold loses its digit, products still represent the power modulo B, the power itself while it is below P, and exactly the folded square at exponent 2 |
| Powers.MontEnd | libtommath/bn_s_mp_exptmod_fast.c:232-240 | one more reduction takes the factor B^k off |
| Window.ReadBit | libtommath/bn_s_mp_exptmod_fast.c:160-174 | shift and mask give the next exponent bit, most significant first |
| Window.ReadingEnd | libtommath/bn_s_mp_exptmod_fast.c:160-167 | when the digits run out every bit of X has been read |
| Sliding.Redux | libtommath/bn_s_mp_exptmod_fast.c:73-110 | each reduction the function pointer may name acts as the form in force says |
| Sliding.BuildTable | libtommath/bn_s_mp_exptmod_fast.c:138-150 | entry i of the upper half of the table represents the power i of the base |
| Sliding.MachinePush | libtommath/bn_s_mp_exptmod_fast.c:192-195 | a bit entering the window keeps register and exponent in step |
| Sliding.Flush | libtommath/bn_s_mp_exptmod_fast.c:196-212 | a full window squares winsize times and multiplies by its table entry |
| Sliding.Step | libtommath/bn_s_mp_exptmod_fast.c:172-213 | one bit through the mode machine: result and window together represent the bits read so far |
| Sliding.Drain | libtommath/bn_s_mp_exptmod_fast.c:215-230 | the bits left in the window at the end |
| Sliding.Slide | libtommath/bn_s_mp_exptmod_fast.c:152-230 | the result represents G^X, for any window size and any of the reductions |
| Exponentiation.Exponentiate | libtommath/bn_s_mp_exptmod_fast.c:122-240 | G^X modulo P from table, window and fixup |
| Exponentiation.FoldDigit | libtommath/bn_mp_reduce_2k_setup.c:7-31 | the low digit serves if and only if 2^p - n is not B or n is B; else it is 0 |
| Exponentiation.ExptModFast | libtommath/bn_s_mp_exptmod_fast.c:22-254 | G^X modulo P in Montgomery, diminished-radix and 2k mode; on the moduli that lose their digit, what 2k mode keeps of it |
| Exponentiation.ExptModWide | libtommath/bn_s_mp_exptmod.c:14-197 | the same over Barrett and 2k_l reduction, also modulo 1; MP_VAL for P = 0 |
| Exponentiation.DrIsMostlyOnes | libtommath/bn_mp_exptmod.c:51-58 | every diminished-radix modulus is taken by the 2k_l test before, so that branch is never entered |
| Exponentiation.LosingIsBad | libtommath/bn_mp_exptmod.c:51-63 | the moduli that reach the digit fold and lose the digit are exactly 2^b - 2^28 with 30 <= b <= 55 |
| Exponentiation.BadModulusFails | libtommath/bn_mp_reduce_2k_setup.c:23-29 | on each of them there is a base whose square comes out as 0, and is not 0 modulo P |
| Exponentiation.SquareRightExactly | libtommath/bn_mp_reduce_2k.c:18-41 | on each of them the square of a base comes out right if and only if 2^(b-28) - 1 divides its quotient by 2^b |
| Exponentiation.RightExactly | libtommath/bn_mp_exptmod.c:51-73 | what mp_exptmod guarantees is the power modulo P for every base and every exponent if and only if P is none of these and not 1 |
| Exponentiation.NonnegExptMod | libtommath/bn_mp_exptmod.c:51-73 | whichever strategy is chosen: the power modulo P for every P > 0 but those, the exponent 0 modulo 1 giving 1; on those the power modulo 2^28, exact while it is below P |
| Exponentiation.ExptMod | libtommath/bn_mp_exptmod.c:11-74 | all sign cases: error exactly for P <= 0, or for X < 0 without an inverse; for X < 0 the power of the inverse, its sign lost exactly when G < 0, P odd and X odd, and on the bad moduli that power modulo 2^28 |
| Exponentiation.SignMatters | libtommath/bn_mp_exptmod.c:21-49 | a power with its sign lost is not the power of the inverse |
| Sqrt.StepAbove | libtommath/bn_mp_sqrt.c:44-56 | a rounded Newton step never goes below the root |
| Sqrt.StopFromAbove | libtommath/bn_mp_sqrt.c:44-56 | from above the root the quotient is at most the root and the step descends |
| Sqrt.TrapOvershoots | libtommath/bn_mp_sqrt.c:44-56 | were t1 ever the root s of s^2 + 2s, the loop would stop at s + 1 |
| Sqrt.IntoTrap | libtommath/bn_mp_sqrt.c:34-56 | only s + 1 steps onto s there |
| Sqrt.SeedMissesTrap | libtommath/bn_mp_sqrt.c:31-42 | and the digit-shift seed is never s + 1 |
| Sqrt.FindRoot | libtommath/bn_mp_sqrt.c:23-56 | seed and loop end at the root |
| Sqrt.SquareRoot | libtommath/bn_mp_sqrt.c:7-65 | the one number with ret^2 <= arg < (ret + 1)^2, for every arg >= 0; MP_VAL for negative arg |
| Primes.Fermat | libtommath/bn_mp_prime_miller_rabin.c:50-56 | b^(p-1) = 1 modulo a prime p that does not divide b |
| Primes.RootsOfOne | libtommath/bn_mp_prime_miller_rabin.c:58-77 | modulo a prime only 1 and -1 square to 1 |
| MillerRabin.PrimePasses | libtommath/bn_mp_prime_miller_rabin.c:27-82 | every prime is a strong probable prime to every base it does not divide |
| MillerRabin.StrongIsFermat | libtommath/bn_mp_prime_miller_rabin.c:27-82 | what passes to base b satisfies b^(a-1) = 1 modulo a |
| MillerRabin.Squarings | libtommath/bn_mp_prime_miller_rabin.c:58-76 | the loop says yes exactly when some square before the s-th is -1 |
| MillerRabin.Test | libtommath/bn_mp_prime_miller_rabin.c:13-90 | for odd a > 2 the answer is exactly "strong probable prime to b", so YES for every odd prime a and 1 < b < a; YES for a = 1; for even a exactly when the computed b^(a-1) is 1 or a - 1; MP_VAL for b <= 1 or a <= 0 |
| Field25519.CarryLimb | src/curve25519.c:85-95 | one limb carried, floor-wise, into the next or 38-fold into the first, without overflow |
| Field25519.Carry | src/curve25519.c:85-95 | a pass turns the value v into v mod 2^256 + 38 (v / 2^256), digits above the first limb |
| Field25519.FoldedCong | src/curve25519.c:85-95 | which is the same modulo 2^255 - 19 |
| Field25519.Add | src/curve25519.c:158-162 | the sum in the field, limb by limb |
| Field25519.Subtract | src/curve25519.c:164-168 | the difference in the field, limb by limb |
| Field25519.AddRow | src/curve25519.c:170-174 | a row of the product in place; every column within i64 |
| Field25519.FoldColumns | src/curve25519.c:175 | the 38-fold columns keep the product modulo the prime and stay small |
| Field25519.Multiply | src/curve25519.c:170-179 | the product in the field for limbs up to 2^18, and limbs reduced to digits but for at most 38 at the bottom |
| Field25519.Square | src/curve25519.c:181-184 | the square in the field |
| Pack25519.Select | src/curve25519.c:97-105 | the masked exclusive-or exchanges two vectors exactly when b is 1 |
| Pack25519.MaskedExchange | src/curve25519.c:97-105 | on the bits of two limbs: the difference under a mask of ones exchanges them, under zeros it does nothing |
| Pack25519.Normalize | src/curve25519.c:112-115 | three passes leave digits, for any limbs up to 2^61 |
| Pack25519.TrySubtract | src/curve25519.c:116-123 | t - p with its borrow, which is set exactly when t < p |
| Pack25519.SubtractOnce | src/curve25519.c:115-125 | one conditional subtraction of the prime |
| Pack25519.Pack | src/curve25519.c:107-130 | the 32 bytes that write the residue below the prime |
| Pack25519.Unpack | src/curve25519.c:151-156 | the number of the bytes without its top bit, in digits |
| Pack25519.Verify32 | src/curve25519.c:65-75 | 0 exactly for equal strings, else -1 |
| Pack25519.NotEqual | src/curve25519.c:134-140 | 0 exactly for vectors equal modulo the prime, else -1 |
| X25519.Round | src/curve25519.c:231-248 | one ladder round on limbs is the round of section 5 of RFC 7748 on field elements, which doubles one point and adds the other (`StepDoubles`, `StepAdds`) |
| X25519.EagerSwap | src/curve25519.c:227-251 | swapping before and after each bit is what the deferred swap of the RFC amounts to |
| X25519.ByteBit | src/curve25519.c:228 | bit i of the scalar from its byte |
| X25519.Clamp | src/curve25519.c:218-220 | the scalar with bits 0, 1, 2 and 255 cleared and bit 254 set |
| X25519.FullExponent | src/curve25519.c:191-194 | the exponent skipping bits 2 and 4 is p - 2 |
| X25519.Invert | src/curve25519.c:186-196 | the power p - 2, in place |
| X25519.RunLadder | src/curve25519.c:222-251 | the limb bounds survive all 255 rounds and the points are those of the RFC ladder, so multiples of the base point (`LadderMultiples`) |
| X25519.ScalarMult | src/curve25519.c:213-261 | the bytes of X25519(k, u) for every scalar and every u-coordinate, the quotient x / z of that multiple (`ScalarMultiple`) |
| X25519.ScalarBits | src/curve25519.c:218-220 | bit by bit, for every scalar: 0, 1, 2 and all from 255 up cleared, 254 set, the others kept |
| X25519.CoordinateBits | src/curve25519.c:151-156 | of a u-coordinate only the top bit is ignored, the rest reduced modulo p |
| Curve.StepDoubles | src/curve25519.c:231-248 | for every pair of points a round replaces the first by x = (x^2 - z^2)^2, z = 4xz(x^2 + 486662xz + z^2) |
| Curve.StepAdds | src/curve25519.c:231-248 | and the second by x = 4(x2 x3 - z2 z3)^2, z = 4 x1 (x2 z3 - z2 x3)^2 |
| Curve.DoubleIsTangent | src/curve25519.c:231-248 | the first is the tangent law of v^2 = u^3 + 486662u^2 + u |
| Curve.AddIsChord | src/curve25519.c:231-248 | the second is its chord law, if x1 is the u-coordinate of the difference |
| Curve.LadderMultiples | src/curve25519.c:222-251 | after every bit the ladder stands at m and m + 1 times the point, m the bits seen, up to a factor prime to p |
| Curve.Quotient | src/curve25519.c:258-259 | if p is prime, multiplying by the power p - 2 divides, and gives 0 for z = 0 |
| Curve.ScalarMultiple | src/curve25519.c:213-261 | if p is prime, X25519(k, u) is x / z of the k-fold of the point u for every k and u, and 0 where z or u is 0 |
| CircBuffer.CBuf.WriteLen | src/circbuffer.c:71-87 | the room before the wrap, 0 exactly when full; its three assertions hold |
| CircBuffer.CBuf.ReadPtrs | src/circbuffer.c:89-102 | the contents are at most two stretches of the array, in order |
| CircBuffer.CBuf.WritePtr | src/circbuffer.c:104-116 | accepts exactly what fits before the wrap; the lazy allocation keeps the contents |
| CircBuffer.CBuf.IncrWrite | src/circbuffer.c:118-126 | the bytes behind the contents join the FIFO at its end |
| CircBuffer.CBuf.IncrRead | src/circbuffer.c:129-133 | the oldest bytes leave the FIFO |
| CircBuffer.RingAppend | src/circbuffer.c:118-126 | appending on the ring is appending to the FIFO, across the wrap |
| CircBuffer.RingDrop | src/circbuffer.c:129-133 | so is dropping |
| Channel.Fill | src/common-channel.c:840-849 | the copy loop appends the payload to the ring in at most two rounds |
| Channel.WriteRing | src/common-channel.c:452-504 | writev of the two stretches and the payload: payload bytes go out only after the ring is empty |
| Channel.Channel.constructor | src/common-channel.c:106-171 | a new channel with its window announced in full |
| Channel.Channel.CloseChanFd | src/common-channel.c:1052-1091 | which descriptors close, for sockets and for separate descriptors, and that no other does (`CloseFdExact`) |
| Channel.Channel.WriteV | src/common-channel.c:442-506 | bytes leave ring and payload in order; a failure closes the descriptor |
| Channel.Channel.WriteFallback | src/common-channel.c:412-438 | the fallback takes a prefix of the ring and nothing of the payload |
| Channel.Channel.Deliver | src/common-channel.c:513-537 | the write and the window adjustment; its three assertions hold |
| Channel.Channel.RecvData | src/common-channel.c:787-853 | exit exactly for data after EOF or beyond the window; else written at once as far as it goes and the rest kept |
| Channel.Channel.RecvExtended | src/cli-channel.c:34-59 | stderr data is taken only by session channels, and ignored by all others |
| Channel.Channel.RecvAdjust | src/common-channel.c:858-876 | the window grows, clamped at 2^32 - 1, and nothing else changes |
| Channel.Channel.SendChannelData | src/common-channel.c:697-773 | what is read from readfd goes out as data and from errfd as stderr data, within window and packet size (`SendExact`); its assertion holds |
| Channel.Channel.SendMsgClose | src/common-channel.c:373-393 | CLOSE after a final EOF flag, and the three descriptors closed in the order and in the cases of close_chan_fd |
| Channel.Channel.DoCheckClose | src/common-channel.c:276-342 | the whole decision of check_close, including removal: EOF and CLOSE go out exactly when due (`CheckExact`) |
| Channel.Channel.RecvEnd | src/common-channel.c:592-621 | the handlers of EOF and CLOSE |
| ChannelProtocol.CloseEndsStderr | src/common-channel.c:1052-1091 | CLOSE shuts stderr off if and only if it is closed, written, not on a socket, or the read descriptor itself |
| ChannelProtocol.CheckEffect | src/common-channel.c:276-342 | check_close sends at most EOF and then CLOSE, moves the handshake one way, and removes only after both closes |
| ChannelProtocol.WriteEffect | src/common-channel.c:513-537 | what leaves the buffers is what the window gains or owes |
| ChannelProtocol.SendEffect | src/common-channel.c:697-773 | data is sent only before EOF and CLOSE and only against window |
| ChannelProtocol.AbsorbEffect | src/common-channel.c:787-853 | received bytes are conserved: written, buffered or, on a failed write, lost |
| ChannelProtocol.ActKeeps | src/common-channel.c:199-258 | every event at either end keeps the window, store, order and stream invariants of both directions |
| ChannelProtocol.Safety | src/common-channel.c:199-258 | so does every run of two endpoints over FIFO links |
| ChannelProtocol.WindowSafety | src/common-channel.c:803-824 | in every run: sender window + data in flight + adjustments in flight <= receiver window, receiver window + buffers + recvdonelen <= recv_window, and no message makes the receiver exit |
| ChannelProtocol.StreamSafety | src/common-channel.c:826-850 | in every run what was read from a descriptor is what was sent on its stream, what was written to the peer's is a prefix of it, and while that is open, written + buffered + in flight is all that was read; stdout and stderr never mix |
| ChannelProtocol.CloseOrder | src/common-channel.c:276-342 | in every run at most one EOF and one CLOSE, no data after either, nothing after CLOSE, and nothing on its way to a removed channel |
| ChannelProtocol.WindowReopens | src/common-channel.c:523-528 | in every run a drained channel whose descriptors are open leaves the sender at least two thirds of the window |
| ChannelProtocol.ReadsKept | src/common-channel.c:697-773 | every event keeps the bytes sent on each stream equal to those read from its descriptor |
| ChannelLaws.CloseFdExact | src/common-channel.c:1052-1091 | only the named descriptor closes; on a socket only the half shut down, on separate descriptors every field that holds it |
| ChannelLaws.HalfClosed | src/common-channel.c:697-773 | in every run the end of input on a socket closes its reading half alone: the writing half, the buffers and both links stay |
| ChannelLaws.WriteExact | src/common-channel.c:513-537 | the bytes written, those kept, and that the window is extended by all that was passed on exactly once a third of it has gathered |
| ChannelLaws.WriteFailure | src/common-channel.c:412-506 | a failed write closes its own descriptor and spares the others |
| ChannelLaws.ReceiveExits | src/common-channel.c:787-824 | a message ends the session if and only if it comes for a removed channel, is data after EOF, or exceeds the buffer or the window |
| ChannelLaws.ReceiveExact | src/common-channel.c:787-876 | what the other messages do: data for a closed descriptor is dropped, an adjustment credited with its clamp, EOF and CLOSE change only the ends |
| ChannelLaws.AbsorbExact | src/common-channel.c:826-850 | a payload taken: what goes out and what is kept are buffer and payload in order, and the other stream is untouched |
| ChannelLaws.SendExact | src/common-channel.c:697-773 | data or stderr data by the descriptor it came from, the window less its length; nothing without window; the end of input closes that descriptor |
| ChannelLaws.FlushExact | src/common-channel.c:296-308 | flushing closes exactly the drained reading descriptors |
| ChannelLaws.CheckExact | src/common-channel.c:276-342 | for every state: when check_close removes, closes the writing side, sends EOF, sends CLOSE, in this order, and that it does nothing else |
| ChannelLaws.FinishExact | src/common-channel.c:325-341 | EOF has been sent exactly if no input is left, CLOSE exactly if besides the writing side is closed, closing is allowed and nothing is undelivered |
| ChannelLaws.HeardExact | src/common-channel.c:592-621 | EOF and CLOSE set their flags and then do what check_close does |
| ChannelLaws.ClosesUp | src/common-channel.c:276-342 | in every run a drained channel with all descriptors closed sends CLOSE at the next check, and one that takes CLOSE is removed |
| ChannelLaws.CanFinish | src/common-channel.c:276-342 | from every state of every run in which one side has sent CLOSE some moves remove the channel at both |
| KeyDerivation.HashKeys | src/common-kex.c:267-291 | the first outlen bytes of the stream of section 7.2 of RFC 4253, for every length |
| KeyDerivation.AnyPrefix | src/common-kex.c:267-291 | keys of different lengths are prefixes of one stream |
| KeyDerivation.GenNewKeys | src/common-kex.c:300-398 | the six fields spelled out: letters A, C, E for client to server and B, D, F back, from either end, 20 and 64 bytes long; no integrity key where the cipher has none |
| KeyDerivation.KeyBlocks | src/common-kex.c:267-291 | block 0 hashes secret, exchange hash, letter and session id, every later one secret, exchange hash and all blocks before it |
| KeyDerivation.LettersMatter | src/common-kex.c:300-398 | different letters hash different strings, and keys differ where the hashes do |
| KeyDerivation.DirectionsDiffer | src/common-kex.c:300-398 | so the two directions do not share their cipher key, unless the hash collides on C and D |
| Kex.Session.SwitchKeys | src/common-kex.c:120-159 | which halves of the new keys come into use, and the reset when both NEWKEYS have passed |
| Kex.Session.SendNewKeys | src/common-kex.c:162-187 | transmit keys change at our NEWKEYS, which itself still goes out under the old ones |
| Kex.Session.RecvNewKeys | src/common-kex.c:190-203 | receive keys change at theirs |
| Kex.SameKeys | src/common-kex.c:300-398 | ends in the same exchange hold equal keys for a direction |
| Kex.KeysKept | src/common-kex.c:120-203 | every event keeps the keys held in step with the exchanges the state names |
| Kex.SameBytes | src/common-kex.c:120-203 | in every run of client and server the key bytes a packet is read under are those it was sent under, the keys of section 7.2 with the letters of its direction for its exchange, none before the first, and the packet is taken |
| KexProtocol.RecvNewKeysMoves | src/common-kex.c:190-203 | NEWKEYS read after our own changes the receive keys once, keeps the transmit keys and ends the exchange |
| KexProtocol.EarlyNewKeys | src/common-kex.c:120-159 | receive keys change at their NEWKEYS if and only if ours was sent before |
| KexProtocol.TakeExits | src/process-packet.c:43-166 | a packet ends the session if and only if it was sent under other keys or another number, is not the one required, or is a kex message out of turn |
| KexProtocol.KexInitExact | src/common-kex.c:493-577 | KEXINIT is answered with ours unless sent, and then only the DH message may follow |
| KexProtocol.DhExact | src/common-kex.c:162-187 | the DH message is answered with our NEWKEYS under the old keys, at the server behind its DH reply; our keys change, theirs do not |
| KexProtocol.NewKeysExact | src/common-kex.c:190-203 | their NEWKEYS changes the receive keys and ends the exchange; strict mode restarts the numbers |
| KexProtocol.OtherExact | src/process-packet.c:43-166 | any other packet changes nothing but its number |
| KexProtocol.SendExact | src/common-kex.c:65-115 | what an end sends of its own accord, under which keys and number |
| KexProtocol.RunKeeps | src/common-kex.c:493-577 | in every run of client and server over FIFO links the kex packets of each direction come in order |
| KexProtocol.SameEpoch | src/common-kex.c:120-203 | in every run every packet is read under the key exchange and the sequence number it was sent with, passes the requirenext and strict-mode tests, and is handled |
| KexProtocol.OnlyExpected | src/process-packet.c:43-166 | in every run a packet other than the one the exchange has reached ends the session |
| KexProtocol.CanComplete | src/common-kex.c:120-203 | from every state of every run reading and the client's DH message alone complete the exchange under way, and both ends then hold the keys of the same exchange in both directions |
| Algo.PutAlgolist | src/common-algo.c:361-385 | the length and the offered names joined by commas, at the cursor; exit exactly for lack of room |
| Algo.SplitJoin | src/common-algo.c:395-429 | splitting what was joined gives the names back |
| Algo.JoinSplit | src/common-algo.c:361-385 | joining what was split gives the text back, for every text |
| Algo.GetAlgolist | src/common-algo.c:395-429 | the C strings left in place are the names between commas; none on a NUL; exit exactly at a comma too many |
| Algo.GetString | src/buffer.c:201-221 | success exactly on a complete string of at most 9000 bytes: its bytes with a NUL behind, and the cursor behind it |
| Algo.FindPair | src/common-algo.c:512-541 | the first client name the server has, and its first place there |
| Algo.MatchAlgo | src/common-algo.c:493-541 | the choice of section 7.1 of RFC 4253, spelled out as the first common name, as index into the local list, and whether the guess was right, for both roles and both rules |
| Algo.ChosenExactly | src/common-algo.c:512-541 | a name is chosen if and only if it is common and no earlier client name is; none if and only if none is common |
| Algo.OfferedInOrder | src/common-algo.c:361-385 | the usable names of two lists in a row are those of the one and then of the other |
| Algo.OneOffered | src/common-algo.c:361-385 | of one entry the name, exactly if it is usable or all are asked for |
| Algo.JoinMore | src/common-algo.c:361-385 | one comma between any two names, none before the first or behind the last |
| Algo.BufMatchAlgo | src/common-algo.c:472-546 | the list at the cursor read, split in place and matched; exit only for a bad string or 50 commas and more |
| Algo.BothChoose | src/common-algo.c:472-546 | client and server, each reading the other's printed list, choose the same name or both none |
| Algo.BothJudge | src/common-algo.c:519-531 | they judge the guess alike if and only if the first offers do not meet, or the first entries the rule looks at are both usable or both not |
| Algo.Judgements | src/common-algo.c:519-531 | each side finds the guess good exactly when the first offers meet and the first entry of its own list is usable |
| Algo.JudgedApart | src/common-algo.c:519-531 | under either rule there are lists the two judge differently |
| Algo.WriteAndMatch | src/common-algo.c:361-546 | a list written by one side and matched by the other: success exactly within the limits of size and count, and then the choice and the judgement both sides' lists determine |
| Bits.OrDisjoint | libtommath/bn_mp_from_ubin.c:27-28 | or-ing a byte into a shifted digit is adding it |
| Ubin.ShiftByte | libtommath/bn_mp_mul_2d.c:7-70 | eight bits up; a zero top digit takes the carry, so the count does not grow |
| Ubin.AddByte | libtommath/bn_mp_from_ubin.c:22-34 | one byte: the slack digit count never passes the allocated cells |
| Ubin.FromUbin | libtommath/bn_mp_from_ubin.c:7-38 | the number the bytes write, most significant first, for every length |
| Ubin.ToUbin | libtommath/bn_mp_to_ubin.c:7-39 | the magnitude in as many bytes as it needs, or MP_BUF exactly when they do not fit |
| Buffer.Buf.SetLen | src/buffer.c:95-101 | exit exactly beyond the size; pos <= len <= size kept |
| Buffer.Buf.IncrLen | src/buffer.c:104-109 | exit exactly beyond the size; pos <= len <= size kept |
| Buffer.Buf.SetPos | src/buffer.c:111-117 | exit exactly beyond the length; pos <= len <= size kept |
| Buffer.Buf.IncrWritePos | src/buffer.c:120-128 | exit exactly beyond the size; the length follows |
| Buffer.Buf.IncrPos | src/buffer.c:131-137 | exit exactly beyond the length |
| Buffer.Buf.DecrPos | src/buffer.c:140-145 | exit exactly below zero |
| Buffer.Buf.PutByte | src/buffer.c:169-176 | one byte at the cursor, nothing else changed |
| Buffer.Buf.PutBytes | src/buffer.c:303-306 | the bytes at the cursor, nothing else changed |
| Buffer.Buf.PutInt | src/buffer.c:281-286 | the four bytes, most significant first, at the cursor |
| Buffer.Buf.GetInt | src/buffer.c:272-278 | the number of the four bytes at the cursor |
| Buffer.BodyUnique | src/buffer.c:311-350 | a number has one shortest form |
| Buffer.Buf.PutMpint | src/buffer.c:311-350 | writes the length and the shortest two's complement form of section 5 of RFC 4251; exit exactly for negative numbers and lack of room |
| Buffer.Buf.GetMpint | src/buffer.c:356-381 | success exactly on a complete, nonnegative number of at most 1030 bytes, with its value and its bytes consumed |
| Buffer.RoundTrip | src/buffer.c:311-381 | reading after writing restores the number and consumes exactly what was written, for every value within 1030 bytes that fits |

## Left out

- Helpers `Add`, `Sub`, `Mul2`, `Mul2d`, `Div2`, `Div2d`, `Lshd`, `Rshd`, `MulD` and the like in `Mp` are modelled on values: they store the canonical digits of the result, and do not show their own digit loops.
- `dp` is a field of type `seq` that routines reassign, because libtommath reallocates the buffer; the column arrays `W` are arrays.
- MP_MEM paths, because allocation never returns NULL in this program, and negative digit-count arguments, which no caller passes.
- Karatsuba and Toom-Cook multiplication, which this build does not compile.
- Multiply.Slice: each slice gets a fresh buffer; the source refills one and leaves stale cells above its digit count, which nothing reads.
- Multiply.MulHighDigs: the row-by-row arm is stated for a first factor of at most digs + 1 digits, beyond which the source would index below the digits of the second.
- Reductions.SubInPlace: stated for an output that is the first argument.
- InvMod.Slow: odd b that divide a are excluded, because the halving loop of the source does not end on them; mp_invmod calls it for even b only.
- MillerRabin.Test: mp_cnt_lsb is a function on values.
- Exponentiation.ExptModFast: stated for P > 1; its caller takes P = 1 to the other routine.
- Exponentiation.NonnegExptMod: on the bad moduli a power above P, other than a square, is given modulo 2^28 only, since it depends on the order of the multiplications.
- Exponentiation.ExptMod: on the bad moduli a negative power other than -1 is given modulo 2^28 only.
- X25519.ScalarMult: the slices of the 80-limb scratch array are separate arrays; the inverse is stated as the power p - 2.
- Curve.ScalarMultiple: that 2^255 - 19 is prime is a hypothesis, and so for Curve.Quotient; that the chord law is associative is not proved, so the k-fold is the one reached by doubling and differential addition.
- ChannelProtocol.StreamSafety: the read mangler, which only the client's escape character uses, is not modelled.
- Channel.Channel.constructor: setting the descriptors is part of it, and a NULL extrabuf is the flag `extra` with an empty ring.
- Channel.Channel.RecvEnd: type-specific close and cleanup handlers are not modelled.
- ChannelProtocol.Safety: opening a channel, channel requests and several channels on one link are not modelled; runs start once the descriptors are set.
- KexProtocol.SameEpoch: the guessed first packet, rekeying triggers, compression, the queue of replies held back during an exchange and the unimplemented messages below 50 are not modelled; no data is sent before the first KEXINIT, and both ends agree on strict mode.
- KeyDerivation.GenNewKeys: starting the cipher states is not modelled.
- Kex.SameBytes: that both ends compute the same secret is assumed; what they derive from it is proved.
- Algo.GetAlgolist: the length test at its start has no effect in the source, since the count is overwritten, and is not modelled.
- Buffer.Buf.PutMpint: for integers whose bit count fits an int, which mp_count_bits returns.
- Ed25519 as a scheme, `mp_kronecker`, Lucas-Selfridge, Frobenius-Underwood, `mp_root_u32`, `mp_log_u32`, prime generation, radix conversion.
- Packet framing, encryption, authentication, forwarding, terminals, option parsing and everything else that is I/O.
- Timing behaviour and memory burning.

# Verified model of the arithmetic and protocol cores

This project models, in Dafny, the parts of the repository whose correctness is hard to see from the code: the
MIRACL multi-precision stack under the SM2 key agreement (`Demo/agreement/miracl`), the second, independent
256-bit arithmetic of `mpi.c` with the SM2 point check, the AES block cipher and XTS mode of mbed TLS, the MQTT
topic filter matcher and the streaming SM3 hash.

`dafny verify dfyconfig.toml` checks everything.

## How the model is laid out

- `Words`, `Bits`, `Modular`, `Gcds`, `Groups` hold the mathematics: numbers as little-endian words in base 2^32,
  bits, congruences, Euclid's algorithm step by step, abelian groups.
- `Bigs`, `AddSub`, `Multiplication`, `SmallMulDiv`, `Division`, `MontgomeryReduction`, `Montgomery`, `Residues`,
  `BigBits` work on the class `Big`: a word array, a length and a sign, with the invariant every routine relies on
  (words at and above the length are zero, no leading zero word). Aliasing of arguments is part of each contract.
  The configuration is the one the program sets up: full-width 32-bit words, 64-bit double words, no assembly.
- `ResidueLaws` converts big numbers to n-residues, multiplies them and converts them back.
- `LehmerGcd`, `MultiInverse`, `Field`, `Curves`, `CurveBatches`, `CurveLaw`, `LucasLadder`, `JointSparseForm` and
  `ScalarMultiplication` hold the algorithms above the kernel. Their big numbers are the integers they denote; the
  kernel modules prove that the kernel computes exactly those integers. Sixty-four bit words of the leading parts in
  `xgcd` are modelled with their wrap-around. Points are objects with the coordinates and the marker of the source,
  the leftover coordinates of a point at infinity included. The scalar multiplications work on such points; what they
  compute is said in any abelian group whose elements are points under the chord and tangent law (`PointsOf`).
- `BigGcd` is the same `xgcd` once more, on the workspace of big numbers, word arrays and exchanged pointers included.
- `CurveExamples` has a group of five points on a curve modulo 7 and runs the scalar multiplications into the cases
  in which they fail.
- `Mpi`, `MpiProduct`, `Sm2Point` model `mpi.c` on eight-word arrays with stale words above the length.
- `AesColumns`, `Aes`, `AesBytes`, `AesBlock`, `AesKeys`, `Xts` model `aes.c` on bit vectors, the cipher for any pair of
  S-boxes of which the reverse one undoes the forward one. `AesTables` has the table generator, which makes the S-boxes
  of the standard, and `AesField` the group of powers of 3 it rests on.
- `Fips197` is the standard on bytes, written on its own: multiplication in the field as a long product of polynomials
  reduced bit by bit, the S-box, the steps on a state of sixteen bytes, the key expansion and both inverse ciphers.
  Nothing in it is used by the code's model; the two are connected by theorems.
- `MqttTopics` and `Sm3` stand alone. The SM3 compression function is a parameter.

In the C code the sign of a big number is the top bit of `len`; here it is a field of its own. Errors set the
`ernum` of the context, and the contracts say exactly when.

## What the proofs found

- Topic matching is not quite the MQTT rule: a topic that ends in `/` is refused by a filter whose wildcard falls on
  that last, empty level. `MqttTopics.CompareIsMatching` says the loop agrees with the rule in all other cases, and
  `MqttTopics.TrailingSlashIsMissed` gives an input that shows the exception.
- `ecurve_mult` in projective coordinates fails when an odd multiple of the point up to 15 is the point at infinity,
  which is then in the table that `epoint_multi_norm` normalises. `CurveBatches.MultiNorm` says that normalising keeps
  all points exactly when none is at infinity. `ScalarMultiplication.EcurveMult` is right for every scalar under that
  condition, and wrong for the scalar whose multiple it is without it. Multiplying the point at infinity by anything
  but 0 and 1 or -1 ends in a division error. `CurveExamples.FiveTimes` and `CurveExamples.TwiceInfinity` are inputs.
- `ecurve_mult2` fails when one point is at infinity, because `ecurve_add_sub` then takes the leftover coordinates for
  a point. `CurveBatches.AddSub` says exactly when sum and difference are right: for equal X coordinates, for two
  finite points, or by an accident that takes a point of order two. `ScalarMultiplication.EcurveMult2` is right when
  they are, or when no column of the joint sparse form has two digits; for scalars of 1 and -1 exactly when they are.
  `CurveExamples.InfinityAndPoint` is an input.
- `mbedtls_aes_crypt_xts` in place is right without leftover bytes. With leftover bytes the remainder of the input is
  overwritten before it is read: `Xts.CryptXts` says what comes out, `Xts.InPlaceIsRight` when that is right all the
  same, `Xts.RemainderIsLost` that the remainder makes no difference, and `Xts.InPlaceFails` gives an input.
- `divide` leaves its operands positive when it stops with an overflow, since the signs are restored only at the end
  (`Division.Divide`).
- `prepare_monty` overwrites the stored residue of one before it finds that a modulus is even. The old modulus stays,
  and setting it up again returns early with the wrong one: `Montgomery.PrepareMonty` and `Montgomery.StaleOne`.
- `xgcd` with y = 0 and separate cofactors divides by zero in its last step; the numbers it returns are right all the
  same (`LehmerGcd.Xgcd`).
- `CMpi_ComparesTo` is wrong for different negative numbers and for a number and its opposite, and right otherwise
  (`Mpi.ComparesTo`). `CMpi_Add` and `CMpi_Substract` read unused words of the greater number when it is the shorter
  one, and are right exactly when those are zero (`Mpi.AddSigned`, `Mpi.SubstractSigned`). When all eight words are in
  use the word above the last one is the carry field, and the model reads it too; its value is never used.

## Model

| member | source | states |
|---|---|---|
| Bigs.Big.Lzero | Demo/agreement/miracl/mrcore.c:1167-1177 | mr_lzero strips leading zero words without changing the value, and drops the sign with the last of them |
| Bigs.Copy | Demo/agreement/miracl/mrcore.c:1313-1342 | y becomes x word for word, clears what y had above, and does nothing when they are the same |
| Bigs.Compare | Demo/agreement/miracl/mrcore.c:1426-1448 | the result is the sign of x - y for all signs and lengths |
| Bigs.Shift | Demo/agreement/miracl/mrcore.c:1364-1409 | multiplies by B^n or drops the low words, in place or not; overflow exactly when the length passes nib while checking |
| BigBits.TestBit | Demo/agreement/miracl/mrcore.c:1629-1647 | the bit read from the word is the bit of the number |
| BigBits.AddBit | Demo/agreement/miracl/mrcore.c:1649-1657 | on a clear bit the number grows by 2^n and stays canonical |
| AddSub.CarryRule | Demo/agreement/miracl/mrarth0.c:45-58 | "less means carry, greater means none, equal leaves it" gives the right carry for every word pattern |
| AddSub.BorrowRule | Demo/agreement/miracl/mrarth0.c:136-147 | the same rule for borrows |
| AddSub.Padd | Demo/agreement/miracl/mrarth0.c:9-107 | exact sum of magnitudes under every aliasing, with overflow exactly when the sum needs a word beyond nib |
| AddSub.Psub | Demo/agreement/miracl/mrarth0.c:109-169 | exact difference of magnitudes; NegResult exactly when it is negative |
| AddSub.Select | Demo/agreement/miracl/mrarth0.c:171-232 | the signed sum or difference for all signs and aliasings; operands that are not the result keep their signs |
| AddSub.Add | Demo/agreement/miracl/mrarth0.c:234-246 | z = x + y, canonical, or Overflow and then why |
| AddSub.Subtract | Demo/agreement/miracl/mrarth0.c:248-260 | z = x - y, canonical, or Overflow and then why |
| Multiplication.Schoolbook | Demo/agreement/miracl/mrarth2.c:159-176 | the row by row loop leaves exactly the product in the workspace |
| Multiplication.SquareSplit | Demo/agreement/miracl/mrarth2.c:117-158 | twice the off-diagonal sum plus the diagonal is the square, for every length |
| Multiplication.Squaring | Demo/agreement/miracl/mrarth2.c:117-158 | the off-diagonal rows, the doubling in place and the diagonal with its carry give exactly the square |
| Multiplication.Multiply | Demo/agreement/miracl/mrarth2.c:63-288 | z = x * y, signed and canonical, whichever of x, y, z and the workspace coincide; overflow exactly by length |
| SmallMulDiv.Pmul | Demo/agreement/miracl/mrarth1.c:101-203 | exact product with one word, overflow exactly when the carry has no word to go to |
| SmallMulDiv.Sdiv | Demo/agreement/miracl/mrarth1.c:246-307 | exact quotient and remainder by one word, in place or not |
| Division.TruncatedDivision | Demo/agreement/miracl/mrarth2.c:290-402 | the quotient and remainder computed are the only ones of truncated division: x = z*y + r, r smaller than y and with the sign of x |
| Division.GuessIsClose | Demo/agreement/miracl/mrarth2.c:419-449 | after the refinement the guessed digit is at most one too big |
| Division.Digit | Demo/agreement/miracl/mrarth2.c:415-485 | one quotient digit: guess, refine, subtract and add back at most once leave the exact digit and remainder |
| Division.LongDivision | Demo/agreement/miracl/mrarth2.c:403-489 | all the digits together are the quotient of the normalised operands |
| Division.Divide | Demo/agreement/miracl/mrarth2.c:290-628 | truncated division for all lengths, signs and permitted aliasings; y comes back unchanged; every error case exactly, with both operands left positive after an overflow and everything untouched after the others |
| MontgomeryReduction.DelayedCarry | Demo/agreement/miracl/mrmonty.c:538-542 | of the two additions into the word above a row at most one overflows, so one delayed carry bit is enough |
| MontgomeryReduction.RowClears | Demo/agreement/miracl/mrmonty.c:523-536 | the multiplier ndash * w makes the lowest word of the row zero |
| MontgomeryReduction.RedcRows | Demo/agreement/miracl/mrmonty.c:306-591 | the rows add a multiple of the modulus that clears the low half exactly |
| MontgomeryReduction.Redc | Demo/agreement/miracl/mrmonty.c:266-597 | for x < n*B^rn the result is below n and y*B^rn = x mod n |
| Montgomery.OddIsUnit | Demo/agreement/miracl/mrmonty.c:187-197 | a word has an inverse modulo the base exactly when it is odd |
| Montgomery.Ndash | Demo/agreement/miracl/mrmonty.c:187-204 | ndash * n0 = -1 mod B, or failure exactly for even n0 |
| Montgomery.PrepareMonty | Demo/agreement/miracl/mrmonty.c:52-231 | succeeds exactly for odd n above 2, and then modulus, ndash and one fit together; an already prepared modulus is kept; a modulus that is too small changes nothing, an even one leaves the old modulus and a one that is 1 |
| Montgomery.StaleOne | Demo/agreement/miracl/mrmonty.c:69-197 | after a refused even modulus the old one is set up again with a wrong one, unless B^len is 1 modulo it |
| Montgomery.OneIsWrongForSeven | Demo/agreement/miracl/mrmonty.c:69-197 | a modulus for which it is wrong |
| Montgomery.Nres | Demo/agreement/miracl/mrmonty.c:233-264 | y = x * B^rn mod n for x of either sign |
| Montgomery.RedcOfNres | Demo/agreement/miracl/mrmonty.c:233-597 | redc(nres(x)) = x mod n for every x |
| Montgomery.ModmultOfNres | Demo/agreement/miracl/mrmonty.c:1161-1224 | nres_modmult(nres x, nres y) = nres(x * y) |
| Residues.ModMult | Demo/agreement/miracl/mrmonty.c:1161-1224 | the product of n-residues, for all aliasings and zero shortcuts |
| Residues.ModAdd | Demo/agreement/miracl/mrmonty.c:991-1019 | the sum modulo n, for all aliasings |
| Residues.ModSub | Demo/agreement/miracl/mrmonty.c:1021-1056 | the difference modulo n, for all aliasings |
| Residues.RingIsValid | Demo/agreement/miracl/mrmonty.c:187-231 | a prepared context makes the radix invertible, and one is the residue of 1 |
| ResidueLaws.ThereAndBack | Demo/agreement/miracl/mrmonty.c:233-597 | on big numbers: nres followed by redc gives x mod n for every x, overflow exactly by length |
| ResidueLaws.MultiplyThroughResidues | Demo/agreement/miracl/mrmonty.c:233-264 | on big numbers: both factors converted, nres_modmult, and redc give x * y mod n |
| Gcds.StepsKeepBezout | Demo/agreement/miracl/mrxgcd.c:103-328 | any number of Euclid steps keeps the gcd, the congruences of both remainders and the size of the cofactors |
| LehmerGcd.Qdiv | Demo/agreement/miracl/mrxgcd.c:22-50 | the quotient, or 0 when it does not fit, also when u has wrapped around once |
| LehmerGcd.AcceptedIsExact | Demo/agreement/miracl/mrxgcd.c:239-266 | a quotient on which both bounds agree is the true quotient of the full-length remainders |
| LehmerGcd.Simulate | Demo/agreement/miracl/mrxgcd.c:233-296 | one batch on the leading parts stands for k exact Euclid steps, k even exactly when dplus |
| LehmerGcd.LeadingParts | Demo/agreement/miracl/mrxgcd.c:159-192 | u and v are the floors of both remainders divided by one common scale |
| LehmerGcd.Reduce | Demo/agreement/miracl/mrxgcd.c:103-299 | the whole loop terminates and is a chain of exact Euclid steps ending in zero |
| LehmerGcd.Xgcd | Demo/agreement/miracl/mrxgcd.c:67-315 | the gcd, 0 <= xd <= y with x*xd congruent to it, and z = x*xd + y*yd, for every x and y; a division error exactly for y = 0 with separate cofactors |
| LehmerGcd.Invmodp | Demo/agreement/miracl/mrxgcd.c:317-328 | a true inverse when the gcd is 1 |
| BigGcd.ReduceInto | Demo/agreement/miracl/mrxgcd.c:103-299 | on the workspace of big numbers: the loop computes the same chain of Euclid steps, and no operation in it runs out of words |
| BigGcd.XgcdInto | Demo/agreement/miracl/mrxgcd.c:67-315 | on big numbers: the gcd and 0 <= xd <= y with x*xd congruent to it, for all signs, aliasings and lengths below nib, without any error |
| BigGcd.InvmodpInto | Demo/agreement/miracl/mrxgcd.c:317-328 | on big numbers: a true inverse exactly when 1 is returned |
| MultiInverse.ModDiv | Demo/agreement/miracl/mrmonty.c:1058-1087 | w times y is x when y has an inverse, silently 0 when it has none, an error for the same operand twice |
| MultiInverse.GcdOfChain | Demo/agreement/miracl/mrmonty.c:1292-1306 | the double redc does not change the gcd with the modulus: it is that of the plain product of the elements |
| MultiInverse.MultiInverse | Demo/agreement/miracl/mrmonty.c:1263-1326 | for every m all w[i]*x[i] are the same residue, that of the gcd of the product and the modulus; failure exactly for a zero product |
| MultiInverse.OneExactlyWhenCoprime | Demo/agreement/miracl/mrmonty.c:1263-1326 | that common residue is the Montgomery one exactly when the product is coprime to the modulus |
| Field.TimesStands | Demo/agreement/miracl/mrmonty.c:1161-1224 | n-residues multiply as the numbers they stand for |
| Field.Premult | Demo/agreement/miracl/mrmonty.c:1089-1159 | multiplication by any small integer, through the ladders of additions up to 6 and the sign |
| Field.Half | Demo/agreement/miracl/mrmonty.c:876-890 | halving: the one residue whose double is x, for an odd modulus |
| Curves.Norm | Demo/agreement/miracl/mrcurve.c:157-196 | the point is the same and its coordinates are the affine ones |
| Curves.SlopeNumerator | Demo/agreement/miracl/mrcurve.c:301-343 | the branches a = -3, a small, a = 0 and general a all give 3x^2 + a scaled by z^4 |
| Curves.Double | Demo/agreement/miracl/mrcurve.c:240-401 | in both coordinate systems the denoted point is doubled by the tangent, also at infinity and for y = 0, where X and Y become one and Z stays |
| Curves.Padd | Demo/agreement/miracl/mrcurve.c:403-526 | the chord sum for all four mixes of markers and in affine form; false exactly when both denote the same point; at infinity X and Y become one and Z stays |
| Curves.AddPoint | Demo/agreement/miracl/mrcurve.c:541-580 | the sum of the group law whatever the coordinates, at infinity, and for p and pa the same object |
| Curves.SubPoint | Demo/agreement/miracl/mrcurve.c:595-623 | the difference of the group law, for p and pa the same object too; p comes back as it was |
| Curves.SumsAgree | Demo/agreement/miracl/mrcurve.c:403-526 | projective addition followed by normalisation gives word for word what the affine branch gives |
| CurveBatches.MultiNorm | Demo/agreement/miracl/mrcurve.c:198-238 | finite points are kept and normalised with one inversion; it succeeds and keeps all points exactly when none is at infinity, and fails exactly when one has Z = 0 to divide by |
| CurveBatches.RawSums | Demo/agreement/miracl/mrcurve.c:801-870 | the chords through leftover coordinates are right exactly when both points are finite, or by an accident that takes a point of order two |
| CurveBatches.AddSub | Demo/agreement/miracl/mrcurve.c:801-870 | P + Q and P - Q with one inversion, each right exactly when RightSums holds: equal X, or both finite, or by accident; refuses projective operands |
| CurveLaw.PlusIsOnCurve | Demo/agreement/miracl/mrcurve.c:240-526 | sums of points of the curve are points of the curve |
| LucasLadder.AdditionLaw | Demo/agreement/miracl/mrlucas.c:56-72 | V_(m+n) + V_(m-n) = V_m V_n for the recurrence |
| LucasLadder.NresLucas | Demo/agreement/miracl/mrlucas.c:11-108 | for k the magnitude of r, v = V_k and vp = V_(k-1) as residues, for every r; vp = 0 for r = 0 |
| JointSparseForm.OneOfThree | Demo/agreement/miracl/mrarth1.c:694-710 | from any state one of the next three columns has two zero digits |
| JointSparseForm.HalfStep | Demo/agreement/miracl/mrarth1.c:694-735 | halving with the carry subtracts exactly the digit chosen |
| JointSparseForm.NeighbourDigits | Demo/agreement/miracl/mrarth1.c:697-710 | two digits of one scalar in a row that are not zero are equal, and the other scalar has a zero and then a digit there |
| JointSparseForm.FormIsUnique | Demo/agreement/miracl/mrarth1.c:670-748 | the numbers and the conditions of the joint sparse form determine every bit, so mr_jsf has only one answer |
| JointSparseForm.Jsf | Demo/agreement/miracl/mrarth1.c:670-748 | k0 = u0p - u0m and k1 = u1p - u1m in Solinas's joint sparse form: disjoint bits, one zero column among any three, neighbouring digits of a row never 1 and -1, and two neighbouring digits of a row only beside a zero and then a digit of the other row; termination; the digits are those of the pair of scalars |
| ScalarMultiplication.AboveOne | Demo/agreement/miracl/mrcore.c:1766-1780 | the digits of 3x - x without the lowest are worth x |
| ScalarMultiplication.NafWindow | Demo/agreement/miracl/mrcore.c:1766-1821 | 0 or an odd window that fits the table, worth exactly the digits consumed, never reading past position 1; an odd x that fits the table is one window |
| ScalarMultiplication.OddMultiples | Demo/agreement/miracl/mrcurve.c:698-717 | the table holds p, 3p, ..., 15p as points; for p at infinity all are at infinity without a Z |
| ScalarMultiplication.NormalTable | Demo/agreement/miracl/mrcurve.c:698-720 | normalised it still does, and without error, when none of them is at infinity or the coordinates are affine |
| ScalarMultiplication.EcurveMult | Demo/agreement/miracl/mrcurve.c:625-748 | e * pa for every integer e in any abelian group of points, in affine coordinates or when no odd multiple up to 15 is zero; without that, wrong for the e in the table whose multiple is zero; an error for pa at infinity |
| ScalarMultiplication.JointLoop | Demo/agreement/miracl/mrcurve.c:938-978 | the double-and-add loop computes the sum of both multiples from the signed bits, when the precomputed sums are right or not used |
| ScalarMultiplication.EcurveMult2 | Demo/agreement/miracl/mrcurve.c:872-978 | e * p + ea * pa in any abelian group of points when the precomputed sums are right or no column has two digits; for scalars of 1 and -1 exactly when they are right; for e = 0 as ecurve_mult |
| CurveExamples.FivePoints | Demo/agreement/miracl/mrcurve.c:240-526 | five points of a curve modulo 7 are a group under the chord and tangent law |
| CurveExamples.FiveTimes | Demo/agreement/miracl/mrcurve.c:719-748 | five times a point of order five is an error or not infinity |
| CurveExamples.TwiceInfinity | Demo/agreement/miracl/mrcurve.c:719-748 | twice the point at infinity is an error |
| CurveExamples.InfinityAndPoint | Demo/agreement/miracl/mrcurve.c:923-925 | ecurve_mult2 of infinity and a point with e = ea = 1 is not that point |
| Mpi.CMpi.AssignD | Demo/agreement/mpi.c:9-21 | the number n, with no words for 0 |
| Mpi.Add | Demo/agreement/mpi.c:60-109 | for operands of the same sign sum plus carry * B^8 is exact, aliasing included; the carry appears only with all words in use |
| Mpi.LargerThanAbs | Demo/agreement/mpi.c:199-231 | true exactly for the greater magnitude, leading zero words or not |
| Mpi.EqualsTo | Demo/agreement/mpi.c:233-262 | true exactly for equal magnitudes |
| Mpi.EqualsToD | Demo/agreement/mpi.c:428-443 | equality with a one-word number, provided there is a word to compare or it is 0 |
| Mpi.LargerThan | Demo/agreement/mpi.c:1294-1330 | true for a positive a and a negative b, and for the greater magnitude when the signs are equal |
| Mpi.ComparesTo | Demo/agreement/mpi.c:1332-1339 | the sign of a - b exactly when the numbers are not different negative ones and not opposites |
| Mpi.Substract | Demo/agreement/mpi.c:133-197 | for operands of the same sign the difference of the words read, without leading zero words, in place in either direction; it is a - b exactly when the unused words read are zero |
| Mpi.AddSigned | Demo/agreement/mpi.c:35-109 | a + b for all signs, exactly when the words read above the greater number are zero |
| Mpi.SubstractSigned | Demo/agreement/mpi.c:133-197 | a - b for all signs, exactly when the words read above the greater number are zero |
| MpiProduct.ColumnsAreProduct | Demo/agreement/mpi.c:357-389 | the sum of the columns of two numbers is their product, for all lengths |
| MpiProduct.SquareColumn | Demo/agreement/mpi.c:1082-1115 | one column of product scanning with each outer pair counted twice, exact in a three-word accumulator |
| MpiProduct.FastSquare | Demo/agreement/mpi.c:1067-1142 | the exact square of any number with at least one word |
| MpiProduct.AddAt | Demo/agreement/mpi.c:361-386 | a product is added with its carry rippling as far as it goes and no further than the sixteen words |
| MpiProduct.Multiply | Demo/agreement/mpi.c:332-419 | the exact product and its sign, also when the result overwrites a factor |
| Sm2Point.WordShiftLeft | Demo/agreement/mpi.c:863-921 | multiplication by B^n of which sixteen words are kept |
| Sm2Point.Addi | Demo/agreement/mpi.c:702-741 | the sum modulo sixteen words, with the carry moved from l to h |
| Sm2Point.AddLong | Demo/agreement/mpi.c:660-700 | the sum of two long numbers modulo sixteen words, with h no longer than its value needs |
| Sm2Point.FoldedAt | Demo/agreement/mpi.c:472-480 | the number built for word v at position i is v * B^i * (2^256 - p) |
| Sm2Point.FoldOnce | Demo/agreement/mpi.c:470-486 | one pass of the inner loop lowers the value by h[i] * B^i * p, and h grows no longer |
| Sm2Point.FastReduction | Demo/agreement/mpi.c:459-501 | the residue modulo the SM2 prime of every number of sixteen words, with its sign, with termination and a single last subtraction |
| Sm2Point.Constants | Demo/agreement/sm2.c:15-47 | the words of g_p are 2^256 - 2^224 - 2^96 + 2^64 - 1 and those of g_a three less |
| Sm2Point.BasePoint | Demo/agreement/sm2.c:155-163 | the base point of the standard curve satisfies y^2 = x^3 - 3x + b modulo the prime with b in g_b |
| Sm2Point.OnlyCoefficientB | Demo/agreement/sm2.c:49-64 | no other coefficient below the prime has the base point on its curve |
| Sm2Point.CheckPoint | Demo/agreement/sm2.c:1539-1559 | true exactly for x, y not negative and below p with y^2 = x^3 + ax + b mod p |
| AesColumns.MulXor | Demo/mbedtls-2.18/library/aes.c:394-395 | multiplication by the constants of the tables is linear over xor |
| AesColumns.UnmixMix | Demo/mbedtls-2.18/library/aes.c:449-469 | InvMixColumns undoes MixColumns on every column |
| AesColumns.UnmixXor | Demo/mbedtls-2.18/library/aes.c:707-716 | InvMixColumns is linear over xor |
| Aes.ForwardTables | Demo/mbedtls-2.18/library/aes.c:449-461 | the four forward tables together are SubBytes and MixColumns |
| Aes.ReverseTables | Demo/mbedtls-2.18/library/aes.c:464-475 | the four reverse tables together are InvSubBytes and InvMixColumns |
| Aes.InvRoundsFollow | Demo/mbedtls-2.18/library/aes.c:945-1009 | every round of the inverse cipher stands at the matching point of the cipher, backwards |
| Aes.DecryptedEncrypted | Demo/mbedtls-2.18/library/aes.c:865-1009 | decryption with the inverse schedule undoes encryption for any number of rounds |
| AesField.TimesTwo | Demo/mbedtls-2.18/library/aes.c:394 | XTIME is multiplication by 2 modulo x^8 + x^4 + x^3 + x + 1 |
| AesField.TimesFourteen | Demo/mbedtls-2.18/library/aes.c:466 | the first multiplier of the reverse tables is multiplication by 14 in the field, and so for the other multipliers |
| AesBytes.SubShiftBytes | Demo/mbedtls-2.18/library/aes.c:813-929 | the columns picked by AES_FROUND are SubBytes and ShiftRows on the sixteen bytes, rows to the left |
| AesBytes.UnsubShiftBytes | Demo/mbedtls-2.18/library/aes.c:837-929 | the columns picked by AES_RROUND are InvSubBytes and InvShiftRows, rows to the right |
| AesBytes.MixAllBytes | Demo/mbedtls-2.18/library/aes.c:449-461 | a mixed column is the product with 2, 3, 1, 1 |
| AesBytes.UnmixAllBytes | Demo/mbedtls-2.18/library/aes.c:464-475 | an unmixed column is the product with 14, 11, 13, 9 |
| AesBytes.EncryptedBytes | Demo/mbedtls-2.18/library/aes.c:865-929 | the cipher on words of columns is the cipher of FIPS 197 on bytes, for any number of rounds |
| AesBytes.DecryptedBytes | Demo/mbedtls-2.18/library/aes.c:945-1009 | the inverse cipher on words of columns is the equivalent inverse cipher of FIPS 197 on bytes |
| AesBytes.EquivalentInverse | Demo/mbedtls-2.18/library/aes.c:667-732 | under the decryption schedule it is the inverse cipher of section 5.3 under the encryption schedule |
| AesBlock.EncryptBlock | Demo/mbedtls-2.18/library/aes.c:865-929 | the table driven loop computes the cipher of section 5.1 of FIPS 197 on the bytes of the block and of the schedule |
| AesBlock.DecryptBlock | Demo/mbedtls-2.18/library/aes.c:945-1009 | the table driven loop computes the equivalent inverse cipher of section 5.3.5 of FIPS 197 on the bytes of the block and of the schedule |
| AesBlock.BlockRoundTrip | Demo/mbedtls-2.18/library/aes.c:865-1009 | on the bytes of a block decryption undoes encryption |
| AesKeys.SetkeyEnc | Demo/mbedtls-2.18/library/aes.c:551-653 | the three unrolled loops compute the one key expansion of section 5.2 of FIPS 197, on the bytes of key and schedule; other key sizes are refused |
| AesKeys.ExpandedBytes | Demo/mbedtls-2.18/library/aes.c:589-650 | every word of the expansion is that of FIPS 197 on bytes, for all key sizes |
| AesKeys.GroupStarts | Demo/mbedtls-2.18/library/aes.c:599-640 | the first word of a group, without the one before and the rotated and substituted last word, is 1, 2, 4, ..., 0x80, 0x1B, 0x36 for the groups in order |
| AesKeys.SetkeyDec | Demo/mbedtls-2.18/library/aes.c:667-732 | the schedule is the encryption schedule backwards with its inner keys through InvMixColumns |
| AesKeys.CryptRoundTrip | Demo/mbedtls-2.18/library/aes.c:551-1009 | for every key, key size and block: what setkey_enc and encrypt give is the cipher of FIPS 197 under the expanded key, what setkey_dec and decrypt give is its inverse cipher, and the block is back |
| AesField.PowerSum | Demo/mbedtls-2.18/library/aes.c:408-413 | the entries of the power table multiply by adding their exponents |
| AesField.NoShortPeriod | Demo/mbedtls-2.18/library/aes.c:408-413 | 3 has order 255 in the field |
| AesField.EveryByte | Demo/mbedtls-2.18/library/aes.c:408-413 | every byte that is not zero is one of the first 255 powers of 3 |
| AesTables.PowLog | Demo/mbedtls-2.18/library/aes.c:401-413 | the loop leaves the powers of 3 and a logarithm from 1 to 255 of every byte that is not zero |
| AesTables.Mul | Demo/mbedtls-2.18/library/aes.c:395 | multiplication by logarithms is the product in the field, for all factors |
| AesTables.GenBoxes | Demo/mbedtls-2.18/library/aes.c:427-442 | the boxes are the affine image of the inverse in the field and the inverse of that |
| AesTables.SboxIsUnique | Demo/mbedtls-2.18/library/aes.c:427-442 | the description determines the S-box |
| AesTables.Tables.Generate | Demo/mbedtls-2.18/library/aes.c:399-477 | aes_gen_tables leaves the S-box of FIPS 197 and its inverse, the powers of x, and in the eight big tables the entries the rounds use |
| Xts.MulXIsShift | Demo/mbedtls-2.18/library/aes.c:1172-1184 | the two 64-bit halves are a 128-bit shift with 0x87 folded in when a bit falls out |
| Xts.MulXBytes | Demo/mbedtls-2.18/library/aes.c:1172-1186 | on bytes: each is shifted and takes the top bit of the one before; byte 0 takes 0x87 when the top bit of byte 15 is set |
| Xts.TweakBytes | Demo/mbedtls-2.18/library/aes.c:1236-1247 | the tweak of the first block is the one given, and every next one is that multiplication, byte by byte |
| Xts.UnitRoundTrip | Demo/mbedtls-2.18/library/aes.c:1190-1294 | XTS decryption undoes encryption for every length from one block, ciphertext stealing included, over any block permutation |
| Xts.CryptXts | Demo/mbedtls-2.18/library/aes.c:1190-1294 | the buffer loop computes XTS with the last two tweaks exchanged for decryption, also in place when nothing is left over; with leftover bytes in place, what InPlace says; lengths outside 16 to 2^24 bytes are refused untouched |
| Xts.InPlaceIsRight | Demo/mbedtls-2.18/library/aes.c:1255-1289 | in place the result is XTS exactly when the remainder equals the bytes it is overwritten with |
| Xts.RemainderIsLost | Demo/mbedtls-2.18/library/aes.c:1255-1289 | in place the remainder of the input makes no difference to the output |
| Xts.InPlaceFails | Demo/mbedtls-2.18/library/aes.c:1255-1289 | an input for which it is wrong |
| Xts.AesXtsRoundTrip | Demo/mbedtls-2.18/library/aes.c:760-806 | the same with AES under the two schedules of one key |
| MqttTopics.PlacedIsValid | Demo/CLinkSDKQuickStarDemo/core/aiot_mqtt_api.c:311-326 | the test of neighbouring characters is the validity of the levels |
| MqttTopics.TopicIsValid | Demo/CLinkSDKQuickStarDemo/core/aiot_mqtt_api.c:303-330 | accepts exactly filters with a leading slash and wildcards alone in their levels, '#' only last |
| MqttTopics.TopicCompare | Demo/CLinkSDKQuickStarDemo/core/aiot_mqtt_api.c:1869-1915 | for valid filters and all topics the loop succeeds exactly when the levels match and the exception does not apply |
| MqttTopics.CompareIsMatching | Demo/CLinkSDKQuickStarDemo/core/aiot_mqtt_api.c:1869-1915 | the same as a fact about the loop's state, and without exception for topics that do not end in a slash |
| MqttTopics.TrailingSlashIsMissed | Demo/CLinkSDKQuickStarDemo/core/aiot_mqtt_api.c:1875-1882 | a concrete filter and topic of the exception |
| Sm3.Sm3Ctx.Update | Demo/agreement/sm3.c:119-149 | the context goes on standing for the message it was fed, for any chunk and any fill of the buffer |
| Sm3.Final | Demo/agreement/sm3.c:151-205 | the hash, with the padding of section 5.2 of GB/T 32905-2016, of everything absorbed |
| Sm3.OneShot | Demo/agreement/sm3.c:207-279 | the hash of a message given at once |
| Sm3.HashChunks | Demo/agreement/sm3.c:103-279 | any way of cutting a message below 2^32 bytes into chunks gives the hash of the one-shot call |
| Sm3.PaddingIsUnique | Demo/agreement/sm3.c:168-196 | the padding is the mark, zeros to the end of a block and the length in bits in eight bytes, and nothing else is |
| Sm3.HashWrittenOut | Demo/agreement/sm3.c:103-205 | bytes 4j to 4j + 3 of the hash are word j, most significant byte first, of the state after the padded message from the eight initial words |

## Left out

- SM2 signing, encryption, decryption, key agreement and key derivation: glue over the arithmetic, and randomness.
- Inline assembly, `MR_STATIC`, floating point and flash numbers, bases other than 2^32, error tracing, memory layout and string input and output.
- `pR`, `MONTY` switched off, the small quadratic non-residue and the lazy reduction routines of `mrmonty.c`.
- Memory of the higher MIRACL routines: workspace numbers of `nres_multi_inverse`, the curve formulas, the recodings and the scalar loops are integers there, so the overlap of workspace numbers is not modelled for them.
- BigGcd.XgcdInto: does not model the last step for separate cofactors, whose sum has more words than the workspace number it is added to; `LehmerGcd.Xgcd` has it on integers.
- MultiInverse.MultiInverse: does not model an x[i] and a w[j] that are the same big number, because the elements are integers; only the two arrays may coincide, which the code refuses.
- Curves.Padd: the branch for a divisor with no inverse cannot be reached with a prime modulus and has no counterpart.
- Associativity of the curve's addition: the scalar loops are about points that form an abelian group, `CurveExamples.FivePoints` being one.
- ScalarMultiplication.EcurveMult: when an odd multiple up to 15 is infinity, nothing is said about scalars whose multiple is not; some of them come out right.
- ScalarMultiplication.EcurveMult2: when the precomputed sums are wrong and used, it is shown to fail for scalars of 1 and -1 only; wrong sums may cancel for other scalars.
- Division.Divide: y and z must not be the workspace w0, as the code assumes.
- `isqrt`, `nroot`, `jack`, random numbers, the binary form of `xgcd` and the comb and exponentiation routines.
- General reduction and negative long numbers in `mpi.c`: `CMpl_Reduction` for other moduli, `CMpi_BinaryInverse2` and `CMpl_Substract` read words past the length and rely on a comparison that takes absolute values of negative numbers.
- Sm2Point.Addi: does not model operands of different or negative sign, which the point check never has.
- Sm2Point.AddLong: does not model operands of different or negative sign, which the point check never has.
- MpiProduct.FastSquare: a number with no words is excluded, because the code then stores before its array.
- AES-NI, Padlock, the tables in ROM and the smaller set of tables, and the modes other than ECB and XTS.
- AesBlock.EncryptBlock: the big tables are functions of the S-boxes there; that the arrays hold their values is `AesTables.Tables.Generate`.
- Xts.CryptXts: input and output are the same buffer or different ones; buffers that overlap in part are not modelled.
- The SM3 compression function; byte stores assume a little-endian processor, as the code does.
- MQTT and HTTP networking, handler lists, topic aliases, timers and logging.

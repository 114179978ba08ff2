# Big-number arithmetic of mbed TLS, verified

This project models the multi-precision integer arithmetic that mbed TLS builds its public-key
code on, from the multiply-accumulate kernels of one limb up to modular exponentiation, and proves
that every layer computes the number it is meant to compute. Two size formulas that go with it,
the text buffer of a number and the largest ECDSA signature, are proved against the code that
fills those buffers.

The layers, each resting on the contracts of the one below:

- `Powers`, `Limbs`, `Numerals`, `Residues`, `Machine`: powers, vectors of limbs and their values,
  digits of a number, congruence, and registers with carry flags. The radix is a parameter B
  throughout, and H its square root, the radix of a half word.
- `MulAdd`: the one specification of all kernels, `E + c' * B^n = D + b * S + c` over whole vectors.
- `CKernels`, `WordKernels`, `HalfWordKernels`, `PowerPc`, `Sse2`, `M68kHuit`: the kernels, register
  by register; `Kernels` is the preprocessor's choice among them; `Overlap` says when source and
  destination may share an array.
- `MulHelper`, `Mpi`: the vector step in blocks of 16, 8 and 1 with its carry ripple, and numbers as
  objects whose limbs are changed in place, up to X = A * B with aliased operands.
- `WordDivision`, `Division`, `DivisionObjects`, `SmallModulus`: division by a word and by a number,
  into results that may be operands, and remainders.
- `Montgomery`, `ExpMod`, `VanishingPowers`: Montgomery multiplication, sliding-window
  exponentiation, and when a power is a multiple of the modulus.
- `Gcd`, `InvMod`: greatest common divisor and modular inverse.
- `Text`, `TextFile`: numbers as text and as lines of a file, and the buffer between them.
- `Der`, `Ecdsa`, `SignatureErrors`: DER integers and signatures, written from the end of a buffer,
  their size, what is read of them, and what is refused.

`dafny verify dfyconfig.toml` checks everything.

## Where the code and its documentation part

The model follows the code. The members named below prove under which condition the code delivers
what it promises, and what it does otherwise.

- `mbedtls_mpi_gcd(A, 0)` is 0 for every A that is not 0, instead of |A| (`Gcd.BinaryGcd`).
- `mbedtls_mpi_exp_mod` on a negative A, an odd E and an N that divides |A|^E gives N, not 0, as on
  (-3)^1 modulo 3 (`ExpMod.MinusThree`). Every other result is reduced, and every result is congruent
  to A^E. Whether N divides |A|^E shows before the call: E may be capped by the bits of N
  (`VanishingPowers.CappedPower`), and an A prime to N or a multiple of N decides it at once
  (`ExpMod.DeliveredCases`).
- A number fresh from `mbedtls_mpi_init` has no limbs. `mbedtls_mpi_exp_mod` with such a base, unless
  X is the base, and `mbedtls_mpi_write_string` of such a number in radix 2, which takes a remainder
  by 2, read the lowest limb all the same (`ExpMod.ExpMod`, `Text.WriteString`, `SmallModulus.ModInt`).
- `mbedtls_mpi_exp_mod` may write its result into A. Written into E it overwrites the exponent before
  reading its bits: where N divides B^n - 1 the result is then A mod N whatever E was
  (`ExpMod.OwnExponent`). Written into N it enlarges N by a limb after sizing the scratch for it.
- `mbedtls_mpi_div_mpi` with the quotient written into an operand loses that operand's sign, or the
  dividend itself when it is the smaller; `DivisionObjects.DivisionKept` lists exactly the calls after
  which A = Q * B + R. The remainder may be any operand.
- `mbedtls_mpi_mod_mpi` with the remainder written into the divisor compares it with itself and does
  not end, or ends in an error (`DivisionObjects.ModMpi`).
- `mbedtls_mpi_mod_int` drops bits of the running remainder when the divisor needs more than half a
  word. It is the remainder for every number exactly for divisors of at most H and for divisors of
  B; for any other, the number B itself comes out as 0 (`SmallModulus.ModIntDomain`).
- `mbedtls_mpi_write_file` hands its buffer to `mbedtls_mpi_write_string`, which insists on half a
  character for every bit in radix 10 to 15. From seven bytes up, some number that MBEDTLS_MPI_MAX_BITS
  admits is refused although its text fits the buffer (`TextFile.DecimalIsWritten`).
- `mbedtls_mpi_read_file` starts at the last run of digits of the line, so a minus sign written by
  `mbedtls_mpi_write_file` is lost, and digits at the end of the label join the number
  (`TextFile.FileRoundTrip`).
- `mbedtls_asn1_write_mpi` looks for the sign bit in the byte after the number when the number is
  zero, and leaves the sign of a negative one out. It is right for a positive number, for a zero
  followed by a byte from 0x80 up, and for the negative of half a byte range (`Der.WrittenRight`).
- `mbedtls_ecdsa_read_signature` reads more strings than are ever written: lengths and contents that
  are not in shortest form, and negative numbers as positive ones. The strings that are written are
  exactly those in shortest form (`Ecdsa.CanonicalIsWritten`, `Ecdsa.SignBitIgnored`).
- The comment on MBEDTLS_ECDSA_MAX_LEN asks for fewer than 124 bytes, the guard for at most 124. The
  guard is right, and no larger number of whole bytes would be (`Ecdsa.GuardIsExact`).
- The 68020 eight-limb block is eight single steps exactly when it is entered with the extend flag
  clear, which nothing in the macro establishes (`M68kHuit.Huit`).

## Model

| member | source | states |
|---|---|---|
| MulAdd.MulAddedUnique | pub/inc/mbedtls/bn_mul.h:25-26 | the vector equation with a carry below B determines every limb and the carry, so any two kernels that satisfy it agree on every run |
| MulAdd.MulAddedConcat | pub/inc/mbedtls/bn_mul.h:171-191 | stopping after n limbs and resuming for m more is one run of n + m limbs |
| MulAdd.RunFits | pub/inc/mbedtls/bn_mul.h:25-26 | no input makes a run's total need more than n + 1 limbs |
| CKernels.DoubleWidth | pub/inc/mbedtls/bn_mul.h:849-863 | stored limb and carry are the two words of s * b + x + c; both comparison carries are exact |
| CKernels.HalfWord | pub/inc/mbedtls/bn_mul.h:866-888 | the same two words from four half-word products, for every even limb width |
| CKernels.PartialProducts | pub/inc/mbedtls/bn_mul.h:873-880 | no half-word product wraps, both high halves fit the top word, and the parts reassemble the full product |
| WordKernels.I386 | pub/inc/mbedtls/bn_mul.h:69-77 | two add/adc pairs give the two words of s * b + x + c |
| WordKernels.Amd64 | pub/inc/mbedtls/bn_mul.h:175-185 | the same with the carry gathered over a register cleared from the zero in r8 |
| WordKernels.M68020 | pub/inc/mbedtls/bn_mul.h:205-212 | the same with add and addx over a zero register |
| WordKernels.Arm | pub/inc/mbedtls/bn_mul.h:649-656 | the same with umlal accumulating the carry over a zeroed high word |
| WordKernels.TriCore | pub/inc/mbedtls/bn_mul.h:547-554 | the same with madd.u over a pair whose high word stays zero |
| WordKernels.Alpha | pub/inc/mbedtls/bn_mul.h:681-694 | the same with both carries recovered by cmpult and added at the end without wrapping |
| WordKernels.Mips | pub/inc/mbedtls/bn_mul.h:715-729 | the same with sltu comparing against the other operands |
| HalfWordKernels.MicroBlaze | pub/inc/mbedtls/bn_mul.h:498-523 | the same from half words, destination limb before carry, no carry lost in an intermediate high word |
| HalfWordKernels.Thumb | pub/inc/mbedtls/bn_mul.h:599-628 | the same from half words, carry before destination limb |
| PowerPc.Core | pub/inc/mbedtls/bn_mul.h:282-290 | register carry plus pending bit is the eager carry, before and after every limb, and addze never overflows |
| PowerPc.Burst | pub/inc/mbedtls/bn_mul.h:272-302 | a whole lazy run, with the bit cleared at the start and folded in at the stop, is the eager run on the array |
| Sse2.Load | pub/inc/mbedtls/bn_mul.h:81-100 | the first four sums of the pipelined block, none wrapping |
| Sse2.TwoStored | pub/inc/mbedtls/bn_mul.h:81-113 | two limbs are stored and the other six in flight; each source limb is multiplied as it is loaded, some of them after a store that may have changed it |
| Sse2.Front | pub/inc/mbedtls/bn_mul.h:81-123 | the same up to the fourth store, with limbs four and five holding their destination limbs |
| Sse2.Back | pub/inc/mbedtls/bn_mul.h:124-142 | the limbs in flight complete the run |
| Sse2.Block | pub/inc/mbedtls/bn_mul.h:81-142 | wherever source and destination lie, the block is a run over the source limbs as they were loaded; no paddq wraps |
| Sse2.Huit | pub/inc/mbedtls/bn_mul.h:81-142 | that is eight single steps on every input, also with source and destination in one array when the writes trail |
| M68kHuit.Beat | pub/inc/mbedtls/bn_mul.h:223-264 | one limb with a deferred carry: register plus flag may reach B and still nothing is lost |
| M68kHuit.Beats | pub/inc/mbedtls/bn_mul.h:223-264 | eight limbs with d3 and d4 alternating accumulate c plus the flag on entry |
| M68kHuit.Huit | pub/inc/mbedtls/bn_mul.h:223-264 | the block equals eight single steps if and only if the extend flag is clear on entry, and then leaves it clear |
| Kernels.Core | pub/inc/mbedtls/bn_mul.h:25-26 | one step of any eager kernel changes one limb of the array, as specified, and moves both cursors by one |
| Kernels.Burst | pub/inc/mbedtls/bn_mul.h:849-863 | n steps of any kernel: the vector equation, nothing outside the n limbs changed, cursors moved by n |
| Kernels.Huit | pub/inc/mbedtls/bn_mul.h:81-155 | either eight-limb block meets the specification of eight single steps; the 68020 one needs the extend flag clear and hands it on clear |
| Overlap.Run | pub/inc/mbedtls/bn_mul.h:854-860 | over one shared array every eager kernel computes the same limb-by-limb recurrence, overlap or not |
| Overlap.TrailingWrites | pub/inc/mbedtls/bn_mul.h:854-860 | with d at or below s, or past the source, the recurrence is the run on a copy of the source |
| Overlap.SafeOverlap | pub/inc/mbedtls/bn_mul.h:854-860 | those positions are exactly the ones at which every run is the run on a copy |
| Overlap.RunLazy | pub/inc/mbedtls/bn_mul.h:272-302 | the lazy kernel computes the recurrence too, at any overlap |
| Overlap.RunBeats | pub/inc/mbedtls/bn_mul.h:223-264 | so does the 68020 block, at any overlap |
| Overlap.RunBlock | pub/inc/mbedtls/bn_mul.h:81-142 | what the SSE2 block leaves in one array, and that it is the recurrence when the destination is not one to five limbs above the source |
| Overlap.BlockOnce | pub/inc/mbedtls/bn_mul.h:81-142 | that is one result, although some limbs are loaded after the block has stored to them |
| Overlap.BlockInPlace | pub/inc/mbedtls/bn_mul.h:81-142 | the SSE2 block is the recurrence for every array if and only if d <= s or d >= s + 6 |
| MulHelper.Blocks | src/mbedtls/library/bignum.c:1125-1172 | whatever mix of blocks of 16, 8 and 1 covers the i limbs, the result is one run of i limbs |
| MulHelper.Ripple | src/mbedtls/library/bignum.c:1174-1179 | the carry is added into the limbs above and stops inside the vector |
| MulHelper.MulHlp | src/mbedtls/library/bignum.c:1121-1180 | the value from d upwards grows by b times the source, the limbs below d stay |
| Mpi.Mpi.Grow | src/mbedtls/library/bignum.c:116-140 | more limbs, same number; refused exactly beyond the limb limit, then nothing changes |
| Mpi.Mpi.Set | src/mbedtls/library/bignum.c:298-310 | a number of one limb and its sign, in however many limbs there are, at least one |
| Mpi.Mpi.Copy | src/mbedtls/library/bignum.c:182-217 | same signed number in possibly other limbs, the object itself included; exact failure condition |
| Mpi.CmpAbs | src/mbedtls/library/bignum.c:820-845 | the sign of the difference of the magnitudes, whatever leading zeros either has |
| Mpi.Accumulate | src/mbedtls/library/bignum.c:1207-1208 | schoolbook multiplication: no carry leaves the top limb and the limbs are exactly the product |
| Mpi.MulMpi | src/mbedtls/library/bignum.c:1185-1217 | X = A * B with X being A, B or both; it fails exactly when the used limbs together exceed the limit |
| Montgomery.NewtonStep | src/mbedtls/library/bignum.c:1553-1554 | an inverse modulo M becomes an inverse modulo M squared |
| Montgomery.MontgInit | src/mbedtls/library/bignum.c:1545-1557 | the constant times the low limb is -1 modulo B, for every limb width 8, 16, 32, 64 and on |
| Montgomery.SubHlp | src/mbedtls/library/bignum.c:955-971 | the value drops by the subtrahend and the borrow never passes the end |
| Montgomery.Turn | src/mbedtls/library/bignum.c:1577-1589 | one turn is an exact division by B of T + u0 * B + u1 * N, and T stays below N plus the factor |
| Montgomery.Turns | src/mbedtls/library/bignum.c:1571-1589 | after n turns R * T = A * B + U * N for some U below R |
| Montgomery.Quotient | src/mbedtls/library/bignum.c:1591-1594 | with one conditional subtraction that is A * B / R modulo N, reduced when A * B < N * R |
| Montgomery.MontMul | src/mbedtls/library/bignum.c:1562-1600 | the Montgomery product on arrays, A aliased with B allowed, in scratch the caller gives; exact error condition |
| ExpMod.InverseOfR | src/mbedtls/library/bignum.c:1545-1557 | the constant witnesses that R is invertible modulo N |
| ExpMod.MulReg | src/mbedtls/library/bignum.c:1562-1600 | on registers in Montgomery form exponents add and results stay reduced |
| ExpMod.Table | src/mbedtls/library/bignum.c:1698-1721 | every window register i holds the form of a^i |
| ExpMod.Scan | src/mbedtls/library/bignum.c:1723-1785 | at every bit the exponent so far and the window together are the bits read; all bits are consumed; over a unit radix the register read as its own exponent shows a single one |
| ExpMod.Leftover | src/mbedtls/library/bignum.c:1790-1798 | the unfinished window is multiplied in bit by bit |
| ExpMod.MontRed | src/mbedtls/library/bignum.c:1605-1614 | multiplication by a one-limb one takes the form off |
| ExpMod.PowerModulo | src/mbedtls/library/bignum.c:1638-1803 | the result array holds a^E mod N, reduced, for every odd N and every window size; if it is the exponent array, a^Q for the bits it shows on the way |
| ExpMod.Flip | src/mbedtls/library/bignum.c:1805-1809 | the correction for a negative base is congruent, and reduced exactly when N does not divide the power |
| ExpMod.ExpMod | src/mbedtls/library/bignum.c:1619-1822 | on objects, X being A, E or neither: when the call is refused, when it is undefined, and that the result is congruent to A^E always and reduced if and only if not (A < 0, E odd, N divides the power), in terms of the capped power, unless X is E |
| ExpMod.OwnExponent | src/mbedtls/library/bignum.c:1695-1696 | with X being E and N dividing B^n - 1 the result is A mod N whatever E was, which is right if and only if A is congruent to A^E |
| ExpMod.OwnExponentFails | src/mbedtls/library/bignum.c:1695-1696 | 2^2 modulo 3 comes out as 2 |
| ExpMod.DeliveredIs | src/mbedtls/library/bignum.c:1805-1809 | what is delivered is one number: N in the one unreduced case, and otherwise A^E modulo N |
| ExpMod.MinusThree | src/mbedtls/library/bignum.c:1805-1809 | (-3)^1 modulo 3 comes out as 3 |
| ExpMod.DeliveredCases | src/mbedtls/library/bignum.c:1805-1809 | an odd power of a negative base is reduced when base and modulus are coprime and is N when N divides the base |
| VanishingPowers.EnoughFactors | src/mbedtls/library/bignum.c:1805-1809 | if any power of a is a multiple of w, the one with as many factors as w has bits is |
| VanishingPowers.CappedPower | src/mbedtls/library/bignum.c:1805-1809 | a^e vanishes modulo w if and only if the power with the exponent capped by the bits of w does |
| WordDivision.Clz | src/mbedtls/library/bignum.c:370-383 | the count is the shift that brings the top bit up and no bit out |
| WordDivision.Digit | src/mbedtls/library/bignum.c:1299-1308 | the corrected half-word estimate is the true digit, and nothing compared on the way leaves the word |
| WordDivision.Wide | src/mbedtls/library/bignum.c:1255-1272 | two words divided by one, or all ones when the quotient has no room |
| WordDivision.Generic | src/mbedtls/library/bignum.c:1275-1327 | normalisation, two half-word digits and unshifting give the same quotient and remainder |
| Division.Estimate | src/mbedtls/library/bignum.c:1392-1407 | an estimate lowered while two divisor limbs show it too large is the true digit or one more |
| Division.QuotientLimb | src/mbedtls/library/bignum.c:1384-1419 | after at most one add-back the digit is exact and the rest is below the divisor in place |
| Division.LongDivision | src/mbedtls/library/bignum.c:1371-1420 | X = Y * Z + rest, rest < Y, with every limb of Z in range |
| Division.DivMpi | src/mbedtls/library/bignum.c:1334-1444 | A = Q * B + R with the remainder smaller than B and signed like A; zero divisor refused |
| Division.ModMpi | src/mbedtls/library/bignum.c:1465-1483 | R is A modulo B in 0 .. B - 1; exact error conditions |
| DivisionObjects.DivMpi | src/mbedtls/library/bignum.c:1334-1444 | what is left in quotient and remainder objects, each of which may be missing, an operand, or both the same |
| DivisionObjects.DivisionKept | src/mbedtls/library/bignum.c:1346-1436 | A = Q * B + R holds afterwards if and only if the quotient object is no operand, or one of the listed operand cases applies |
| DivisionObjects.ModMpi | src/mbedtls/library/bignum.c:1465-1483 | A modulo B after at most one turn of the loops when R is not B; when R is B no number of turns ends them with success |
| SmallModulus.ModInt | src/mbedtls/library/bignum.c:1488-1540 | the loop is the half-limb fold of the number, with its error codes, and the remainder of the signed number for divisors of at most H or of B, for numbers below B, and while the running remainder stays below H; undefined exactly for the divisor 2 on a number without limbs |
| SmallModulus.HalfStep | src/mbedtls/library/bignum.c:1520-1522 | for any divisor a half step is the remainder of the low half of what there is, shifted, plus the new half |
| SmallModulus.FoldExact | src/mbedtls/library/bignum.c:1517-1528 | for divisors of at most H, or of B, the fold is the remainder |
| SmallModulus.LowExact | src/mbedtls/library/bignum.c:1517-1528 | for any divisor it is, while the running remainder stays below H |
| SmallModulus.RadixIsForgotten | src/mbedtls/library/bignum.c:1517-1528 | for any divisor above H the number B folds to 0 |
| SmallModulus.ModIntDomain | src/mbedtls/library/bignum.c:1488-1540 | the result is right for every number if and only if b <= H or b divides B |
| Gcd.Turn | src/mbedtls/library/bignum.c:1849-1864 | one turn keeps the greatest common divisor and shrinks the sum |
| Gcd.BinaryGcd | src/mbedtls/library/bignum.c:1827-1874 | the result divides both and is a combination of them if and only if B is not 0 or A is 0 |
| Gcd.BezoutIsGreatest | src/mbedtls/library/bignum.c:1827-1874 | such a number is divided by every common divisor |
| Gcd.BezoutUnique | src/mbedtls/library/bignum.c:1827-1874 | and there is only one |
| InvMod.HalfCoefficients | src/mbedtls/library/bignum.c:1938-1947 | after the correction both coefficients are even, and their halves express half the number |
| InvMod.Coefficients | src/mbedtls/library/bignum.c:1934-1977 | the loop ends, and the first coefficient of the one it leaves is an inverse |
| InvMod.InverseMeansCoprime | src/mbedtls/library/bignum.c:1916-1922 | a number with an inverse has greatest common divisor 1 with the modulus |
| InvMod.InvMod | src/mbedtls/library/bignum.c:1904-1994 | a reduced inverse, or NOT_ACCEPTABLE and no integer is an inverse, or BAD_INPUT exactly for moduli of at most one |
| Text.DigitValues | src/mbedtls/library/bignum.c:415-427 | the digit at each place of 0 to F, in either case, is worth its place, and is written in upper case |
| Text.DigitsAre | src/mbedtls/library/bignum.c:415-427 | in every radix those are all the digits |
| Text.ReadString | src/mbedtls/library/bignum.c:432-499 | hexadecimal read from the right and any other radix from the left are one function of the string; exact errors |
| Text.WriteHlp | src/mbedtls/library/bignum.c:504-526 | the recursion appends the numeral of the number, nothing else in the buffer changes |
| Text.WriteHex | src/mbedtls/library/bignum.c:565-583 | leading zero bytes are skipped and the digit pairs of the rest appended |
| Text.NumeralReads | src/mbedtls/library/bignum.c:504-526 | a numeral is digits of the radix, means the number, and has no leading zeros beyond the pairs of hexadecimal |
| Text.NeedSuffices | src/mbedtls/library/bignum.c:542-551 | the size computed from the bit length has room for sign, digits and NUL, for every number and radix |
| Text.NeedIsEven | src/mbedtls/library/bignum.c:542-551 | it is the even one of 3 and 4 more than the bits, half the bits or a quarter of them |
| Text.WriteString | src/mbedtls/library/bignum.c:531-602 | exact errors; undefined exactly in radix 2 on a number without limbs; the text and its length; nothing beyond it in the buffer changes |
| Text.RoundTrip | src/mbedtls/library/bignum.c:432-602 | what is written is read back as the same sign and number, in every radix |
| TextFile.RatioLifts | pub/inc/mbedtls/bignum.h:97-102 | one safe ratio of digits to bits is safe at every size |
| TextFile.BufferSizeIs | pub/inc/mbedtls/bignum.h:100-102 | the buffer size less 16 is the bits times 100 / 332, rounded up |
| TextFile.DigitsFit | pub/inc/mbedtls/bignum.h:83-102 | every number below 2^MAX_BITS has at most MBEDTLS_MPI_RW_BUFFER_SIZE - 16 digits in every radix from 10 |
| TextFile.WriteFile | src/mbedtls/library/bignum.c:641-674 | the line written, and that it is refused exactly when the size asked for exceeds the buffer less 2 |
| TextFile.HexIsWritten | src/mbedtls/library/bignum.c:641-674 | hexadecimal is never refused |
| TextFile.DecimalIsRefused | src/mbedtls/library/bignum.c:641-674 | from seven bytes up a number is refused whose text fits |
| TextFile.DecimalIsWritten | src/mbedtls/library/bignum.c:641-674 | no number is refused in radix 10 to 15 if and only if numbers have at most six bytes |
| TextFile.ReadFile | src/mbedtls/library/bignum.c:608-635 | error conditions and the number in the digits that end the line |
| TextFile.FirstLineIs | src/mbedtls/library/bignum.c:620-625 | what is read of the stream is its longest beginning with no newline before its last character, within the limit |
| TextFile.OnlyFirstLine | src/mbedtls/library/bignum.c:608-635 | what follows the first newline makes no difference |
| TextFile.WithoutOne | src/mbedtls/library/bignum.c:627-628 | at most one line end character of each kind is taken off |
| TextFile.SuffixIsLongest | src/mbedtls/library/bignum.c:630-633 | those digits are the longest run at the end of the line, and only that run is |
| TextFile.LineReads | src/mbedtls/library/bignum.c:608-674 | what any written line is read as, for every label of one line, every radix and every buffer |
| TextFile.ShortLabelFits | pub/inc/mbedtls/bignum.h:83-102 | the 16 extra bytes suffice for ten characters of label, sign and line end |
| TextFile.FileRoundTrip | src/mbedtls/library/bignum.c:608-674 | a line is read back as the number written if and only if that had no minus and the label ends in no counting digits |
| Der.ContentIsMinimal | src/mbedtls/library/asn1write.c:146-156 | content octets mean the number, zero included, in two's complement and in the shortest form (section 8.3 of ITU-T X.690) |
| Der.MinimalIsContent | src/mbedtls/library/asn1write.c:146-156 | and they are the only shortest form with a clear sign bit |
| Der.MpiSizeIsBytes | src/mbedtls/library/bignum.c:407-410 | bits rounded up to bytes are the significant bytes |
| Der.WriteLen | src/mbedtls/library/asn1write.c:42-104 | all length forms are the one rule of section 8.1.3 of ITU-T X.690; exact errors |
| Der.WriteBinary | src/mbedtls/library/bignum.c:707-722 | the number right-aligned after zeros, nothing else changed |
| Der.WriteMpi | src/mbedtls/library/asn1write.c:132-166 | the tagged octets for any signed number in front of what was written before; exact errors |
| Der.WrittenRight | src/mbedtls/library/asn1write.c:138-156 | the octets written are the number's if and only if it is positive, or zero before a byte from 0x80 up, or the negative of half the range of its bytes |
| Der.SignatureToAsn1 | src/mbedtls/library/ecdsa.c:292-311 | the encoded signature, or BUF_TOO_SMALL exactly when it does not fit the buffer |
| Ecdsa.ContentSize | src/mbedtls/library/asn1write.c:138-156 | a number of n bits has n / 8 + 1 content octets |
| Ecdsa.MaxLenSuffices | pub/inc/mbedtls/ecdsa.h:38-56 | the constant bounds the encoding of any two numbers of so many bits if and only if bits < 1000, or bits < 1016 and no multiple of 8 |
| Ecdsa.GuardIsExact | pub/inc/mbedtls/ecdsa.h:52-54 | for whole bytes that is exactly the guard, at most 124 |
| Ecdsa.WriteSignature | src/mbedtls/library/ecdsa.c:292-311 | under the guard no signature of any curve is ever refused |
| Ecdsa.LenReads | src/mbedtls/library/asn1parse.c:50-106 | every written length is read as itself |
| Ecdsa.FieldRead | src/mbedtls/library/asn1parse.c:50-106 | what any length field says, shortest or not, and which code answers one that is cut off, too long or malformed |
| Ecdsa.StorableBytes | src/mbedtls/library/bignum.c:680-690 | a content is refused exactly when its bytes exceed those of the limbs a number may have |
| Ecdsa.ContentsRead | src/mbedtls/library/asn1parse.c:167-181 | any two contents, minimal or not, are read as the unsigned numbers of their bytes, or refused exactly when one needs more limbs than a number may have |
| Ecdsa.SignatureRoundTrip | src/mbedtls/library/ecdsa.c:365-407 | a written signature of numbers that fit their limbs is read back as the same two numbers with nothing left over |
| Ecdsa.CurveRoundTrip | src/mbedtls/library/ecdsa.c:365-407 | under the guard every signature is, for any limb width |
| Ecdsa.CanonicalIsWritten | src/mbedtls/library/ecdsa.c:365-407 | a string read to its end is the signature of the numbers read if and only if its three lengths are shortest and its two contents minimal |
| Ecdsa.SignBitIgnored | src/mbedtls/library/asn1parse.c:167-181 | a content with its sign bit set means a negative number and is read as a positive one; any other is read as what it means |
| Ecdsa.SignaturesDiffer | src/mbedtls/library/ecdsa.c:292-311 | two signatures have one encoding only if they are equal |
| Ecdsa.ReaderIsLenient | src/mbedtls/library/asn1parse.c:167-181 | a string with a spare zero byte is read as (1, 1) and is the signature of no two numbers |
| SignatureErrors.WrongTag | src/mbedtls/library/asn1parse.c:108-121 | no data, another tag and a malformed length have their own codes, anywhere |
| SignatureErrors.TlvCut | src/mbedtls/library/asn1parse.c:50-121 | every proper prefix of a tagged value lacks data, anywhere |
| SignatureErrors.NoSequence | src/mbedtls/library/ecdsa.c:378-383 | the codes for a string that does not begin with a sequence |
| SignatureErrors.CutShort | src/mbedtls/library/ecdsa.c:378-383 | every proper prefix of a sequence is refused for lack of data |
| SignatureErrors.MoreFollows | src/mbedtls/library/ecdsa.c:385-390 | a sequence with anything after it is refused with LENGTH_MISMATCH, whatever it holds |
| SignatureErrors.NoFirst | src/mbedtls/library/ecdsa.c:392-397 | the codes for a sequence that does not begin with a number |
| SignatureErrors.NoSecond | src/mbedtls/library/ecdsa.c:392-397 | the codes for a sequence with one number, or one that is too long, and then no second |
| SignatureErrors.TwoAndMore | src/mbedtls/library/ecdsa.c:392-407 | two numbers are read whatever follows them in the sequence, and whether anything does is noted |
| SignatureErrors.SignatureOnly | src/mbedtls/library/ecdsa.c:365-390 | a signature is refused with anything after it and with any of its last bytes missing, each with its code |
| SignatureErrors.SignatureAndMore | src/mbedtls/library/ecdsa.c:392-407 | a sequence of two numbers and more is read as the two numbers, with bytes left over |

## Left out

- MulHelper.MulHlp: source and destination are different arrays, as in every call the library makes; sharing one array is treated in Overlap. On the 68020 the extend flag is taken to be clear on entry and not touched by the compiled code between the blocks.
- Kernels.Core: `Amd64` and `TriCore` are entered with their zero register as MULADDC_INIT sets it.
- M68kHuit.Beats: the unrolled eight limbs are a loop over four pairs; the unrolled blocks of 16 and 8 kernels are a loop in Kernels.Burst.
- Overlap.Run: the lazy PowerPC kernel and the eight-limb blocks are treated in members of their own.
- Mpi.MulMpi: two different objects never share their limbs; an operand is X itself or separate.
- Mpi.Mpi.Grow: an allocation of legal size always succeeds, here and everywhere else.
- Montgomery.MontMul: scratch is refused when too short even for N, as in the code, and otherwise assumed to be twice that, as every caller provides.
- ExpMod.ExpMod: W[1], R^2 mod N and the scratch are laid out in limbs by the model from their values; the cached R^2 of an earlier call is not modelled; with X being E the result is described only where N divides B^n - 1.
- Division.DivMpi: numbers are mathematical and single limbs are extracted from them; only the quotient is an array of limbs. Aliasing of results and operands is treated in DivisionObjects.
- DivisionObjects.DivMpi: after an allocation failure the results are not described.
- DivisionObjects.ModMpi: addition and subtraction of whole numbers go through their values; the loops are cut off after a given number of turns.
- Gcd.BinaryGcd: on magnitudes, without limb storage.
- InvMod.InvMod: on signed integers, without limb storage.
- Text.ReadString: digits are added at their weight instead of or-ed into limbs; strings longer than a quarter of the address space and numbers beyond the limit on limbs are not modelled.
- Text.WriteHex: the nested loops over limbs and bytes are one loop over bytes.
- Text.WriteHlp: remainder and quotient by the radix are operators; a radix of at most 16 is among the divisors for which SmallModulus.FoldExact shows the remainder right.
- TextFile.WriteFile: the stream is the returned line, and writing it never fails; NUL characters inside labels are not modelled.
- TextFile.ReadFile: the stream is the string still to be read.
- Der.WriteMpi: a zero needs a byte of the buffer after it, which the code reads.
- Der.SignatureToAsn1: only positive numbers, which is all that signing produces.
- Der.WriteLen: size_t is taken to be wider than 32 bits, so lengths above that are an error.
- Ecdsa.SignatureRoundTrip: the verification of the signature between reading and the final length comparison is a matter of curves and left out.
- ModInt, WriteString and ExpMod return UNDEFINED, which is no code of the library, for the calls that read or write where there is no memory; nothing is promised about those.
- The choice of the limb type and of double-width division by compiler and platform (bignum.h:114-171): constants of a build; both outcomes are covered, B and the flag for double width being parameters.
- The SPARC kernels, which are disabled, and the MSVC form of the SSE2 block, given as bytes of machine code.
- Instruction encoding, addressing modes, loads and stores of the operands of the macros, and clobber lists: only registers, flags and limb arrays are modelled.
- The two further PowerPC dialects (bn_mul.h:307-409) and the MSVC i386 form (bn_mul.h:745-759), which repeat a modelled instruction sequence.
- Conditional assignment and swap, shifts, addition and subtraction of whole numbers as operations of their own, and the even timing that mpi_montmul's second subtraction is for.
- Primality tests, prime generation and random numbers.

# The arithmetic, key agreement, ciphers and framing of smoke/sknx, proved

This project models the computing core of the KNX security library under `Project/libsmoke` and proves what it promises. It has five parts.

1. **Multi-precision arithmetic** (`bignum.c`, `bn_mul.h`): `Limbs`, `Bignum*`, `PortableQuotient`, `Montgomery`, `ExpMod`, `Divisors`, `Primes`, `ModInverse`. An `Mpi` is an object with a sign and limbs, rewritten in place; the results may overwrite operands as in C. The limb size `biL` is an unspecified constant among 8, 16, 32 and 64, so every theorem holds for each build. Words wrap around explicitly.
2. **Elliptic curves** (`ecp.c`, `ecp_curves.c`): `CombRecoding`, `CombMul`, `Ecp` over an abstract abelian group; `Chunks`, `FastReduction`, `EcpModp` for the reductions on limbs; `CurveEquation`, `Jacobian`, `Normalise` for the coordinate formulas against the curve and the chord and tangent construction modulo a prime.
3. **Group key agreement** (`mka.c`, `gdh2.c`, `bd1.c` and their drivers): `Symmetric`, `Mka*`, `Gdh2*`, `Bd1*`, `Neighbours`. `Mka` has the algebra and the context object, `MkaProtocol` the step machine of a node, `MkaNetwork` all nodes with one queue per ordered pair, `MkaExchange` the object of `mka.h` proved to be that machine. `MkaOutcome` says when its runs succeed. `Gdh2Network` and `Bd1Network` are the networks of the other two protocols; `MkaSimulation`, `Gdh2Simulation` and `Bd1Simulation` prove that the objects of `MkaExchange`, `Gdh2Exchange` and `Bd1Exchange` are the nodes of the networks.
4. **AES** (tiny-AES and PolarSSL): `AesBytes`, `AesField`, `AesTiny`, `AesWords`, `AesKnownAnswer`, and the modes in `AesModes`, `AesFeedback`, `AesChaining` over any block function.
5. **Framing**: `RingBuffers`, `Telegrams`, `TcpBackend`, `RingSlots`, `PacketWrapper`, and `Framing`, which takes packets through telegrams, an interleaved byte stream, chunks and rings back to packets.

`Arith`, `Bits`, `ByteXor`, `Groups` and `GroupSums` hold what several parts share.

Main results:

- `BignumDiv.DivMpi`, `Montgomery.MontMul`, `ExpMod.ExpMod`, `ModInverse.InvMod`: division, Montgomery product, sliding-window power and modular inverse, with the exact conditions where the code falls short.
- `CombRecoding.CombFixed`, `CombMul.EcpGroup.MulComb`: the signed odd recoding re-sums to the scalar, and comb multiplication is scalar multiplication, with its refusals. `CombRecoding.AccumulatorRange` shows that no accumulator is zero on the way.
- `EcpModp.Modp`, `Jacobian.AddPoints`, `Jacobian.AddMixed`, `Normalise.NormalizeJacMany`: the field and point operations, which stay on the curve.
- `MkaNetwork.Agreement`, `MkaNetwork.Progress`, `MkaNetwork.RunsEnd`: under every interleaving with first-in-first-out delivery per sender, completed nodes agree, no node stalls, and every run ends; `MkaOutcome.CompletesIff`: with the key at all nodes if and only if no elementary symmetric polynomial of a node's peers' secrets vanishes.
- `Gdh2Network.Agreement`, `Gdh2Network.CompletesIff`: the same key in every run, and all nodes complete if and only if there are at most fifteen.
- `Bd1Network.Agreement`, `Bd1Network.CompletesIff`, `Bd1Network.AllSucceedIff`: the same key in every run, and the exact condition on the secrets for all nodes to complete.
- `MkaSimulation.Update`, `Gdh2Simulation.Receive`, `Bd1Simulation.Update`: what the objects do is what the networks do.
- `MkaAsWrittenRuns.AccumulationExact`, `MkaAsWrittenRuns.AgreementAsWritten`: what the replay of `mka.h` as written does to a step and to a run.
- `AesWords.BothImplementations`: both ciphers are one; `AesField.SBoxIsInverse`, `AesField.MultiplyLeaves`, `AesKnownAnswer.KnownAnswer`: and that one is AES.
- `Framing.RoundTrip`: exactly the packets sent, per source and in order.

## Where the code does less than it seems to

In each case the code is modelled as it is, and the exact condition is proved.

- `mpi_exp_mod` negates the result for every base of negative sign (`bignum.c:1710-1714`). `ExpMod.NegativeBaseExact` says when that is right, `ExpMod.NegativeBaseCoprime` and `ExpMod.NegativeBasePrime` say it of the operands alone, `ExpMod.NegativeBaseFails` gives (-1)^2 mod 3.
- `mpi_gcd(A, 0)` with A nonzero returns 0: `ModInverse.GcdResultExact`.
- `mpi_inv_mod` with N = 1 does not leave its inner loop (`bignum.c:1840-1852`): `ModInverse.HalvingEnds` and `ModInverse.NoInverseModuloOne` say so, and `ModInverse.InvMod` takes every other N.
- `mpi_add_abs` with X, A and B one object loses carries: `BignumAdd.AddAbsAliased`.
- The quotient estimate for builds without a double-width type (`bignum.c:1259-1299`) follows a method made for divisors with the top bit set, but the divisor is normalised to biL - 1 bits, so that a product of half limbs can wrap around. `PortableQuotient.Estimate` says exactly when the estimate is the quotient, and when it is below it, which the closing corrections of `mpi_div_mpi` cannot mend. `BignumDiv.DivMpi` is then right if and only if no estimate of the division is too small (`DivisionFine`, with the parameter `wide` for the kind of build). `BignumDiv.MostDivisorsFine` is a condition on the divisor's top limb alone, and `BignumDiv.PortableDivisionFails` gives operands for every limb size whose quotient is wrong. `BignumDiv.ModMpi`, and with it every theorem after division, holds in both kinds of build, since its closing subtractions reduce whatever rest is left.
- The comb table is refused when an entry is the zero point, since it cannot be normalised (`ecp.c:1256` and `ecp.c:1273`). That depends on N alone: the prime N = 17 has no table for points other than G (`CombMul.SeventeenRefused`). `CombMul.EcpGroup.MulComb` and `Ecp.EcpMul` succeed if and only if `CombWorks` holds of N; it does whenever N has at least 37 bits (`CombMul.LargeOrderWorks`). The key agreement takes groups for which it holds (`Ecp.GoodGroup`).
- Replay in `mka.h` copies the key of the packet that triggered it (`mka.h:216-217`), not that of the deferred entry, and reads an entry after popping it (`mka.h:208-209`). The entry is modelled as copied before the pop. `MkaExchange` is proved for both copies (the constant `own`); the agreement theorem is about the intended one; `MkaAsWritten` says exactly when the two leave the same state, and `MkaAsWrittenExample.AsWrittenDisagrees` gives a run of three nodes in which the copy as written ends with a different key. `MkaAsWrittenRuns` proves that the next accumulation is right if and only if the copied values have the sum of the deferred ones, and that a run in which this holds for every replay ends with the same key everywhere.
- A call of MKA fails when an elementary symmetric polynomial of a node's peers' secrets is a multiple of the group order (`MkaOutcome.PassedIff`, `MkaOutcome.OppositeSecretsFail`), and one of BD1 when a node has neighbours with the same secret (`Bd1Network.SucceedsIff`, `Bd1Network.EqualSecretsFail`): the value is then the zero point, which `ecp_mul` refuses.
- GDH2 accepts 2 to 255 nodes (`gdh2.h:24`), but the list of the last node but one has as many points as there are nodes, of 66 bytes each, and a ring takes packets of 1021 data bytes (`multirings.h:67`). With sixteen nodes or more no node ever completes: `Gdh2Network.CompletesIff`, `Gdh2Network.SixteenStall`. The packets of MKA (67 bytes) and of BD1 (66 bytes) always fit.
- `init()` of `mka.h` does not empty the queue of deferred values (`mka.h:62-64`): `MkaExchange.MkaKeyExchange.Init` keeps them, and `MkaSimulation.Boot` is about a new object, where there are none.
- Packets of more than 1021 data bytes can be written but never received, and block their source for good: `Framing.DeliveredIff`, `Framing.OversizeBlocks`.

## Modelling choices

- I/O, clocks and randomness are parameters: a secret is an argument in [1, N), a chunk from the network is an argument, sent bytes are a field.
- Curve points of the key agreement are elements of an abelian group of prime order N, with N larger than the number of parties and a comb table for every point; a key is the point whose X coordinate the C code exports.
- The nodes of a network are numbered 0 to n - 1 by place, and a node's own packets do not come back to it, as `pktwrapper.h:104-106` ensures.
- The networks deliver every packet that fits, once, and each sender's in order. `Framing.RoundTrip` proves that of the packet layer for at most as many sources as it has rings; with more, telegrams can be dropped, and the networks do not model that.
- A queue is a field of type `seq`, a priority queue a `seq` from which an entry of least id is taken.
- Memory that C leaves uninitialised is an array without initial values, so nothing is known about it.

## Model

| member | source | states |
|---|---|---|
| `Bignum.Copy` | Project/libsmoke/libs/sknx/libs/polarssl/src/bignum.c:169-198 | X takes the value of Y; X keeps at least the limbs it had, and the other sizes callers rely on |
| `Bignum.Lset` | Project/libsmoke/libs/sknx/libs/polarssl/src/bignum.c:279-292 | X becomes the given one-limb number, with the limbs it had cleared |
| `Bignum.CmpAbs` | Project/libsmoke/libs/sknx/libs/polarssl/src/bignum.c:771-796 | the sign of the difference of the magnitudes, whatever leading zero limbs are stored |
| `Bignum.CmpMpi` | Project/libsmoke/libs/sknx/libs/polarssl/src/bignum.c:801-829 | the sign of the difference of the values, with -0 equal to 0 |
| `Bignum.CmpInt` | Project/libsmoke/libs/sknx/libs/polarssl/src/bignum.c:834-845 | the sign of the difference to a one-limb number |
| `BignumAdd.AddAbs` | Project/libsmoke/libs/sknx/libs/polarssl/src/bignum.c:850-897 | the sum of the magnitudes for every aliasing but X = A = B, where every limb is doubled without carries |
| `BignumAdd.AddAbsAliased` | Project/libsmoke/libs/sknx/libs/polarssl/src/bignum.c:877-881 | with X = A = B the result is the sum if and only if no limb overflows when doubled |
| `BignumAdd.SubHlp` | Project/libsmoke/libs/sknx/libs/polarssl/src/bignum.c:902-918 | subtraction in place; the borrow chain ends inside the array because the minuend is the larger number |
| `BignumAdd.SubAbs` | Project/libsmoke/libs/sknx/libs/polarssl/src/bignum.c:923-961 | the difference of the magnitudes, refused exactly when it would be negative; X may be either operand |
| `BignumAdd.AddMpi` | Project/libsmoke/libs/sknx/libs/polarssl/src/bignum.c:966-992 | the signed sum, for every aliasing but X = A = B |
| `BignumAdd.SubMpi` | Project/libsmoke/libs/sknx/libs/polarssl/src/bignum.c:997-1023 | the signed difference, for every aliasing; nonnegative operands in the right order leave a sign of 1 |
| `BignumShift.Msb` | Project/libsmoke/libs/sknx/libs/polarssl/src/bignum.c:351-364 | the bit length of the magnitude |
| `BignumShift.Lsb` | Project/libsmoke/libs/sknx/libs/polarssl/src/bignum.c:336-346 | the position of the lowest set bit |
| `BignumShift.GetBit` | Project/libsmoke/libs/sknx/libs/polarssl/src/bignum.c:297-303 | a bit of the magnitude, zero beyond the stored limbs |
| `BignumShift.ShiftL` | Project/libsmoke/libs/sknx/libs/polarssl/src/bignum.c:678-723 | multiplication by a power of two, and the exact number of limbs to which X grows |
| `BignumShift.ShiftR` | Project/libsmoke/libs/sknx/libs/polarssl/src/bignum.c:728-766 | division by a power of two, toward zero, in place |
| `BignumMul.MulAddWide` | Project/libsmoke/libs/sknx/libs/polarssl/include/polarssl/bn_mul.h:920-935 | one multiply-accumulate step with a double-width word is exact: r0 + B r1 = s b + c + d |
| `BignumMul.MulAddHalves` | Project/libsmoke/libs/sknx/libs/polarssl/include/polarssl/bn_mul.h:938-961 | the step from four half-limb products, with its seven carries, is the same exact sum |
| `BignumMul.MulHlp` | Project/libsmoke/libs/sknx/libs/polarssl/src/bignum.c:1068-1127 | a row of the product is added at an offset; the closing carry loop ends inside the array |
| `BignumMul.MulMpi` | Project/libsmoke/libs/sknx/libs/polarssl/src/bignum.c:1132-1164 | the signed product, whichever operands X overwrites, and the size of X |
| `BignumMul.MulInt` | Project/libsmoke/libs/sknx/libs/polarssl/src/bignum.c:1169-1180 | the product with one limb |
| `BignumDiv.DivisionExact` | Project/libsmoke/libs/sknx/libs/polarssl/src/bignum.c:1185-1354 | truncated quotient and remainder are the only pair with A = QB + R, R smaller in magnitude than B, R zero or signed like A |
| `BignumDiv.TopDigit` | Project/libsmoke/libs/sknx/libs/polarssl/src/bignum.c:1222-1230 | the first loop subtracts at most three times, since the divisor has only biL - 1 bits in its top limb |
| `BignumDiv.FirstEstimate` | Project/libsmoke/libs/sknx/libs/polarssl/src/bignum.c:1235-1300 | either estimate, capped or not, is not too small exactly where DigitFine holds (always, with a double-width type); otherwise it is at least 5 too small |
| `BignumDiv.CorrectEstimate` | Project/libsmoke/libs/sknx/libs/polarssl/src/bignum.c:1302-1317 | the lowered digit is the greatest that passes the two-limb test, wrap-around of the counter included |
| `BignumDiv.EstimateWithinOne` | Project/libsmoke/libs/sknx/libs/polarssl/src/bignum.c:1319-1329 | a digit that passes the two-limb test is right or one too large |
| `BignumDiv.DigitBounds` | Project/libsmoke/libs/sknx/libs/polarssl/src/bignum.c:1233-1330 | the same for the limbs the source looks at, with the zeros it takes below index 0 |
| `BignumDiv.AddBack` | Project/libsmoke/libs/sknx/libs/polarssl/src/bignum.c:1323-1329 | the add-back undoes one subtraction of the shifted divisor |
| `BignumDiv.DivStep` | Project/libsmoke/libs/sknx/libs/polarssl/src/bignum.c:1233-1330 | one round of the main loop keeps dividend = quotient so far * divisor + rest; the rest is below the divisor at this digit if and only if it was before and the estimate was not too small |
| `BignumDiv.DivMpi` | Project/libsmoke/libs/sknx/libs/polarssl/src/bignum.c:1185-1354 | a zero divisor is refused; A = Q B + R in every build; Q is the truncated quotient, and R the remainder, if and only if no estimate of the division is too small, which is every division with a double-width type; R may be A or B |
| `BignumDiv.WideIsExact` | Project/libsmoke/libs/sknx/libs/polarssl/src/bignum.c:1240-1258 | with a double-width type every division is exact |
| `BignumDiv.MostDivisorsFine` | Project/libsmoke/libs/sknx/libs/polarssl/src/bignum.c:1259-1299 | without one it is exact for every dividend when the lower half of the normalised divisor's top limb is not among the two greatest |
| `BignumDiv.PortableDivisionFails` | Project/libsmoke/libs/sknx/libs/polarssl/src/bignum.c:1259-1299 | without one, for every limb size, a two-limb dividend and a one-limb divisor whose quotient comes out wrong |
| `BignumDiv.ModMpi` | Project/libsmoke/libs/sknx/libs/polarssl/src/bignum.c:1375-1393 | A mod B in [0, B) for every A, and the two errors, in every build: a rest that the division leaves too large is still reduced |
| `PortableQuotient.HalfStep` | Project/libsmoke/libs/sknx/libs/polarssl/src/bignum.c:1266-1296 | half of the estimate without a double-width type is the exact quotient of the half-extended limb plus B for every wrap-around of its product |
| `PortableQuotient.Estimate` | Project/libsmoke/libs/sknx/libs/polarssl/src/bignum.c:1259-1299 | without a double-width type: the estimate is the quotient if and only if neither of its products wraps around, and below it, by at least 5, if and only if TooLow holds |
| `PortableQuotient.NoWrap` | Project/libsmoke/libs/sknx/libs/polarssl/src/bignum.c:1275-1298 | no product wraps around when the lower half of the divisor's limb is not among the two greatest |
| `PortableQuotient.SomeWrap` | Project/libsmoke/libs/sknx/libs/polarssl/src/bignum.c:1275-1298 | for every limb size there are a divisor normalised as the source does it and an upper limb for which a product wraps |
| `Montgomery.MontgInit` | Project/libsmoke/libs/sknx/libs/polarssl/src/bignum.c:1455-1467 | Newton iteration ends with N[0] * mm = -1 modulo the limb base, for every limb size |
| `Montgomery.NewtonStep` | Project/libsmoke/libs/sknx/libs/polarssl/src/bignum.c:1463-1464 | each step doubles the number of correct bits |
| `Montgomery.MontRound` | Project/libsmoke/libs/sknx/libs/polarssl/src/bignum.c:1484-1496 | one round divides exactly by the limb base, keeps the window below 2N, and stays inside T |
| `Montgomery.FinalSubtraction` | Project/libsmoke/libs/sknx/libs/polarssl/src/bignum.c:1498-1504 | the closing comparison leaves A < N; the dummy subtraction on T stays inside T |
| `Montgomery.MontMul` | Project/libsmoke/libs/sknx/libs/polarssl/src/bignum.c:1472-1505 | A becomes below N with A * B^n congruent to the product, A and B the same object or not |
| `Montgomery.MontRed` | Project/libsmoke/libs/sknx/libs/polarssl/src/bignum.c:1510-1519 | A becomes below N with A * B^n congruent to A |
| `ExpMod.WindowFor` | Project/libsmoke/libs/sknx/libs/polarssl/src/bignum.c:1548-1554 | the window size never exceeds the configured one |
| `ExpMod.BuildTable` | Project/libsmoke/libs/sknx/libs/polarssl/src/bignum.c:1603-1626 | entries 2^(wsize-1) .. 2^wsize - 1 hold the corresponding powers in Montgomery form |
| `ExpMod.WindowExtend` | Project/libsmoke/libs/sknx/libs/polarssl/src/bignum.c:1668-1671 | or-ing a bit into wbits appends it to the window |
| `ExpMod.ProcessBit` | Project/libsmoke/libs/sknx/libs/polarssl/src/bignum.c:1648-1689 | the window machine (state, nbits, wbits) keeps: exponent prefix = done * 2^nbits + window, X = base^done |
| `ExpMod.CloseWindow` | Project/libsmoke/libs/sknx/libs/polarssl/src/bignum.c:1673-1689 | a full window indexes a precomputed entry and moves its bits into the exponent done |
| `ExpMod.ScanExponent` | Project/libsmoke/libs/sknx/libs/polarssl/src/bignum.c:1628-1690 | after all bits the machine stands for the whole exponent |
| `ExpMod.FinishWindow` | Project/libsmoke/libs/sknx/libs/polarssl/src/bignum.c:1692-1703 | the leftover bits are multiplied in one by one |
| `ExpMod.RadixSquared` | Project/libsmoke/libs/sknx/libs/polarssl/src/bignum.c:1575-1585 | R^2 mod N, computed or from the cache, and the cache kept valid |
| `ExpMod.ExpModPositive` | Project/libsmoke/libs/sknx/libs/polarssl/src/bignum.c:1556-1708 | X = A^E mod N for every window size, for A of nonnegative sign |
| `ExpMod.ExpMod` | Project/libsmoke/libs/sknx/libs/polarssl/src/bignum.c:1524-1727 | the result or error for every base, including what the negative-base correction leaves |
| `ExpMod.NegativeBaseExact` | Project/libsmoke/libs/sknx/libs/polarssl/src/bignum.c:1710-1714 | the result is the power modulo N if and only if the base is not negative, or E is odd and N does not divide the power |
| `ExpMod.NegativeBaseCoprime` | Project/libsmoke/libs/sknx/libs/polarssl/src/bignum.c:1710-1714 | for a base coprime to N: if and only if the base is not negative or E is odd |
| `ExpMod.NegativeBasePrime` | Project/libsmoke/libs/sknx/libs/polarssl/src/bignum.c:1710-1714 | for a prime N: if and only if the base is not negative, or E is odd and N does not divide the base |
| `ExpMod.NegativeBaseFails` | Project/libsmoke/libs/sknx/libs/polarssl/src/bignum.c:1710-1714 | (-1)^2 mod 3 comes out as 2 |
| `ModInverse.GcdRound` | Project/libsmoke/libs/sknx/libs/polarssl/src/bignum.c:1754-1769 | one pass keeps the gcd and makes the operands smaller |
| `ModInverse.GcdMpi` | Project/libsmoke/libs/sknx/libs/polarssl/src/bignum.c:1732-1779 | the binary algorithm returns the gcd of the magnitudes, or 0 when B is 0 |
| `ModInverse.GcdResultExact` | Project/libsmoke/libs/sknx/libs/polarssl/src/bignum.c:1743-1772 | that is the gcd if and only if B is nonzero or A is zero |
| `ModInverse.HalveOnce` | Project/libsmoke/libs/sknx/libs/polarssl/src/bignum.c:1840-1852 | the halvings of the coefficients are exact and keep U = U1 TA + U2 TB |
| `ModInverse.HalvingEnds` | Project/libsmoke/libs/sknx/libs/polarssl/src/bignum.c:1840-1866 | halving an even number again and again comes to an odd one if and only if the number is not zero |
| `ModInverse.HalveWhileEven` | Project/libsmoke/libs/sknx/libs/polarssl/src/bignum.c:1840-1866 | the halving loops end with an odd value, the combination and coprimality kept |
| `ModInverse.SubtractTriple` | Project/libsmoke/libs/sknx/libs/polarssl/src/bignum.c:1868-1879 | the subtraction keeps the combination |
| `ModInverse.InverseLoop` | Project/libsmoke/libs/sknx/libs/polarssl/src/bignum.c:1838-1881 | the loop terminates with 1 = V1 TA + V2 TB |
| `ModInverse.InvMod` | Project/libsmoke/libs/sknx/libs/polarssl/src/bignum.c:1808-1898 | for N other than 1: success if and only if gcd(A, N) = 1, and then X in [0, N) with A X mod N = 1 |
| `ModInverse.NoInverseModuloOne` | Project/libsmoke/libs/sknx/libs/polarssl/src/bignum.c:1819-1852 | why N = 1 is excluded: the gcd test passes, and from A mod 1 the inner loop never comes to an odd number |
| `CombRecoding.ClassicalComb` | Project/libsmoke/libs/sknx/libs/polarssl/src/ecp.c:1196-1201 | the first loop puts bit i + d j of the scalar at bit j of digit i |
| `CombRecoding.FullAdder` | Project/libsmoke/libs/sknx/libs/polarssl/src/ecp.c:1207-1215 | the step adds digit, carry and previous digit on all bits at once; or-ing the two carries loses nothing |
| `CombRecoding.RecodeDigit` | Project/libsmoke/libs/sknx/libs/polarssl/src/ecp.c:1207-1216 | one pass of the second loop on the array is that step |
| `CombRecoding.StepSign` | Project/libsmoke/libs/sknx/libs/polarssl/src/ecp.c:1213-1216 | bit 7 is free before the step and is the sign after it; the new digit is odd |
| `CombRecoding.RecodeStep` | Project/libsmoke/libs/sknx/libs/polarssl/src/ecp.c:1205-1217 | each pass keeps the signed sum of every tooth |
| `CombRecoding.NoCarryOut` | Project/libsmoke/libs/sknx/libs/polarssl/src/ecp.c:1204-1217 | the carry out of position d is zero |
| `CombRecoding.CombFixed` | Project/libsmoke/libs/sknx/libs/polarssl/src/ecp.c:1190-1218 | for odd m of at most w d bits, 2 <= w <= 7: all d + 1 digits are odd and their signed values re-sum to m |
| `CombRecoding.AccumulatorRange` | Project/libsmoke/libs/sknx/libs/polarssl/src/ecp.c:979-984 | the accumulator of the main loop stands for a scalar between 1 and m at every digit, so it is never zero |
| `CombRecoding.UnusedTooth` | Project/libsmoke/libs/sknx/libs/polarssl/src/ecp.c:1196-1217 | a tooth above the bits of the scalar is in no digit |
| `CombMul.SeedTable` | Project/libsmoke/libs/sknx/libs/polarssl/src/ecp.c:1239-1254 | entries 0, 1, 2, 4, ... hold P, 2^d P, 2^(2d) P, ... |
| `CombMul.FillOctave` | Project/libsmoke/libs/sknx/libs/polarssl/src/ecp.c:1258-1271 | the in-place pass completes entries 2^l .. 2^(l+1) - 1, the operand overwritten last; they are all right, or one is zero |
| `CombMul.NormalizeMany` | Project/libsmoke/libs/sknx/libs/polarssl/src/ecp.c:798-875 | on points of the group: two or more are refused if and only if one is zero, a single one never; the points stay what they are |
| `CombMul.PrecomputeComb` | Project/libsmoke/libs/sknx/libs/polarssl/src/ecp.c:1230-1277 | refused if and only if some entry is zero (unless the table has two entries only); otherwise entry i is P plus 2^(d(l+1)) P for every bit l of i |
| `CombMul.EntryOfDigit` | Project/libsmoke/libs/sknx/libs/polarssl/src/ecp.c:1282-1304 | the entry chosen for an odd digit is the digit without sign, times P |
| `CombMul.SelectComb` | Project/libsmoke/libs/sknx/libs/polarssl/src/ecp.c:1282-1304 | the constant-time selection, of X and Y only, yields the signed digit times P when the entry is not zero |
| `CombMul.MulCombCore` | Project/libsmoke/libs/sknx/libs/polarssl/src/ecp.c:1312-1342 | the main loop yields m P for every recoding of an m below the odd order of P, with no zero accumulator and no zero entry on the way |
| `CombMul.DigitsSelectable` | Project/libsmoke/libs/sknx/libs/polarssl/src/ecp.c:1331-1336 | with a table that was not refused, no digit of an odd m below N selects a zero entry, in tables of two entries either |
| `CombMul.BelowOrderWorks` | Project/libsmoke/libs/sknx/libs/polarssl/src/ecp.c:1372-1399 | no entry is zero when N has two bits more than the place of the top tooth |
| `CombMul.LargeOrderWorks` | Project/libsmoke/libs/sknx/libs/polarssl/src/ecp.c:1372-1399 | the table is never refused when N has at least 37 bits |
| `CombMul.SeventeenRefused` | Project/libsmoke/libs/sknx/libs/polarssl/src/ecp.c:1256-1273 | N = 17 and P other than G: the table is always refused, unless the window is configured below 3 |
| `CombMul.CombWidth` | Project/libsmoke/libs/sknx/libs/polarssl/src/ecp.c:1372-1395 | the window width is between 2 and 7 |
| `CombMul.CombCovers` | Project/libsmoke/libs/sknx/libs/polarssl/src/ecp.c:1399 | width times span covers the bits of the order |
| `CombMul.EcpGroup.CombTable` | Project/libsmoke/libs/sknx/libs/polarssl/src/ecp.c:1405-1426 | the table for P, from the group's cache or new, and the cache kept valid; it cannot be had if and only if N has no comb of that width |
| `CombMul.EcpGroup.OddScalar` | Project/libsmoke/libs/sknx/libs/polarssl/src/ecp.c:1432-1435 | the odd one of m and N - m |
| `CombMul.TimesComplement` | Project/libsmoke/libs/sknx/libs/polarssl/src/ecp.c:1428-1447 | m P = -((N - m) P) when N P = 0 |
| `CombMul.EcpGroup.MulComb` | Project/libsmoke/libs/sknx/libs/polarssl/src/ecp.c:1348-1465 | for 1 <= m < N and P of order N: an error when N is even; m P when N is odd and the comb table can be had, a condition on N alone; otherwise the error of the normalisation, and R freed |
| `Ecp.EcpMul` | Project/libsmoke/libs/sknx/libs/polarssl/src/ecp.c:1653-1676 | success if and only if P is nonzero, 1 <= m < N and the comb table can be had, and then m P; each error, and what R is then |
| `Ecp.LargeGroupIsGood` | Project/libsmoke/libs/sknx/libs/polarssl/src/ecp.c:1372-1399 | a curve group of at least 37 bits has comb tables for G and for other points |
| `Ecp.TimesCancel` | Project/libsmoke/libs/sknx/libs/sban/src/mka.c:94-96 | a factor prime to the group order can be cancelled, so the division by r + 1 is determined |
| `Chunks.Load32` | Project/libsmoke/libs/sknx/libs/polarssl/src/ecp_curves.c:909-939 | chunk j of the value, for each of the four limb sizes |
| `Chunks.Store32` | Project/libsmoke/libs/sknx/libs/polarssl/src/ecp_curves.c:918-947 | chunk i of the value is replaced, for each of the four limb sizes |
| `FastReduction.Add32` | Project/libsmoke/libs/sknx/libs/polarssl/src/ecp_curves.c:954-958 | the signed carry counts the wrap-around |
| `FastReduction.Sub32` | Project/libsmoke/libs/sknx/libs/polarssl/src/ecp_curves.c:960-964 | the signed carry counts the wrap-around downwards |
| `FastReduction.ApplyColumn` | Project/libsmoke/libs/sknx/libs/polarssl/src/ecp_curves.c:966-995 | a column adds up exactly, with a carry between -11 and 11 |
| `FastReduction.ReduceColumns` | Project/libsmoke/libs/sknx/libs/polarssl/src/ecp_curves.c:989-995 | all columns leave chunks and a carry that together are the sum of the columns |
| `FastReduction.StoreLast` | Project/libsmoke/libs/sknx/libs/polarssl/src/ecp_curves.c:997-1001 | a positive carry becomes the chunk above, the rest is cleared |
| `FastReduction.FixNegative` | Project/libsmoke/libs/sknx/libs/polarssl/src/ecp_curves.c:1007-1028 | a negative carry: N becomes N + c 2^bits, for 224 bits with 64-bit limbs too |
| `FastReduction.QuasiReduce` | Project/libsmoke/libs/sknx/libs/polarssl/src/ecp_curves.c:973-1028 | N becomes the sum of the columns, at least -11 * 2^bits and below 12 * 2^bits, carries within a signed char |
| `FastReduction.Columns224Reduce` | Project/libsmoke/libs/sknx/libs/polarssl/src/ecp_curves.c:1034-1048 | the columns sum to a number congruent modulo the 224-bit prime (section D.2.2 of FIPS 186-3), for every input of twice the length |
| `FastReduction.Columns256Reduce` | Project/libsmoke/libs/sknx/libs/polarssl/src/ecp_curves.c:1055-1085 | the same for 256 bits (section D.2.3 of FIPS 186-3) |
| `FastReduction.Columns384Reduce` | Project/libsmoke/libs/sknx/libs/polarssl/src/ecp_curves.c:1092-1134 | the same for 384 bits (section D.2.4 of FIPS 186-3) |
| `FastReduction.PrimesAre` | Project/libsmoke/libs/sknx/libs/polarssl/src/ecp_curves.c:150-230 | the three primes, as sums of powers of two |
| `EcpModp.QuasiModP` | Project/libsmoke/libs/sknx/libs/polarssl/src/ecp_curves.c:1030-1135 | grp->modp gives a congruent number within twelve times 2^pbits |
| `EcpModp.RaiseByPrime` | Project/libsmoke/libs/sknx/libs/polarssl/src/ecp.c:688-690 | additions of P end with a nonnegative congruent number |
| `EcpModp.LowerByPrime` | Project/libsmoke/libs/sknx/libs/polarssl/src/ecp.c:692-694 | subtractions of P end with the residue |
| `EcpModp.Modp` | Project/libsmoke/libs/sknx/libs/polarssl/src/ecp.c:672-698 | N mod P if N is nonnegative and of at most twice the bits, otherwise an error and N unchanged |
| `EcpModp.ProductInRange` | Project/libsmoke/libs/sknx/libs/polarssl/src/ecp.c:680-684 | products of residues never meet the length guard |
| `Jacobian.ModMul` | Project/libsmoke/libs/sknx/libs/polarssl/src/ecp.c:719-720 | the product of residues, reduced; the guard never fires |
| `Jacobian.ModSub` | Project/libsmoke/libs/sknx/libs/polarssl/src/ecp.c:726-728 | reduction of a difference that may be negative |
| `Jacobian.DoubleJac` | Project/libsmoke/libs/sknx/libs/polarssl/src/ecp.c:912-969 | the coordinates are congruent to the doubling polynomials, for a = -3 and for general a, and they stay on the curve with that a and any b; R may be P |
| `Jacobian.DoublingLaw` | Project/libsmoke/libs/sknx/libs/polarssl/src/ecp.c:912-969 | those polynomials stand for the tangent construction, and for infinity when y = 0, for every nonzero Z |
| `Jacobian.AddMixed` | Project/libsmoke/libs/sknx/libs/polarssl/src/ecp.c:989-1062 | each branch: P zero, Q zero, Q not normalised (error), equal points, opposite points, general; all coordinates, which stay on the curve if those of P and Q are; R may be P or Q |
| `Jacobian.DifferenceZero` | Project/libsmoke/libs/sknx/libs/polarssl/src/ecp.c:1017-1037 | the differences vanish if and only if the affine coordinates agree |
| `Jacobian.ChordLaw` | Project/libsmoke/libs/sknx/libs/polarssl/src/ecp.c:1039-1054 | the general case stands for the chord construction |
| `Jacobian.SumExists` | Project/libsmoke/libs/sknx/libs/polarssl/src/ecp.c:989-1062 | every two affine points have a sum by the chord and tangent construction |
| `Jacobian.DoublePoint` | Project/libsmoke/libs/sknx/libs/polarssl/src/ecp.c:912-969 | doubling yields the double of the point that the argument stands for |
| `Jacobian.AddPoints` | Project/libsmoke/libs/sknx/libs/polarssl/src/ecp.c:989-1062 | mixed addition yields the sum of the points that the arguments stand for, special cases included |
| `Jacobian.SumExplicit` | Project/libsmoke/libs/sknx/libs/polarssl/src/ecp.c:912-1062 | the sum, without a slope: its coordinates from those of the two points, by the chord, or by the tangent with a = -3 written out |
| `Jacobian.StandsOnCurve` | Project/libsmoke/libs/sknx/libs/polarssl/src/ecp.c:912-1062 | coordinates are on the curve if and only if the point that they stand for is |
| `CurveEquation.DoubleOnCurve` | Project/libsmoke/libs/sknx/libs/polarssl/src/ecp.c:912-969 | the doubling polynomials stay on Y^2 = X^3 + a X Z^4 + b Z^6, modulo any number |
| `CurveEquation.SumOnCurve` | Project/libsmoke/libs/sknx/libs/polarssl/src/ecp.c:1017-1056 | so do the addition polynomials |
| `Normalise.NormalizeJac` | Project/libsmoke/libs/sknx/libs/polarssl/src/ecp.c:752-785 | the affine coordinates with Z = 1; infinity is left alone |
| `Normalise.PrefixProducts` | Project/libsmoke/libs/sknx/libs/polarssl/src/ecp.c:815-823 | c[i] = Z_0 ... Z_i |
| `Normalise.PeelInverse` | Project/libsmoke/libs/sknx/libs/polarssl/src/ecp.c:830-843 | from u = 1/(Z_0 ... Z_i): Z_i inverted, and u = 1/(Z_0 ... Z_(i-1)) |
| `Normalise.NormalizeJacMany` | Project/libsmoke/libs/sknx/libs/polarssl/src/ecp.c:798-875 | success if and only if no Z is zero, and then every point has the affine coordinates of normalising it alone |
| `Normalise.NormalisedUnique` | Project/libsmoke/libs/sknx/libs/polarssl/src/ecp.c:752-875 | affine coordinates are unique, so both functions agree on every point |
| `Normalise.NormalisedStands` | Project/libsmoke/libs/sknx/libs/polarssl/src/ecp.c:752-785 | the normalised point stands for the same affine point |
| `Symmetric.ElementarySplit` | Project/libsmoke/libs/sknx/libs/sban/src/mka.c:56-106 | e_k(s) = e_k(s without a) + a e_(k-1)(s without a) |
| `Symmetric.CofactorSum` | Project/libsmoke/libs/sknx/libs/sban/src/mka.c:56-106 | summing a_i e_k(s without a_i) over i gives (k + 1) e_(k+1)(s) |
| `GroupSums.SumPermuted` | Project/libsmoke/libs/sknx/libs/sban/src/mka.c:75-81 | the sum of points does not depend on the order they came in |
| `Mka.PeersSum` | Project/libsmoke/libs/sknx/libs/sban/src/mka.c:75-81 | the sum over the peers is (r + 1) e_(r+1) of all secrets less one's own share |
| `Mka.RoundDifference` | Project/libsmoke/libs/sknx/libs/sban/src/mka.c:75-92 | the sum less r times k is (r + 1) times the next elementary symmetric polynomial of the others' secrets |
| `Mka.RoundStep` | Project/libsmoke/libs/sknx/libs/sban/src/mka.c:56-106 | one round takes party i from e_r to e_(r+1) of the others' secrets, for any order of the peers |
| `Mka.RoundInvariant` | Project/libsmoke/libs/sknx/libs/sban/src/mka.c:29-106 | after round r every party holds e_(r+1)(all secrets but its own) times the base point |
| `Mka.KeyIsProduct` | Project/libsmoke/libs/sknx/libs/sban/src/mka.c:108-137 | the key is the product of all secrets times the base point |
| `Mka.KeyAgreement` | Project/libsmoke/libs/sknx/libs/sban/src/mka.c:29-137 | all n >= 2 parties compute the same key, the product of all secrets times the base point |
| `Mka.NegatedMultiple` | Project/libsmoke/libs/sknx/libs/sban/src/mka.c:83-90 | the point that is added is minus r times k |
| `Mka.DivideBy` | Project/libsmoke/libs/sknx/libs/sban/src/mka.c:94-96 | the point whose (r + 1)-fold is the difference |
| `Mka.MkaContext.constructor` | Project/libsmoke/libs/sknx/libs/sban/src/mka.c:3-27 | the context at round 0: k is the secret times the base point |
| `Mka.MkaContext.MakeBroadval` | Project/libsmoke/libs/sknx/libs/sban/src/mka.c:29-54 | the broadcast: k in round 0, otherwise a k, which k becomes; its errors |
| `Mka.MkaContext.AccBroadval` | Project/libsmoke/libs/sknx/libs/sban/src/mka.c:56-106 | k becomes the point whose (r + 1)-fold is the sum less r times k, and r advances up to n - 2; the errors leave both unchanged |
| `Mka.MkaContext.ComputeKey` | Project/libsmoke/libs/sknx/libs/sban/src/mka.c:108-137 | a k in the last round only; the errors of the other rounds |
| `MkaProtocol.ReceiveHolds` | Project/libsmoke/libs/sknx/src/shared/knx/crypto/mka.h:167-184 | a peer's next broadcast, at most one step ahead, is stored or deferred |
| `MkaProtocol.FullStep` | Project/libsmoke/libs/sknx/src/shared/knx/crypto/mka.h:186-187 | a full step holds exactly one value of that step from every peer |
| `MkaProtocol.FullStepPoint` | Project/libsmoke/libs/sknx/src/shared/knx/crypto/mka.h:186-195 | accumulating a full step gives the next elementary symmetric polynomial |
| `MkaProtocol.ReplayHolds` | Project/libsmoke/libs/sknx/src/shared/knx/crypto/mka.h:206-220 | replay turns the deferred values into values of the new step and never fills it |
| `MkaProtocol.NotFull` | Project/libsmoke/libs/sknx/src/shared/knx/crypto/mka.h:186-220 | the peer whose value triggered the step is missing from the next one |
| `MkaProtocol.OtherValues` | Project/libsmoke/libs/sknx/src/shared/knx/crypto/mka.h:174-187 | values of other steps than this and the next, and second values of this step from one sender, change nothing |
| `MkaProtocol.OtherEntries` | Project/libsmoke/libs/sknx/src/shared/knx/crypto/mka.h:207-212 | deferred values of other steps are not replayed |
| `MkaProtocol.AdvanceInv` | Project/libsmoke/libs/sknx/src/shared/knx/crypto/mka.h:186-220 | completing a step keeps the node's invariant |
| `MkaNetwork.DoInv` | Project/libsmoke/libs/sknx/src/shared/knx/crypto/mka.h:79-113 | every delivery and every end of update() keeps the network invariant |
| `MkaNetwork.StepsWithinOne` | Project/libsmoke/libs/sknx/src/shared/knx/crypto/mka.h:79-113 | in every state with the invariant, steps of any two nodes differ by at most one |
| `MkaNetwork.InFlight` | Project/libsmoke/libs/sknx/src/shared/knx/crypto/mka.h:167-184 | a packet in flight is its sender's value of that step, at most one step ahead of the receiver |
| `MkaNetwork.InStep` | Project/libsmoke/libs/sknx/src/shared/knx/crypto/mka.h:79-224 | at every moment of every run: steps within one, and how many broadcasts of each peer a node has taken in |
| `MkaNetwork.StepConsumesOneEach` | Project/libsmoke/libs/sknx/src/shared/knx/crypto/mka.h:186-199 | a node advances exactly when it has one value of the step from every peer, and accumulates just these |
| `MkaNetwork.Progress` | Project/libsmoke/libs/sknx/src/shared/knx/crypto/mka.h:79-113 | while no call has failed and not all have completed, some packet or computation is pending |
| `MkaNetwork.WorkGrows` | Project/libsmoke/libs/sknx/src/shared/knx/crypto/mka.h:79-113 | every action adds to a bounded amount of work |
| `MkaNetwork.RunsEnd` | Project/libsmoke/libs/sknx/src/shared/knx/crypto/mka.h:79-113 | no run is longer than n (n^2 + 1) actions |
| `MkaNetwork.Agreement` | Project/libsmoke/libs/sknx/src/shared/knx/crypto/mka.h:79-113 | in every run, every node that has completed holds the product of all secrets times the base point |
| `MkaOutcome.AccumulateIff` | Project/libsmoke/libs/sknx/libs/sban/src/mka.c:56-106 | a full step accumulates if and only if the next elementary symmetric polynomial of the others' secrets does not vanish |
| `MkaOutcome.Outcome` | Project/libsmoke/libs/sknx/src/shared/knx/crypto/mka.h:79-113 | in every run a call fails only at a node some of whose polynomials vanish, and only the other nodes complete |
| `MkaOutcome.CompletesIff` | Project/libsmoke/libs/sknx/src/shared/knx/crypto/mka.h:79-113 | some run ends with the key at all nodes, and then every run that goes on to its end, if and only if no polynomial vanishes at any node |
| `MkaOutcome.Extends` | Project/libsmoke/libs/sknx/src/shared/knx/crypto/mka.h:79-113 | every run goes on to a state in which nothing can happen |
| `MkaOutcome.PassedIff` | Project/libsmoke/libs/sknx/libs/sban/src/mka.c:56-106 | a node gets through s accumulations if and only if none of e_1, ..., e_s of the others' secrets is a multiple of the group order |
| `MkaOutcome.OppositeSecretsFail` | Project/libsmoke/libs/sknx/libs/sban/src/mka.c:92-96 | three nodes, two with opposite secrets: the third node's first accumulation fails |
| `MkaAsWritten.ReplaysAgree` | Project/libsmoke/libs/sknx/src/shared/knx/crypto/mka.h:206-220 | the replay as written equals the intended one if and only if every deferred value equals the triggering packet's |
| `MkaAsWritten.AsWrittenExact` | Project/libsmoke/libs/sknx/src/shared/knx/crypto/mka.h:186-224 | for a node of a run, the step as written leads to the intended state if and only if the step was the last, a call failed, or all deferred values equal the packet's |
| `MkaAsWrittenRuns.NextAccumulation` | Project/libsmoke/libs/sknx/src/shared/knx/crypto/mka.h:195-222 | after either replay, and whatever comes later in the step, the accumulations are equal if and only if the copied values sum like the entries' own |
| `MkaAsWrittenRuns.AccumulationExact` | Project/libsmoke/libs/sknx/src/shared/knx/crypto/mka.h:170-222 | for a node that goes to a next step: with the copy as written its accumulation is right if and only if the copied values sum alike |
| `MkaAsWrittenRuns.EqualIsHarmless` | Project/libsmoke/libs/sknx/src/shared/knx/crypto/mka.h:216-217 | a replay is harmless in particular when every deferred value equals the one copied |
| `MkaAsWrittenRuns.IntendedRun` | Project/libsmoke/libs/sknx/src/shared/knx/crypto/mka.h:170-222 | a run as written whose replays are all harmless is a run of the protocol, up to the order and choice of values in the slots |
| `MkaAsWrittenRuns.AgreementAsWritten` | Project/libsmoke/libs/sknx/src/shared/knx/crypto/mka.h:170-222 | in such a run every completed node has the product key |
| `MkaAsWrittenExample.AsWrittenDisagrees` | Project/libsmoke/libs/sknx/src/shared/knx/crypto/mka.h:206-220 | a run of the network as written, of three nodes with the secrets 1, 2, 3 in Z_7, in which a node completes with another key |
| `MkaExchange.MkaKeyExchange.Init` | Project/libsmoke/libs/sknx/src/shared/knx/crypto/mka.h:29-70 | the checks of the node set, and the state after the first broadcast; values deferred before are kept |
| `MkaExchange.MkaKeyExchange.Insert` | Project/libsmoke/libs/sknx/src/shared/knx/crypto/mka.h:174-181 | a value goes to the next free slot unless its sender is there already |
| `MkaExchange.MkaKeyExchange.ReplayDeferred` | Project/libsmoke/libs/sknx/src/shared/knx/crypto/mka.h:206-220 | the loop over the deferred values is the step machine's replay, in either form |
| `MkaExchange.MkaKeyExchange.CryptoBroadcast` | Project/libsmoke/libs/sknx/src/shared/knx/crypto/mka.h:146-165 | one broadcast of the machine, or the error state |
| `MkaExchange.MkaKeyExchange.CryptoUpdate` | Project/libsmoke/libs/sknx/src/shared/knx/crypto/mka.h:167-224 | one packet on the object's buffers is one transition of the step machine |
| `MkaExchange.MkaKeyExchange.HandlePacket` | Project/libsmoke/libs/sknx/src/shared/knx/crypto/mka.h:85-97 | a packet with command 0x27 of a known sender and the right size is processed; every other one changes nothing |
| `MkaExchange.MkaKeyExchange.Update` | Project/libsmoke/libs/sknx/src/shared/knx/crypto/mka.h:79-115 | update() reads exactly the packets the machine would, and completes it after the last step |
| `MkaSimulation.Boot` | Project/libsmoke/libs/sknx/src/shared/knx/crypto/mka.h:28-75 | a new object is in the state of its node at the start, whatever the ids of the nodes |
| `MkaSimulation.ProcessById` | Project/libsmoke/libs/sknx/src/shared/knx/crypto/mka.h:167-224 | a value does to a node with ids what it does to the node with places |
| `MkaSimulation.ReadsArePath` | Project/libsmoke/libs/sknx/src/shared/knx/crypto/mka.h:79-98 | the reading loop, on any packets in flight and any others between them, is a path of deliveries of the network |
| `MkaSimulation.Update` | Project/libsmoke/libs/sknx/src/shared/knx/crypto/mka.h:79-113 | one update() is a path of the network at its node: deliveries, and then the key if the last step is done, with no such thing left to do |
| `MkaSimulation.OthersPlay` | Project/libsmoke/libs/sknx/src/shared/knx/crypto/mka.h:79-113 | the objects of the other nodes stay in their nodes' states |
| `MkaSimulation.PathsAreRuns` | Project/libsmoke/libs/sknx/src/shared/knx/crypto/mka.h:79-224 | such paths from the start are runs of the network, or runs as written, according to the copy |
| `Gdh2.Gdh2Context.MakeFirstval` | Project/libsmoke/libs/sknx/libs/sban/src/gdh2.c:21-37 | the first node's list |
| `Gdh2.Gdh2Context.MakeVal` | Project/libsmoke/libs/sknx/libs/sban/src/gdh2.c:39-105 | the list a node makes of the one it received, the last node's broadcast and key, and the errors |
| `Gdh2.Gdh2Context.ComputeKey` | Project/libsmoke/libs/sknx/libs/sban/src/gdh2.c:107-142 | the key from the value at offset N - index - 1, and the errors |
| `Gdh2.NextListIsRight` | Project/libsmoke/libs/sknx/libs/sban/src/gdh2.c:72-98 | from node k's list to node k + 1's: [product, product missing k + 1, missing k, ..., missing 1] |
| `Gdh2.LastListIsRight` | Project/libsmoke/libs/sknx/libs/sban/src/gdh2.c:55-98 | in the last broadcast, place N - index - 1 holds the product missing node index |
| `Gdh2.ChainLists` | Project/libsmoke/libs/sknx/libs/sban/src/gdh2.c:39-105 | every node of a chain of any length sends its list in that order |
| `Gdh2.ChainAgreement` | Project/libsmoke/libs/sknx/libs/sban/src/gdh2.c:21-142 | all N >= 2 nodes compute the product of all secrets times the base point |
| `Gdh2Exchange.Gdh2Node.FirstOnRecv` | Project/libsmoke/libs/sknx/src/shared/knx/crypto/gdh2_utils.h:122-147 | the first node takes only the last node's broadcast |
| `Gdh2Exchange.Gdh2Node.LastOnRecv` | Project/libsmoke/libs/sknx/src/shared/knx/crypto/gdh2_utils.h:168-204 | the last node broadcasts its list and completes |
| `Gdh2Exchange.Gdh2Node.SimpleOnRecv` | Project/libsmoke/libs/sknx/src/shared/knx/crypto/gdh2_utils.h:225-268 | a middle node extends and forwards the predecessor's list, and later takes its key from the broadcast |
| `Gdh2Exchange.Gdh2Node.OnRecv` | Project/libsmoke/libs/sknx/src/shared/knx/crypto/gdh2.h:43-53 | the behaviour of the first, the last and every other node; a call fails if and only if a point it reads is zero |
| `Gdh2Network.DoInv` | Project/libsmoke/libs/sknx/src/shared/knx/crypto/gdh2_utils.h:94-270 | every delivery keeps the network invariant, and no call of it fails |
| `Gdh2Network.Agreement` | Project/libsmoke/libs/sknx/src/shared/knx/crypto/gdh2_utils.h:94-270 | in every run no call fails, and every node that has completed has the product of all secrets times the base point |
| `Gdh2Network.DeliveredIff` | Project/libsmoke/libs/sknx/src/shared/knx/multirings.h:67 | the packet with a list is delivered if and only if its points take at most 1021 bytes (as Framing.DeliveredIff has it) |
| `Gdh2Network.ListThrough` | Project/libsmoke/libs/sknx/libs/sban/src/gdh2.c:65-98 | the list of node i + 1, not the last, takes 66 bytes a point, and gets through if and only if i <= 13 |
| `Gdh2Network.Progress` | Project/libsmoke/libs/sknx/src/shared/knx/crypto/gdh2_utils.h:94-270 | while some node has not completed, some delivery is possible, unless there are sixteen nodes or more and the fifteenth has sent |
| `Gdh2Network.GoesOnIff` | Project/libsmoke/libs/sknx/src/shared/knx/crypto/gdh2_utils.h:94-270 | at every moment of every run: some delivery is possible if and only if some node has not completed, and there are at most fifteen nodes or the fifteenth has not sent |
| `Gdh2Network.Outcome` | Project/libsmoke/libs/sknx/src/shared/knx/crypto/gdh2_utils.h:94-270 | where a run can go no further, all nodes have the key with at most fifteen nodes, and none has it with more |
| `Gdh2Network.Extends` | Project/libsmoke/libs/sknx/src/shared/knx/crypto/gdh2_utils.h:94-270 | every run goes on to such an end |
| `Gdh2Network.CompletesIff` | Project/libsmoke/libs/sknx/src/shared/knx/crypto/gdh2.h:24 | all nodes can complete if and only if there are at most fifteen, though 255 are accepted |
| `Gdh2Network.SixteenStall` | Project/libsmoke/libs/sknx/src/shared/knx/crypto/gdh2.h:24 | sixteen nodes: the list of the fifteenth takes 1056 bytes, and the run ends there, with no key anywhere |
| `Gdh2Network.WorkGrows` | Project/libsmoke/libs/sknx/src/shared/knx/crypto/gdh2_utils.h:94-270 | every delivery adds to a bounded amount of work |
| `Gdh2Network.RunsEnd` | Project/libsmoke/libs/sknx/src/shared/knx/crypto/gdh2_utils.h:94-270 | no run is longer than 2 n deliveries |
| `Gdh2Simulation.Boot` | Project/libsmoke/libs/sknx/src/shared/knx/crypto/gdh2.h:40-61 | a new object is in the state of its node at the start, whatever the order in which it is given the ids |
| `Gdh2Simulation.Receive` | Project/libsmoke/libs/sknx/src/shared/knx/crypto/gdh2.h:73-91 | an object that receives the packet of an action gets into the state of the node after the action, and fails if and only if the action does |
| `Gdh2Simulation.ReceiveInRun` | Project/libsmoke/libs/sknx/src/shared/knx/crypto/gdh2.h:73-91 | along a run, on_recv succeeds and leads to the node's next state |
| `Gdh2Simulation.OthersPlay` | Project/libsmoke/libs/sknx/src/shared/knx/crypto/gdh2.h:73-91 | the objects of the other nodes stay in their nodes' states |
| `Neighbours.FindNeighbours` | Project/libsmoke/libs/sknx/src/shared/knx/crypto/gdh2_utils.h:27-46 | a single pass in any order finds predecessor, successor, first, last and place |
| `Neighbours.RingPlaces` | Project/libsmoke/libs/sknx/src/shared/knx/crypto/bd1.h:200-219 | these are the cyclic neighbours in the ascending listing of the ids |
| `Bd1.Bd1Context.GenPoint` | Project/libsmoke/libs/sknx/libs/sban/src/bd1.c:15-30 | the public point |
| `Bd1.Bd1Context.GenValue` | Project/libsmoke/libs/sknx/libs/sban/src/bd1.c:32-60 | r (z_next - z_prev), with the branch for a zero difference |
| `Bd1.Bd1Context.ComputeKey` | Project/libsmoke/libs/sknx/libs/sban/src/bd1.c:62-127 | the weighted sum, from the values in ring order; it succeeds if and only if none of the points it multiplies is zero |
| `Bd1Ring.Telescope` | Project/libsmoke/libs/sknx/libs/sban/src/bd1.c:80-107 | summation by parts of the weighted differences |
| `Bd1Ring.KeyScalar` | Project/libsmoke/libs/sknx/libs/sban/src/bd1.c:80-107 | n r_1 r_n plus the weighted differences is the cyclic sum of r_i r_(i+1) |
| `Bd1Ring.RingSumSmall` | Project/libsmoke/libs/sknx/libs/sban/src/bd1.c:80-107 | that sum for two and for three nodes: 2 a b, and a b + b c + c a |
| `Bd1Ring.RingRotates` | Project/libsmoke/libs/sknx/libs/sban/src/bd1.c:62-127 | the cyclic sum does not depend on the seat |
| `Bd1Ring.SeatKey` | Project/libsmoke/libs/sknx/libs/sban/src/bd1.c:62-127 | a node with the right neighbour's point and values computes the cyclic sum times the base point |
| `Bd1Exchange.SplitValues` | Project/libsmoke/libs/sknx/src/shared/knx/crypto/bd1.h:136-145 | the first loop over the priority queue |
| `Bd1Exchange.OrderValues` | Project/libsmoke/libs/sknx/src/shared/knx/crypto/bd1.h:132-151 | both loops: greater ids first, then the smaller ones, each ascending |
| `Bd1Exchange.RingOrder` | Project/libsmoke/libs/sknx/src/shared/knx/crypto/bd1.h:132-151 | with different ids that is the cyclic order after one's own place |
| `Bd1Exchange.SortedUnique` | Project/libsmoke/libs/sknx/src/shared/knx/crypto/bd1.h:181-191 | entries of different ids can be sorted in one way only |
| `Bd1Exchange.Bd1KeyExchange.ReadPackets` | Project/libsmoke/libs/sknx/src/shared/knx/crypto/bd1.h:82-108 | what the reading loop collects, packet by packet |
| `Bd1Exchange.Bd1KeyExchange.SendValue` | Project/libsmoke/libs/sknx/src/shared/knx/crypto/bd1.h:110-130 | once both neighbours' points are there: the own value, sent and stored |
| `Bd1Exchange.Bd1KeyExchange.FinishKey` | Project/libsmoke/libs/sknx/src/shared/knx/crypto/bd1.h:132-167 | the key of the ordered values if no point that is multiplied is zero, otherwise a failure; and the status |
| `Bd1Exchange.Agreement` | Project/libsmoke/libs/sknx/src/shared/knx/crypto/bd1.h:132-167 | whatever order the values came in, every seat computes the same cyclic sum of products of neighbouring secrets |
| `Bd1Network.Everybodys` | Project/libsmoke/libs/sknx/src/shared/knx/crypto/bd1.h:132-145 | entries of different ids of the group, as many as there are nodes, hold everybody's |
| `Bd1Network.NextInv` | Project/libsmoke/libs/sknx/src/shared/knx/crypto/bd1.h:78-171 | every packet read, value sent and key computed keeps the network invariant |
| `Bd1Network.Agreement` | Project/libsmoke/libs/sknx/src/shared/knx/crypto/bd1.h:78-171 | in every run every node that has completed has the cyclic sum of products of neighbouring secrets times the base point |
| `Bd1Network.Progress` | Project/libsmoke/libs/sknx/src/shared/knx/crypto/bd1.h:78-171 | while some node has neither completed nor failed, some node can read, send or compute |
| `Bd1Network.NextExists` | Project/libsmoke/libs/sknx/src/shared/knx/crypto/bd1.h:78-171 | every action that is enabled can happen |
| `Bd1Network.Outcome` | Project/libsmoke/libs/sknx/src/shared/knx/crypto/bd1.h:78-171 | in every run only nodes complete whose call is to succeed, and only the others fail; where a run can go no further, all have done so |
| `Bd1Network.SucceedsIff` | Project/libsmoke/libs/sknx/libs/sban/src/bd1.c:80-107 | the call at a node succeeds if and only if there are two nodes, or no node but its predecessor has neighbours with the same secret modulo the order |
| `Bd1Network.AllSucceedIff` | Project/libsmoke/libs/sknx/libs/sban/src/bd1.c:80-107 | no call fails if and only if there are two nodes, or no node has neighbours with the same secret |
| `Bd1Network.CompletesIff` | Project/libsmoke/libs/sknx/src/shared/knx/crypto/bd1.h:78-171 | some run ends with the key at all nodes, and then every run that goes on to its end, if and only if all calls are to succeed |
| `Bd1Network.Extends` | Project/libsmoke/libs/sknx/src/shared/knx/crypto/bd1.h:78-171 | every run goes on to a state in which nothing can happen |
| `Bd1Network.EqualSecretsFail` | Project/libsmoke/libs/sknx/libs/sban/src/bd1.c:80-107 | three nodes with the secrets 1, 2, 1: only the last gets a key |
| `Bd1Network.WorkGrows` | Project/libsmoke/libs/sknx/src/shared/knx/crypto/bd1.h:78-171 | every action adds to a bounded amount of work |
| `Bd1Network.RunsEnd` | Project/libsmoke/libs/sknx/src/shared/knx/crypto/bd1.h:78-171 | no run is longer than n (2 n + 2) actions |
| `Bd1Simulation.Boot` | Project/libsmoke/libs/sknx/src/shared/knx/crypto/bd1.h:30-70 | a new object is in the state of its node at the start, whatever the order in which it is given the ids |
| `Bd1Simulation.ReadsArePath` | Project/libsmoke/libs/sknx/src/shared/knx/crypto/bd1.h:82-108 | the reading loop, on any packets that wait for the node and any others between them, is a path of reads of the network |
| `Bd1Simulation.Update` | Project/libsmoke/libs/sknx/src/shared/knx/crypto/bd1.h:78-171 | one update() is a path of the network at its node: reads, then the own value, then the key, with nothing of the kind left to do |
| `Bd1Simulation.OthersPlay` | Project/libsmoke/libs/sknx/src/shared/knx/crypto/bd1.h:78-171 | the objects of the other nodes stay in their nodes' states |
| `AesBytes.BoxesInverse` | Project/libsmoke/libs/tiny-AES-c-master/aes.c:137-147 | each S-box undoes the other |
| `AesBytes.InvMixMix` | Project/libsmoke/libs/tiny-AES-c-master/aes.c:306-364 | InvMixColumns undoes MixColumns on a column |
| `AesField.XtimeLeaves` | Project/libsmoke/libs/tiny-AES-c-master/aes.c:300-303 | doubling is the product with x, less x^8 + x^4 + x^3 + x + 1 (0x11B) if the top bit falls out |
| `AesField.MultiplyLeaves` | Project/libsmoke/libs/tiny-AES-c-master/aes.c:321-342 | Multiply is the product of polynomials over GF(2) modulo 0x11B, for every byte and factor below 32 |
| `AesField.FieldProductLeaves` | Project/libsmoke/libs/tiny-AES-c-master/aes.c:321-342 | so is its extension to all factors |
| `AesField.RemainderUnique` | Project/libsmoke/libs/tiny-AES-c-master/aes.c:321-342 | there is only one such remainder |
| `AesField.SBoxIsInverse` | Project/libsmoke/libs/tiny-AES-c-master/aes.c:80-100 | the S-box of a byte is the affine image, with 0x63, of its inverse in that field |
| `AesKnownAnswer.KnownAnswer` | Project/libsmoke/libs/tiny-AES-c-master/aes.c:152-432 | key expansion and cipher on the example of appendix C.3 of FIPS 197 |
| `AesTiny.KeyExpansion` | Project/libsmoke/libs/tiny-AES-c-master/aes.c:152-223 | the round keys are the words of the schedule of section 5.2 of FIPS 197, for 256-bit keys |
| `AesTiny.SubBytes` | Project/libsmoke/libs/tiny-AES-c-master/aes.c:257-267 | SubBytes on the state |
| `AesTiny.ShiftRows` | Project/libsmoke/libs/tiny-AES-c-master/aes.c:272-298 | ShiftRows by in-place swaps |
| `AesTiny.MixColumns` | Project/libsmoke/libs/tiny-AES-c-master/aes.c:306-319 | MixColumns by the in-place xor chain |
| `AesTiny.AddRoundKey` | Project/libsmoke/libs/tiny-AES-c-master/aes.c:243-253 | the round's words are added |
| `AesTiny.InvShiftRows` | Project/libsmoke/libs/tiny-AES-c-master/aes.c:381-407 | InvShiftRows by in-place swaps |
| `AesTiny.InvMixColumns` | Project/libsmoke/libs/tiny-AES-c-master/aes.c:326-364 | InvMixColumns by field multiplications |
| `AesTiny.Cipher` | Project/libsmoke/libs/tiny-AES-c-master/aes.c:411-434 | the state becomes the cipher of section 5.1 of FIPS 197 |
| `AesTiny.InvCipher` | Project/libsmoke/libs/tiny-AES-c-master/aes.c:437-460 | the state becomes the inverse cipher |
| `AesTiny.MeetsRound` | Project/libsmoke/libs/tiny-AES-c-master/aes.c:437-460 | going back, the inverse cipher passes through the cipher's states |
| `AesTiny.InvCipherInverts` | Project/libsmoke/libs/tiny-AES-c-master/aes.c:411-460 | decryption undoes encryption, for every key schedule and block |
| `AesWords.SetkeyEnc` | Project/libsmoke/libs/sknx/libs/polarssl/src/aes.c:502-567 | the words of aes_setkey_enc are those of the byte-level schedule, for 256-bit keys |
| `AesWords.SetkeyDec` | Project/libsmoke/libs/sknx/libs/polarssl/src/aes.c:607-641 | the words of aes_setkey_dec: reversed rounds, the inner ones through InvMixColumns |
| `AesWords.TablesF` | Project/libsmoke/libs/sknx/libs/polarssl/src/aes.c:383-457 | the forward tables are S-box and MixColumns of a byte in each of the four places |
| `AesWords.InvMixWordIs` | Project/libsmoke/libs/sknx/libs/polarssl/src/aes.c:629-635 | the lookup RT[FSb[.]] is InvMixColumns of a word |
| `AesWords.FRound` | Project/libsmoke/libs/sknx/libs/polarssl/src/aes.c:651-672 | a table round is SubBytes, ShiftRows, MixColumns and the key addition |
| `AesWords.RRound` | Project/libsmoke/libs/sknx/libs/polarssl/src/aes.c:674-695 | an inverse table round is InvShiftRows, InvSubBytes, InvMixColumns and the key addition |
| `AesWords.LastRound` | Project/libsmoke/libs/sknx/libs/polarssl/src/aes.c:742-798 | the last rounds, without the mixing |
| `AesWords.Encrypt` | Project/libsmoke/libs/sknx/libs/polarssl/src/aes.c:700-807 | table-driven encryption equals the byte-level cipher |
| `AesWords.EquivalentRound` | Project/libsmoke/libs/sknx/libs/polarssl/src/aes.c:732-740 | a round of the equivalent inverse cipher (section 5.3.5 of FIPS 197) is a round of the inverse cipher |
| `AesWords.Decrypt` | Project/libsmoke/libs/sknx/libs/polarssl/src/aes.c:700-807 | table-driven decryption with the transformed schedule equals the byte-level inverse cipher |
| `AesWords.BothImplementations` | Project/libsmoke/libs/sknx/libs/polarssl/src/aes.c:464-807 | for every 256-bit key and block both libraries encrypt alike, and decryption gives the block back |
| `AesModes.IncrementInPlace` | Project/libsmoke/libs/sknx/libs/polarssl/src/aes.c:974-976 | the counter loop from the last byte |
| `AesModes.IncrementIv` | Project/libsmoke/libs/tiny-AES-c-master/aes.c:551-562 | the counter loop of the other library does the same |
| `AesModes.IncrementAdds` | Project/libsmoke/libs/sknx/libs/polarssl/src/aes.c:974-976 | it adds one modulo 256^16 to the big-endian number |
| `AesModes.CryptCtr` | Project/libsmoke/libs/sknx/libs/polarssl/src/aes.c:960-989 | output and updated offset, counter and stream block of counter mode |
| `AesModes.CtrSplit` | Project/libsmoke/libs/sknx/libs/polarssl/src/aes.c:960-989 | a buffer and any split of it give the same output and the same state |
| `AesModes.CtrInverts` | Project/libsmoke/libs/sknx/libs/polarssl/src/aes.c:960-989 | the same call undoes itself |
| `AesModes.Keystream` | Project/libsmoke/libs/sknx/libs/polarssl/src/aes.c:960-989 | from a block boundary, byte k of the keystream is byte k mod 16 of E(counter + k/16 mod 2^128) |
| `AesModes.CtrEquation` | Project/libsmoke/libs/sknx/libs/polarssl/src/aes.c:960-989 | byte k of the output is byte k of the input xor byte k mod 16 of E(counter + k/16 mod 2^128) |
| `AesModes.XcryptBuffer` | Project/libsmoke/libs/tiny-AES-c-master/aes.c:538-569 | the buffer and the counter after the in-place call |
| `AesModes.SameCounterMode` | Project/libsmoke/libs/tiny-AES-c-master/aes.c:538-569 | both libraries' counter modes give the same bytes and counter from offset 0 |
| `AesModes.CallsCompose` | Project/libsmoke/libs/tiny-AES-c-master/aes.c:538-569 | calls compose when the earlier ones end at block boundaries |
| `AesFeedback.EncryptCfb128` | Project/libsmoke/libs/sknx/libs/polarssl/src/aes.c:903-915 | output and updated offset and iv of cipher feedback |
| `AesFeedback.DecryptCfb128` | Project/libsmoke/libs/sknx/libs/polarssl/src/aes.c:889-902 | the same for decryption; the state depends on the ciphertext only |
| `AesFeedback.CfbInverts` | Project/libsmoke/libs/sknx/libs/polarssl/src/aes.c:879-920 | decryption gives the input back, from any state |
| `AesFeedback.CfbAfterSum` | Project/libsmoke/libs/sknx/libs/polarssl/src/aes.c:879-920 | the state after two pieces is the state after the whole |
| `AesFeedback.CfbEncryptSplit` | Project/libsmoke/libs/sknx/libs/polarssl/src/aes.c:903-915 | any split of a buffer gives the same ciphertext |
| `AesFeedback.CfbDecryptSplit` | Project/libsmoke/libs/sknx/libs/polarssl/src/aes.c:889-902 | any split of a buffer gives the same plaintext |
| `AesFeedback.CfbIsFeedback` | Project/libsmoke/libs/sknx/libs/polarssl/src/aes.c:903-915 | from a block boundary the byte loop is C_j = P_j xor E(C_(j-1)) (section 6.3 of NIST SP 800-38A) |
| `AesFeedback.CfbEquation` | Project/libsmoke/libs/sknx/libs/polarssl/src/aes.c:903-915 | the same byte by byte: C_j = P_j xor E(C_(j-1)) |
| `AesChaining.CbcEncryptBuffer` | Project/libsmoke/libs/tiny-AES-c-master/aes.c:500-514 | in-place chaining, each mask read back from the buffer |
| `AesChaining.CbcDecryptBuffer` | Project/libsmoke/libs/tiny-AES-c-master/aes.c:516-529 | in-place inverse, the ciphertext block saved before it is overwritten |
| `AesChaining.CbcInverts` | Project/libsmoke/libs/tiny-AES-c-master/aes.c:500-529 | decryption with an inverse block function gives the plaintext back |
| `AesChaining.CbcIsChaining` | Project/libsmoke/libs/tiny-AES-c-master/aes.c:500-514 | C_j = E(P_j xor C_(j-1)) for every block (section 6.2 of NIST SP 800-38A) |
| `AesChaining.CbcIsUnchaining` | Project/libsmoke/libs/tiny-AES-c-master/aes.c:516-529 | P_j = D(C_j) xor C_(j-1) for every block |
| `AesChaining.CbcSplit` | Project/libsmoke/libs/tiny-AES-c-master/aes.c:500-514 | a message in two calls gives the same ciphertext |
| `RingBuffers.RingBuffer.Write` | Project/libsmoke/libs/sknx/src/shared/knx/ringbuffer.h:18-35 | the bytes are appended, across the end of the array or not, or refused if they do not fit |
| `RingBuffers.RingBuffer.Peek` | Project/libsmoke/libs/sknx/src/shared/knx/ringbuffer.h:53-67 | the first bytes, in one or two pieces |
| `RingBuffers.RingBuffer.Remove` | Project/libsmoke/libs/sknx/src/shared/knx/ringbuffer.h:44-51 | the first bytes are dropped |
| `RingBuffers.RingBuffer.Read` | Project/libsmoke/libs/sknx/src/shared/knx/ringbuffer.h:37-42 | peek, then remove |
| `Telegrams.EncodedReads` | Project/libsmoke/libs/sknx/src/shared/knx/telegram.h:39-95 | a written telegram reads back source, destination and body, and passes check() |
| `Telegrams.EncodedLayout` | Project/libsmoke/libs/sknx/src/shared/knx/telegram.h:54-72 | the bytes of a written telegram, by their place and value |
| `Telegrams.ChecksParity` | Project/libsmoke/libs/sknx/src/shared/knx/telegram.h:83-121 | a telegram passes check() if and only if its control byte masks to 0x90 and each of the eight bits is set in an odd number of its bytes |
| `Telegrams.OneByteChanged` | Project/libsmoke/libs/sknx/src/shared/knx/telegram.h:87-121 | no telegram passes check() after one changed byte, other than the one that holds the size |
| `Telegrams.Telegram.Write` | Project/libsmoke/libs/sknx/src/shared/knx/telegram.h:63-72 | body, size field and checksum are written, each bit then being set in an odd number of bytes; more than 15 bytes are refused |
| `Telegrams.Telegram.Checksum` | Project/libsmoke/libs/sknx/src/shared/knx/telegram.h:115-121 | the complemented xor of the bytes before it: the byte with which each bit is set an odd number of times |
| `Telegrams.Telegram.Check` | Project/libsmoke/libs/sknx/src/shared/knx/telegram.h:83-93 | the control mask, and the odd parity of each bit |
| `Telegrams.Telegram.Read` | Project/libsmoke/libs/sknx/src/shared/knx/telegram.h:97-104 | the body, unless the buffer is too small for it |
| `TcpBackend.LinuxTcp.ProcessPacket` | Project/libsmoke/libs/sknx/src/shared/knx/backend/linux-tcp.h:118-137 | a chunk of at most 128 bytes is never refused, and the telegrams it completes are queued in order |
| `TcpBackend.CutParts` | Project/libsmoke/libs/sknx/src/shared/knx/backend/linux-tcp.h:118-137 | what stays in the ring is less than 22 bytes, and nothing is lost |
| `TcpBackend.CutAppend` | Project/libsmoke/libs/sknx/src/shared/knx/backend/linux-tcp.h:118-137 | cutting a stream in two parts is cutting it at once |
| `TcpBackend.AnyChunks` | Project/libsmoke/libs/sknx/src/shared/knx/backend/linux-tcp.h:118-137 | however a stream of telegrams is cut into chunks, exactly these telegrams come out |
| `RingSlots.HeldCount` | Project/libsmoke/libs/sknx/src/shared/knx/multirings.h:44-75 | fewer other sources than slots hold bytes if and only if a slot is for this source or empty |
| `RingSlots.MultiRings.Deallocate` | Project/libsmoke/libs/sknx/src/shared/knx/multirings.h:24-33 | only an empty ring is given up |
| `RingSlots.MultiRings.GarbageCollect` | Project/libsmoke/libs/sknx/src/shared/knx/multirings.h:92-101 | every empty ring is given up, and no other |
| `RingSlots.MultiRings.Get` | Project/libsmoke/libs/sknx/src/shared/knx/multirings.h:44-75 | fails if and only if every slot holds bytes of another source; what sources have waiting is unchanged |
| `PacketWrapper.PktWrapper.Write` | Project/libsmoke/libs/sknx/src/shared/knx/pktwrapper.h:50-62 | the telegrams that are queued have bodies that join to the command, the number of data bytes with the high byte first, and the data |
| `PacketWrapper.PktWrapper.Packetize` | Project/libsmoke/libs/sknx/src/shared/knx/pktwrapper.h:146-168 | bodies of fifteen bytes, the last one shorter, each with the same header |
| `PacketWrapper.PktWrapper.FeedRing` | Project/libsmoke/libs/sknx/src/shared/knx/pktwrapper.h:121-143 | the body is appended or refused, and the complete packets in front are taken out: one as soon as 3 + 256 b[1] + b[2] bytes are there |
| `PacketWrapper.PiecesYield` | Project/libsmoke/libs/sknx/src/shared/knx/pktwrapper.h:121-143 | bodies that join to the bytes of a packet yield exactly that packet in an empty ring, and nothing before the last |
| `PacketWrapper.PacketizedBytes` | Project/libsmoke/libs/sknx/src/shared/knx/pktwrapper.h:146-168 | every byte of the header of telegram i of a packet, and the part of the packet that it carries |
| `PacketWrapper.KnownTelegram` | Project/libsmoke/libs/sknx/src/shared/knx/pktwrapper.h:50-62 | what node 0x1101 sends to broadcast command 0x27 without data |
| `PacketWrapper.PktWrapper.Recompose` | Project/libsmoke/libs/sknx/src/shared/knx/pktwrapper.h:103-144 | own telegrams, those that fail the control mask or the parity, and unplaceable ones are dropped, others change only their source's bytes |
| `PacketWrapper.PktWrapper.Update` | Project/libsmoke/libs/sknx/src/shared/knx/pktwrapper.h:77-95 | everything queued is sent; what a chunk completes is received, in order |
| `Framing.SoloPacket` | Project/libsmoke/libs/sknx/src/shared/knx/pktwrapper.h:103-168 | the first telegrams of a packet leave its first bytes waiting, the last one completes it |
| `Framing.SoloSent` | Project/libsmoke/libs/sknx/src/shared/knx/pktwrapper.h:103-168 | everything a source sends to this node arrives in order, and no bytes stay behind |
| `Framing.Project` | Project/libsmoke/libs/sknx/src/shared/knx/pktwrapper.h:103-144 | sources do not disturb each other while there is room |
| `Framing.FewSources` | Project/libsmoke/libs/sknx/src/shared/knx/multirings.h:44-75 | with at most as many sources as rings there is always room |
| `Framing.RoundTripWithRoom` | Project/libsmoke/libs/sknx/src/shared/knx/pktwrapper.h:50-168 | any merge, any chunks, any number of sources with fewer than max_rings others in mid-packet: exactly the packets sent, per source and in order |
| `Framing.RoundTrip` | Project/libsmoke/libs/sknx/src/shared/knx/pktwrapper.h:50-168 | the same for at most max_rings sources and packets of at most 1021 bytes, with nothing left in any ring |
| `Framing.AtAnyTime` | Project/libsmoke/libs/sknx/src/shared/knx/pktwrapper.h:77-144 | at any earlier moment the packets received from a source are the first ones it sent |
| `Framing.DeliveredIff` | Project/libsmoke/libs/sknx/src/shared/knx/pktwrapper.h:50-144 | a packet for this node is delivered if and only if it has at most 1021 data bytes |
| `Framing.OversizeBlocks` | Project/libsmoke/libs/sknx/src/shared/knx/pktwrapper.h:103-144 | after a longer packet nothing of that source is ever delivered |

## Left out

- Allocation failure, `POLARSSL_MPI_MAX_LIMBS` and the `MPI_CHK` paths that only follow from them.
- Inline assembly of `bn_mul.h`, `aesni.c`, PadLock and platform hooks.
- Aliasing that the code does not support: Q with A, B or R in `mpi_div_mpi`; R with B in `mpi_mod_mpi`; X with E or N in `mpi_exp_mod`; operands never allocated in `mpi_exp_mod`, `mpi_gcd` and `mpi_inv_mod`.
- `ecp_mod_p192`, `ecp_mod_p521`, `ecp_mod_p255` and the Koblitz reductions: the same kind of argument as the three column sums; `EcpModp` models the slow reduction for groups without `modp`.
- Point randomisation and the other uses of the random generator: they change Z by a nonzero factor, and points are stated up to that.
- Jacobian temporaries: `Jacobian` and `Normalise` work on residues instead of `mpi` objects; that `mpi_mul_mpi`, `mpi_sub_mpi` and `ecp_modp` compute these residues is in parts 1 and 2.
- The group law as an instance: `CombMul` is over any abelian group; that chord and tangent addition is associative is not proved.
- The conditional copies' constant-time behaviour.
- Points whose order is a proper divisor of a composite N, in `ecp_mul_comb`: `ecp.h` asks for a prime N, and then every nonzero point has order N.
- Montgomery curves (`ecp_mul_mxz`), point encodings, and the byte encoding of keys.
- Primality testing and generation, random numbers, SHA-2 and HMAC.
- AesWords.SetkeyEnc: 256-bit keys only, since that is how tiny-AES, to which it is compared, is configured; the branches for 128 and 192 bits are not modelled.
- AesWords.SetkeyDec: 256-bit keys only, for the same reason.
- CBC and CFB8 of PolarSSL, and `aes_gen_tables`: the tables are functions by their formula, the S-boxes constants.
- TLS-style reads of truncated buffers in `sban`: lists of points are sequences long enough for the call, which is what the drivers pass.
- BD2, the node counter, `policies.h` and the outer state machine of SKNX.
- Sockets, UART, TPUART and Miosix backends, servers and clients; from the TCP backend only `_process_packet`, `broadcast` and `read`.

# Sparkle: a verified model of its arithmetic, cryptography, framing and audio buffer

Sparkle is a peer-to-peer VPN. This project models, in Dafny, the parts of it that have something hard to get right:

- the multi-precision integers of `libsparkle/crypto/bignum.c`: limb vectors changed in place, from the carry loops up to
  long division, Montgomery multiplication, sliding-window exponentiation, the binary gcd, the modular inverse and the
  primality test (`Limbs.dfy`, `Bits.dfy`, `Mpi.dfy`, `MulAdd.dfy`, `AddSub.dfy`, `Mul.dfy`, `Shift.dfy`, `Div.dfy`,
  `Mod.dfy`, `Montgomery.dfy`, `ExpMod.dfy`, `InverseSteps.dfy`, `InverseSafety.dfy`, `GcdInv.dfy`, `Randomness.dfy`,
  `Primality.dfy`, `Carmichael.dfy`, `Binary.dfy`);
- the number theory that RSA rests on, proved from the definitions: Fermat's little theorem, the Chinese remainder theorem
  and the RSA identity (`Arithmetic.dfy`, `NumberTheory.dfy`, `RsaTheory.dfy`);
- RSA as in `libsparkle/crypto/rsa.c` (key generation, key checks, the public and the CRT private operation, PKCS #1 v1.5
  encryption and signatures, sections 7.2, 8.2 and 9.2 of RFC 8017) and the block chunking of `libsparkle/RSAKeyPair.cpp`
  (`Rsa.dfy`, `RsaKeyGen.dfy`, `Pkcs1.dfy`, `Pkcs1Sign.dfy`, `DigestInfo.dfy`, `RsaKeyPair.dfy`);
- Blowfish with its key schedule, the padded multi-block wrapper and the encrypted framing of the link layer
  (`Blowfish.dfy`, `BlowfishKey.dfy`, `BlowfishReference.dfy`, `LinkLayer.dfy`);
- the single-producer, single-consumer ring buffer of `sippy/multimedia/qaudio_mac_p.h`, as interleaved steps of two
  threads (`RingBuffer.dfy`).

A number is an object of class `Mpi` with a sign and a sequence of 64-bit limbs, least significant first. `Val` gives the
natural number of a limb vector; every operation is specified by what it does to these numbers. The upper layers use
nothing but those contracts. The random number generator is a stream of bytes with a position: candidates for primes and
bases of the primality test are functions of the bytes that were drawn. `dafny verify dfyconfig.toml` checks the whole project.

## What the code does that its documentation does not say

- `mpi_add_abs` (`libsparkle/crypto/bignum.c:707-716`): the carry loop advances `i` but not its limb pointer, so a carry
  that runs through an all-ones limb is lost if the destination has further limbs. The model keeps the loop. `CarryStalls`
  says, from the operands, exactly when this happens, the contracts of the adders are equivalences with that condition, and
  `CarryStallsHere` is a concrete sum that comes out wrong. The parameter `mended` (off unless given) repairs the loop.
  Division, multiplication, gcd, exponentiation and the RSA operations never meet the condition, which is proved.
- `mpi_inv_mod` can meet it. `InverseRun` describes the whole run as a function of A mod N and N, lost carries included;
  `InvMod` is proved to return exactly the outcome of that run, and a run without a lost carry ends with the inverse
  (`RunInverts`). No run loses a carry if 2·N·bitlength(N) < 2^128, in particular for every N of at most 120 bits
  (`SafeRun`, `SafeBits`), nor with the repaired loop. For N = 2^128 + 5 and A = 2^127 + 2, which are coprime, a run does:
  the call answers 0, and A times the result is not 1 modulo N (`FailingRun`, `InvModFails`).
  The converse is false: for 2^128 modulo 2^128 + 1 the second coefficient loses a carry and the result is the inverse all
  the same (`ForgivingRun`). What key generation
  promises of D and QP hangs on the two runs for E modulo (P-1)(Q-1) and Q modulo P (`KeyExact`).
- The search of `mpi_gen_prime` adds 2 with the same adder. It stays exact if and only if no step crosses a multiple of
  2^128 while the number has more than two limbs (`Reaches`, an equivalence in the contract of `GenPrime`); `NextCandidateStalls` is a step that goes wrong.
- A generator that supplies nothing but zeros makes `mpi_gen_prime` start from 3, whatever nbits is (`ThreeIfZeros`). From
  any other start the prime has at least nbits bits, if no step lost a carry or nbits is above 128 (`FoundSize`). So both
  factors of a generated key have at least half the bits of the modulus under these conditions (`ProperSearches`).
- `mpi_add_abs` with one object for all three arguments doubles every limb and never sees a carry, because it compares a
  limb with itself. The sum is right if and only if every limb is below 2^63 (`DoubledExact`, `DoublingLosesTheCarry`).
- `mpi_div_mpi` reads the signs of A and B after it has stored the quotient, and A after both outputs. `QuotientKept` and
  `RemainderKept` say exactly which aliasings are right, `QuotientOverwritesSign` is one that is not. `mpi_mod_mpi` in the
  place of a negative A at least as large as N answers the remainder of the absolute value (`SignIsLost`, `LostSignExact`).
- `mpi_exp_mod` reduces a negative A only if it has fewer significant limbs than N; otherwise its sign is ignored (`BaseOf`).
- `mpi_cmp_mpi` (line 642) weighs a longer second operand with the sign of the first one. `CmpMpi` is right if and only if
  `Comparable` holds; `CmpMpiMisjudges` is a concrete pair that it orders wrongly. A zero stored with a negative sign is
  the one operand that `mpi_mod_mpi` therefore gets wrong (`ModMisjudges`).
- `mpi_gcd` answers 0 for B = 0 instead of A (`BinaryGcdExact`, `GcdMisses`).
- `mpi_is_prime` reads the number of trailing zeros of W before W is set (line 1715). So s is 0, the squaring loop of the
  Miller-Rabin test is never entered, and a round is a single power with exponent |X| - 1. Its early returns leave a
  positive sign behind. A Carmichael number without a factor up to 997 is therefore accepted if and only if all bases are
  coprime to it (`CarmichaelVerdict`); 5781222721 = 1033·1549·3613 is one (`LiarIsCarmichael`, `LiarAccepted`).
- `mpi_shift_r` with a negative count, which `mpi_is_prime` can cause, shifts by the count modulo 64 (`ShiftAmount`).
- `rsa_pkcs1_verify` takes 34 raw bytes for an MD DigestInfo (line 558), so it rejects its own signature of such bytes
  unless they start like one (`OwnDigestAccepted`). Byte 13 of such a payload is cleared before the comparison, so its
  value does not matter (`RawByteIgnored`).
- `rsa_pkcs1_verify` takes the number of hash bytes that it compares for SHA-2 from the payload (lines 591-602). A payload
  that declares a shorter digest is accepted if that many bytes agree; one that declares no bytes is accepted for every
  hash (`EmptyDigestAccepted`). `AcceptedExactly` characterises the accepted payloads of every hash algorithm, and
  `AcceptedIsOwn` says which of them are the code's own encoding.

## Model

| member | source | states |
|---|---|---|
| MpiCore.Copy | libsparkle/crypto/bignum.c:127-149 | the copy has the value and sign of the original and keeps only its significant limbs (at least one), cleared above; copying to itself changes nothing |
| MpiCore.Grow | libsparkle/crypto/bignum.c:99-122 | the limb count becomes the larger of the two, new limbs are zero and the value stays |
| MpiCore.Lset | libsparkle/crypto/bignum.c:166-179 | the number becomes the given int, at any number of limbs |
| MpiCore.Swap | libsparkle/crypto/bignum.c:154-161 | signs and limbs are exchanged |
| MpiCore.CmpAbs | libsparkle/crypto/bignum.c:596-621 | the answer is the sign of the difference of absolute values, for any lengths and leading zero limbs |
| MpiCore.CmpMpi | libsparkle/crypto/bignum.c:626-654 | the answer is the sign of the difference if and only if the second operand is not longer or the signs agree; otherwise it is the sign of X negated |
| MpiCore.CmpMpiMisjudges | libsparkle/crypto/bignum.c:642-642 | 1 is declared smaller than -2^64 |
| MpiCore.CmpInt | libsparkle/crypto/bignum.c:659-670 | exact comparison with an int, except for a zero against an int of the other sign, where the answer is the negated sign |
| MulAdd.CoreDouble | libsparkle/crypto/bn_mul.h:689-695 | carry and limb together are s·b + d + c: no intermediate carry is lost |
| MulAdd.CoreHalf | libsparkle/crypto/bn_mul.h:708-720 | the half-limb form gives the same equation from four half products |
| MulAdd.BothCores | libsparkle/crypto/bn_mul.h:684-723 | the two portable forms give the same limb and the same carry on every input |
| AddSub.AddCarry | libsparkle/crypto/bignum.c:707-716 | what the carry loop adds to the number, including the run through an all-ones limb where the pointer stays behind |
| AddSub.AddAbs | libsparkle/crypto/bignum.c:675-721 | X = abs A + abs B less exactly what a lost carry takes away, for every aliasing; in place X grows only as far as the sum needs |
| AddSub.DoubledExact | libsparkle/crypto/bignum.c:699-705 | one object for all three arguments is doubled if and only if every limb is below 2^63 |
| AddSub.DoublingLosesTheCarry | libsparkle/crypto/bignum.c:699-705 | 2^63 doubled in place comes out as 0 |
| AddSub.CarryStallsHere | libsparkle/crypto/bignum.c:707-716 | 6·2^128 - 1 plus 1 in place comes out as 5·2^128 + 2^64 |
| AddSub.SubHlp | libsparkle/crypto/bignum.c:726-742 | the difference of the limb vectors; the borrow loop, which has no bound of its own, ends inside D |
| AddSub.SubAbs | libsparkle/crypto/bignum.c:747-784 | X = abs A - abs B for every aliasing; the error exactly if abs A < abs B, with X then unchanged |
| AddSub.AddMpi | libsparkle/crypto/bignum.c:789-815 | X = A + B if and only if the signs differ or no carry is lost, for every aliasing; sign, and length in place, in all cases |
| AddSub.SubMpi | libsparkle/crypto/bignum.c:820-846 | X = A - B if and only if the signs agree or no carry is lost, for every aliasing; sign, and length in place, in all cases |
| AddSub.AddInt | libsparkle/crypto/bignum.c:851-862 | the sum with an int, exact if and only if the signs differ or no carry stalls |
| AddSub.SubInt | libsparkle/crypto/bignum.c:867-878 | the difference with an int, exact if and only if the signs agree or no carry stalls; the value also where one is lost |
| Mul.MulHlp | libsparkle/crypto/bignum.c:883-942 | D from offset off on grows by b times S; lower limbs stay, and the carry tail ends inside D whenever the sum fits |
| Mul.MulRows | libsparkle/crypto/bignum.c:968-972 | the rows added from the top limb of B down make the product, inside the limbs grown for it |
| Mul.MulMpi | libsparkle/crypto/bignum.c:947-978 | X = A·B, signed, for all operands and every aliasing |
| Mul.MulInt | libsparkle/crypto/bignum.c:983-994 | the product with one limb |
| Shift.Msb | libsparkle/crypto/bignum.c:199-212 | the number of bits of the absolute value |
| Shift.Lsb | libsparkle/crypto/bignum.c:184-194 | the exponent of the largest power of two that divides the number; 0 for zero |
| Shift.ShiftL | libsparkle/crypto/bignum.c:507-551 | multiplication by 2^count, with the limb count that it leaves |
| Shift.ShiftR | libsparkle/crypto/bignum.c:556-591 | division by 2^count without remainder, also for counts beyond the length and for negative counts as C computes them |
| Binary.ReadBinary | libsparkle/crypto/bignum.c:465-482 | the number of a big-endian byte string, for any leading zeros |
| Binary.WriteBinary | libsparkle/crypto/bignum.c:487-502 | the big-endian form in exactly buflen bytes, or the error if and only if the number does not fit; bytes behind stay |
| Binary.RoundTrip | libsparkle/crypto/bignum.c:465-502 | exporting and importing a number gives it back whenever it fits |
| Binary.NumberBytes | libsparkle/crypto/bignum.c:487-502 | encoding the number of a byte string at its length gives the string back |
| Div.TruncDivision | libsparkle/crypto/bignum.c:999-1155 | the quotient and remainder used as specification: a = q·b + r, abs r < abs b, r zero or with the sign of a |
| Div.FirstEstimate | libsparkle/crypto/bignum.c:1047-1060 | the double-width estimate is never below the true quotient digit |
| Div.DigitClose | libsparkle/crypto/bignum.c:1104-1119 | a digit that passes the three-limb test is at most one too large, and then the remainder is not zero |
| Div.CorrectEstimate | libsparkle/crypto/bignum.c:1104-1119 | the correction loop ends with the true digit or one above it, although both the increment and the decrements may wrap |
| Div.SubtractDigit | libsparkle/crypto/bignum.c:1121-1131 | one add-back always suffices: afterwards the digit is the true one and the remainder is exact |
| Div.QuotientLoop | libsparkle/crypto/bignum.c:1045-1132 | after every digit the dividend is the remainder plus divisor times the quotient built so far |
| Div.DivMpi | libsparkle/crypto/bignum.c:999-1155 | for all A and all B other than 0, each output optional or in the place of an operand: Q and R are quotient and remainder if and only if the operand that an output replaces leaves the signs right (QuotientKept, RemainderKept); the error exactly for B = 0 |
| Div.QuotientOverwritesSign | libsparkle/crypto/bignum.c:1134-1138 | -7 divided by 2 in place comes out as 3 |
| Mod.ModMpi | libsparkle/crypto/bignum.c:1180-1198 | R = A mod B in [0, B) if and only if A is not a zero with a negative sign, and -B for that one; in the place of a negative A with abs A at least B the remainder of abs A; the errors for zero and negative B |
| Mod.LostSignExact | libsparkle/crypto/bignum.c:1140-1148 | that remainder is A mod B if and only if it is 0 or half of B |
| Mod.ModLosesSign | libsparkle/crypto/bignum.c:1180-1198 | -7 modulo 5 in place comes out as 2 |
| Mod.ModMisjudges | libsparkle/crypto/bignum.c:1192-1193 | a zero with a negative sign modulo 5 comes out as -5 |
| Mod.ModInt | libsparkle/crypto/bignum.c:1203-1255 | the remainder in [0, b) of a signed number, from half limbs; the errors for zero and negative b |
| Montgomery.NewtonDoubles | libsparkle/crypto/bignum.c:1264-1270 | each Newton step doubles the number of correct low bits |
| Montgomery.MontgInit | libsparkle/crypto/bignum.c:1260-1273 | mm is -N^-1 modulo 2^64 for every odd N |
| Montgomery.MontLoop | libsparkle/crypto/bignum.c:1289-1301 | after every digit the running value times the power of the base is congruent to the partial product and stays below N + B |
| Montgomery.MontMul | libsparkle/crypto/bignum.c:1278-1310 | A·B·R^-1 mod N, reduced below N by one conditional subtraction |
| Montgomery.MontRed | libsparkle/crypto/bignum.c:1315-1324 | A·R^-1 mod N, reduced below N |
| ExpMod.RepProduct | libsparkle/crypto/bignum.c:1371-1384 | the Montgomery product of representatives of two powers represents the power with the sum of the exponents |
| ExpMod.FillTable | libsparkle/crypto/bignum.c:1386-1409 | entry i of the window table holds A^i for every index that a full window can have |
| ExpMod.OneBit | libsparkle/crypto/bignum.c:1429-1470 | one exponent bit in any state of the window automaton appends it to the part of the exponent that is accounted for |
| ExpMod.ScanExponent | libsparkle/crypto/bignum.c:1417-1471 | after all bits, X holds A to the exponent without the unfinished window, whose bits are the rest of E |
| ExpMod.FinishWindow | libsparkle/crypto/bignum.c:1476-1484 | the remaining bits are applied one by one |
| ExpMod.ExpModMpi | libsparkle/crypto/bignum.c:1329-1501 | X = A^E mod N for every odd N > 0 and every E, X possibly A, with the cache absent, empty or filled by an earlier call; a negative A counts as A mod N if it has fewer significant limbs than N and as abs A otherwise; the error exactly for negative or even N |
| GcdInv.GcdPass | libsparkle/crypto/bignum.c:1527-1542 | one pass keeps the divisor and makes the sum of the two numbers smaller |
| GcdInv.GcdMpi | libsparkle/crypto/bignum.c:1506-1552 | the greatest common divisor of the absolute values for every B other than 0, and 0 for B = 0 |
| GcdInv.BinaryGcdExact | libsparkle/crypto/bignum.c:1506-1552 | that result is the greatest common divisor if and only if B is not 0 or both arguments are 0 |
| GcdInv.GcdMisses | libsparkle/crypto/bignum.c:1506-1552 | gcd(6, 0) comes out as 0 |
| InverseSteps.LossOfLimbs | libsparkle/crypto/bignum.c:699-716 | what an addition in place loses is a function of the two numbers and the limb count alone |
| InverseSteps.HalvingExact | libsparkle/crypto/bignum.c:1588-1600 | Bezout's identity survives a halving, and the halved coefficients are even after the correction |
| InverseSteps.PassKeeps | libsparkle/crypto/bignum.c:1586-1628 | a pass keeps coprimality, both Bezout identities unless a carry is lost, and loses none with the repaired loop |
| InverseSteps.RunInverts | libsparkle/crypto/bignum.c:1576-1629 | a run that loses no carry ends with an inverse of ta modulo n, and with the repaired loop every run does |
| InverseSafety.SafeRun | libsparkle/crypto/bignum.c:1576-1629 | with the adder as written no run loses a carry if 2·n·bitlength(n) is below the squared base: the coefficients grow by at most n/2 per subtraction, of which there are fewer than bits in both numbers |
| InverseSafety.SafeBits | libsparkle/crypto/bignum.c:1557-1645 | every modulus of at most 120 bits meets that condition |
| InverseSafety.StrippedWide | libsparkle/crypto/bignum.c:1588-1600 | k halvings in closed form: (c1 + m·n) / 2^k and (c2 - m·ta) / 2^k |
| InverseSafety.FailingRun | libsparkle/crypto/bignum.c:1557-1645 | for 2^127 + 2 modulo 2^128 + 5, which are coprime, the fourth pass loses a carry and the outcome is not an inverse |
| InverseSafety.ForgivingRun | libsparkle/crypto/bignum.c:1576-1635 | for 2^128 modulo 2^128 + 1 the second coefficient loses a carry, and the outcome is the inverse all the same |
| GcdInv.HalveWhileEven | libsparkle/crypto/bignum.c:1588-1600 | the halving loop on limbs computes the halving loop on numbers, lost carries and limb counts included |
| GcdInv.InversePass | libsparkle/crypto/bignum.c:1586-1628 | one pass of the main loop on limbs is one pass of the run on numbers; its flags say whether a carry was lost |
| GcdInv.RaiseCoefficient | libsparkle/crypto/bignum.c:1631-1632 | the loop that adds N ends with a non-negative coefficient of the same residue; a negative multiple of N ends as a zero with a negative sign |
| GcdInv.SettleCoefficient | libsparkle/crypto/bignum.c:1631-1635 | both last loops leave the coefficient modulo N, but -N for a negative multiple of N |
| GcdInv.InvMod | libsparkle/crypto/bignum.c:1557-1645 | success exactly if gcd(A, N) = 1, for every N > 1; then X is the outcome of the run on A mod N and N, and in [0, N) with A·X ≡ 1 mod N if that run loses no carry, which holds for every safe modulus and with the repaired adder; the errors otherwise |
| GcdInv.InvModFails | libsparkle/crypto/bignum.c:1557-1645 | the call for 2^127 + 2 modulo 2^128 + 5 answers 0 with a number that is not an inverse |
| Primality.PrimePasses | libsparkle/crypto/bignum.c:1743-1750 | a prime passes the power test for every base below it (Fermat's little theorem) |
| Primality.TrialExact | libsparkle/crypto/bignum.c:1698-1709 | up to 997 the trial division alone tells the odd primes |
| Primality.TrialKeepsPrimes | libsparkle/crypto/bignum.c:1698-1709 | no prime is rejected by the table |
| Primality.TableComplete | libsparkle/crypto/bignum.c:1647-1670 | the table holds every odd prime up to 997 |
| Primality.UndecidedExactly | libsparkle/crypto/bignum.c:1698-1709 | an odd number goes on to the power test if and only if it is above 997 and no odd prime up to 997 divides it |
| Primality.RoundBands | libsparkle/crypto/bignum.c:1724-1726 | 27, 18, 12, 8, 4, 3 or 2 rounds, each exactly in its band of bit lengths; never more for more bits |
| Primality.PickBase | libsparkle/crypto/bignum.c:1733-1741 | the base is a function of the 8·n bytes drawn, read least significant first, shifted to one bit less than abs X - 1, with the two lowest bits set; at least 3 and below abs X - 1 |
| Primality.PowerRound | libsparkle/crypto/bignum.c:1728-1750 | a round passes if and only if base^(abs X - 1) mod abs X is 1 or abs X - 1 |
| Primality.IsPrime | libsparkle/crypto/bignum.c:1675-1785 | the verdict as a condition on the value and the bases, each base being the function of its bytes of the generator; an answer of 0 above 997 means as many passing bases as the band of the bit length says, 27 up to 149 bits down to 2 from 1300 on; which returns leave the sign positive |
| Primality.PrimesAccepted | libsparkle/crypto/bignum.c:1675-1785 | that verdict is 0 for every prime, whatever bases were drawn |
| Primality.SmallVerdictExact | libsparkle/crypto/bignum.c:1675-1785 | up to 997 the verdict is exact |
| Primality.GenPrime | libsparkle/crypto/bignum.c:1790-1826 | the result is an odd number that the test accepted; the first candidate is the function of the bytes drawn at the position of the generator, with nbits bits (or 3); the result is the first accepted one in steps of 2 and no prime is passed over if and as long as no carry is lost, which is so if and only if no step crosses a multiple of 2^128 in more than two limbs |
| Primality.FirstCandidate | libsparkle/crypto/bignum.c:1802-1815 | the drawn number shifted to nbits bits, with the two lowest bits set |
| Primality.ThreeIfZeros | libsparkle/crypto/bignum.c:1807-1815 | that is 3 if and only if all bytes drawn are zero |
| Primality.FoundSize | libsparkle/crypto/bignum.c:1790-1826 | a number found from another start is at least 2^(nbits - 1), if no carry was lost or nbits is above 128 |
| Primality.NextCandidateStalls | libsparkle/crypto/bignum.c:1820-1826 | 2·2^128 - 1 is followed by 2^128 + 2^64 + 1 |
| Carmichael.PassesIfCoprime | libsparkle/crypto/bignum.c:1728-1771 | a Carmichael number passes a round if and only if the base is coprime to it |
| Carmichael.CarmichaelVerdict | libsparkle/crypto/bignum.c:1675-1785 | an odd Carmichael number without a factor up to 997 is accepted if and only if all bases that were drawn are coprime to it |
| Carmichael.Korselt | libsparkle/crypto/bignum.c:1743-1750 | a product of three different primes whose predecessors divide its own predecessor is a Carmichael number |
| Carmichael.LiarAccepted | libsparkle/crypto/bignum.c:1675-1785 | the composite 5781222721 can be accepted |
| RsaTheory.RsaIdentity | libsparkle/crypto/rsa.c:222-276 | m^(DE) ≡ m modulo N for every m below N, multiples of the primes included |
| RsaTheory.PrivateUndoesPublic | libsparkle/crypto/rsa.c:188-276 | (m^E mod N)^D mod N = m (section 5.1 of RFC 8017) |
| RsaTheory.PublicUndoesPrivate | libsparkle/crypto/rsa.c:188-276 | (m^D mod N)^E mod N = m (section 5.2 of RFC 8017) |
| RsaTheory.CrtIsPower | libsparkle/crypto/rsa.c:248-262 | recombining the powers modulo P and Q gives m^D mod N, below N |
| Rsa.RsaContext.Public | libsparkle/crypto/rsa.c:188-217 | output is input^E mod N in len bytes, also in place; each error code exactly in its case, with the output then unchanged |
| Rsa.RsaContext.CrtPower | libsparkle/crypto/rsa.c:248-262 | the CRT computation on numbers for odd P and Q; the error exactly if one is even |
| Rsa.Recombine | libsparkle/crypto/rsa.c:254-262 | T2 + ((T1 - T2)·QP mod P)·Q: the one addition of non-negative numbers never meets a stalled carry |
| Rsa.RsaContext.Private | libsparkle/crypto/rsa.c:222-276 | output is the CRT value of input in len bytes, also in place; each error code exactly in its case, an even P or Q included |
| Rsa.CrtIsPrivatePower | libsparkle/crypto/rsa.c:222-276 | for a valid key that value is input^D mod N |
| Rsa.EncryptDecrypt | libsparkle/crypto/rsa.c:188-276 | the private operation undoes the public one without error on every block below N |
| Rsa.SignVerify | libsparkle/crypto/rsa.c:188-276 | the public operation undoes the private one without error on every block below N |
| Rsa.RsaContext.CheckPublicKey | libsparkle/crypto/rsa.c:127-145 | 0 if and only if N and E are present and odd, N has 128 to 4096 and E 2 to 64 bits |
| Rsa.RsaContext.CheckPrivateKey | libsparkle/crypto/rsa.c:150-183 | for all numbers and signs: 0 if and only if the public part passes, N = PQ, the product h of the two predecessors as the subtraction leaves them is positive, DE ≡ 1 mod h and gcd(E, h) = 1 |
| Rsa.PositiveEquations | libsparkle/crypto/rsa.c:163-173 | with positive signs these are N = PQ, DE ≡ 1 mod (P-1)(Q-1) and gcd(E, (P-1)(Q-1)) = 1 |
| RsaKeyGen.KeySearch | libsparkle/crypto/rsa.c:73-96 | the loop ends only with N, P - 1, Q - 1 and H of the final P > Q, never on a stale G |
| RsaKeyGen.PickPrimes | libsparkle/crypto/rsa.c:75-82 | two accepted numbers, each from its own search that starts at (nbits + 1) / 2 bits drawn from the generator, the larger one in P |
| RsaKeyGen.SearchesFit | libsparkle/crypto/rsa.c:75-79 | two such numbers have at least (nbits + 1) / 2 bits each, if the generator did not supply zeros only and, for nbits up to 256, no carry was lost |
| RsaKeyGen.Derive | libsparkle/crypto/rsa.c:104-107 | D, DP, DQ and QP; D and QP are the outcomes of their runs, and the equations hold if these two runs lose no carry; failure exactly if P and Q have a common factor |
| RsaKeyGen.GenKey | libsparkle/crypto/rsa.c:57-122 | a result of 0 means candidates P > Q, each found from (nbits + 1) / 2 drawn bits and then at least 2^((nbits + 1) / 2 - 1), N = PQ with msb(N) = nbits and E coprime to (P-1)(Q-1), and all further equations if the runs of the two inverses lose no carry (always with the repaired loop); the input error exactly for a missing generator, nbits below 128 or an exponent below 3; otherwise the combined error code and an emptied context |
| RsaKeyGen.GeneratedPasses | libsparkle/crypto/rsa.c:57-183 | a generated key meets the conditions of the private key check if and only if nbits is at most 4096 |
| RsaKeyGen.SearchedPasses | libsparkle/crypto/rsa.c:57-183 | a key whose private exponent is the outcome of its run meets the conditions of the check if and only if nbits is at most 4096 and that outcome is an inverse |
| RsaKeyGen.ExactHolds | libsparkle/crypto/rsa.c:104-183 | the outcome is an inverse if the run loses no carry |
| RsaKeyGen.GenKeyThenCheck | libsparkle/crypto/rsa.c:57-183 | generating, with the adder as written or repaired, and then checking: the check answers 0 if and only if nbits is at most 4096 and the run for D ends with an inverse of E, which it does if it loses no carry |
| RsaKeyGen.GeneratedPartners | libsparkle/crypto/rsa.c:57-122 | with prime candidates a generated key is valid and ready for every operation below |
| Pkcs1.PadMessage | libsparkle/crypto/rsa.c:293-312 | 00 02, at least eight arbitrary non-zero bytes, 00 and the message (section 7.2.1 of RFC 8017) |
| Pkcs1.BlockBelow | libsparkle/crypto/rsa.c:300-301 | every block that starts with 00 is below every modulus of its length |
| Pkcs1.UnpadBlock | libsparkle/crypto/rsa.c:349-365 | taking off the padding of such a block gives the message, whatever the padding bytes are |
| Pkcs1.UnpadExactly | libsparkle/crypto/rsa.c:355-365 | a block gives a message if and only if it is 00 02, non-zero bytes, 00 and that message |
| Pkcs1.StripExactly | libsparkle/crypto/rsa.c:349-374 | the answer is 0 if and only if the block is such a one, the message has at most max bytes and the context has this padding |
| Pkcs1.Encrypt | libsparkle/crypto/rsa.c:281-322 | the error codes in their cases; otherwise some padded block of the message under the chosen operation |
| Pkcs1.Decrypt | libsparkle/crypto/rsa.c:327-379 | the answer for every input as a function of its number; if it is 0 the block after the operation is 00 02, non-zero bytes, 00 and the message that is stored; otherwise the output is unchanged |
| Pkcs1.DecryptsBlock | libsparkle/crypto/rsa.c:281-379 | what was encrypted from a padded block is decrypted to its message without error |
| Pkcs1Sign.Sign | libsparkle/crypto/rsa.c:384-505 | the error codes in their cases; otherwise the block 00 01 FF... 00 with the DER header and the hash, under the chosen operation |
| Pkcs1Sign.PutDigest | libsparkle/crypto/rsa.c:448-500 | table, hash and patches together are the encoding of the digest, and no other byte changes |
| Pkcs1Sign.PayloadOfBlock | libsparkle/crypto/rsa.c:533-549 | a block yields a payload if and only if it is the signature block of that payload |
| Pkcs1Sign.OwnDigestAccepted | libsparkle/crypto/rsa.c:556-610 | the code's own encoding is accepted, except 34 raw bytes that do not start like an MD header: both directions |
| Pkcs1Sign.AcceptedExactly | libsparkle/crypto/rsa.c:556-610 | the comparison answers 0 if and only if the payload is the encoding for MD, SHA-1 and raw data, for SHA-2 the table with some digest length c and the first c bytes of the hash, for 34 raw bytes the hash up to byte 13 |
| Pkcs1Sign.EmptyDigestAccepted | libsparkle/crypto/rsa.c:586-602 | a SHA-2 payload that declares no digest bytes is accepted for every hash |
| Pkcs1Sign.RawByteIgnored | libsparkle/crypto/rsa.c:556-562 | byte 13 of 34 raw bytes does not matter |
| Pkcs1Sign.AcceptedIsOwn | libsparkle/crypto/rsa.c:556-610 | an accepted payload has the length of the code's own encoding, and is it if and only if a SHA-2 payload declares the full digest length and 34 raw bytes have a zero at index 13 |
| Pkcs1Sign.BlockAcceptedExactly | libsparkle/crypto/rsa.c:533-611 | the accepted blocks are the signature blocks of accepted payloads and no others |
| Pkcs1Sign.CheckDigest | libsparkle/crypto/rsa.c:556-610 | the comparisons that overwrite bytes of the buffer answer as the functional description does |
| Pkcs1Sign.Verify | libsparkle/crypto/rsa.c:510-611 | the answer for every signature as a function of its number |
| Pkcs1Sign.SignedIsVerified | libsparkle/crypto/rsa.c:384-611 | a signature by the private key is accepted under the public one, with the one exception, for every hash algorithm |
| Pkcs1Sign.SignThenVerify | libsparkle/crypto/rsa.c:384-611 | the two methods run one after the other, on separate contexts or one |
| DigestInfo.SignedDigestReads | libsparkle/crypto/rsa.c:448-500 | for each of the eight hash algorithms, a DER reader that knows none of the tables reads header and hash as its object identifier, given by its arcs, and exactly the hash (appendix B.1 of RFC 8017) |
| DigestInfo.AcceptedReads | libsparkle/crypto/rsa.c:556-610 | an accepted payload that declares the full length reads as the same object identifier and the hash |
| DigestInfo.SignatureBlockBytes | libsparkle/crypto/rsa.c:440-443 | the signature block byte by byte: 00 01, 255 up to the zero in front of the payload, the payload |
| RsaKeyPair.KeyPair.Generate | libsparkle/RSAKeyPair.cpp:69-73 | a new key with exponent 65537, its factors from searches at half the bits, its equations exact if the runs of the two inverses lose no carry; with prime candidates it is then a usable private key |
| RsaKeyPair.NewPair | libsparkle/RSAKeyPair.cpp:69-73 | a new pair with a new key: with prime candidates and no lost carry it can encrypt and decrypt |
| RsaKeyPair.KeyPair.Encrypt | libsparkle/RSAKeyPair.cpp:201-224 | the output is an encryption of the plaintext, block by block, for some choice of the padding |
| RsaKeyPair.KeyPair.Decrypt | libsparkle/RSAKeyPair.cpp:226-250 | for every ciphertext: if its whole blocks encrypt a string, the output starts with that string, and is it if there is no incomplete last block |
| RsaKeyPair.RoundTrip | libsparkle/RSAKeyPair.cpp:201-250 | decryption undoes encryption for every byte string of any length, every padding and every valid key of 16 to 1024 bytes |
| RsaKeyPair.BlockCount | libsparkle/RSAKeyPair.cpp:201-224 | a string of m bytes becomes as many blocks as m bytes need at len - 11 each, rounded up |
| Blowfish.Mirror | libsparkle/crypto/blowfish.c:297-424 | after j rounds decryption holds what encryption held before its last j rounds, whitened |
| Blowfish.DecipherEnciphered | libsparkle/crypto/blowfish.c:297-424 | decryption undoes encryption for all subkeys and every round function |
| Blowfish.EncipherDeciphered | libsparkle/crypto/blowfish.c:297-424 | encryption undoes decryption |
| Blowfish.RoundFunction | libsparkle/crypto/blowfish.c:276-281 | the round function is the one solution of an equation: taking off the entry of s3 and exclusive-oring the entry of s2 leaves the sum of the entries of s0 and s1, each at its byte of x |
| BlowfishReference.XorBitwise | libsparkle/crypto/blowfish.c:276-282 | bit k of the exclusive or is the sum of the bits k modulo 2 |
| BlowfishReference.EncipherIsLine | libsparkle/crypto/blowfish.c:297-358 | encryption is a recurrence of one line of values, each from the two before it and the next subkey |
| Blowfish.BlowfishContext.DoEncrypt | libsparkle/crypto/blowfish.c:297-358 | the sixteen rounds and the final whitening compute the cipher of the network with the round function of the tables |
| Blowfish.BlowfishContext.DoDecrypt | libsparkle/crypto/blowfish.c:362-424 | the same with the subkeys from 17 down |
| Blowfish.BlockDecrypts | libsparkle/crypto/blowfish.c:430-470 | on eight bytes, decryption undoes encryption for all contents of the tables |
| BlowfishReference.BlockIsNumbers | libsparkle/crypto/blowfish.c:430-445 | a block of eight bytes is two numbers, most significant byte first, before and after the cipher, in both directions |
| Blowfish.BlowfishContext.SetKey | libsparkle/crypto/blowfish.c:480-554 | the tables become the schedule of the key; -1 if and only if an S-box has two equal entries |
| Blowfish.RepeatedKey | libsparkle/crypto/blowfish.c:499-517 | a key and its repetition have the same schedule: key bytes are read cyclically |
| BlowfishReference.FourByteKey | libsparkle/crypto/blowfish.c:499-513 | a key of four bytes changes every subkey by its number, most significant byte first |
| BlowfishReference.ScheduleIsChain | libsparkle/crypto/blowfish.c:515-540 | filling the five tables one after the other is one chain of 521 encryptions through the 1042 words of all tables |
| BlowfishReference.SchedulePairs | libsparkle/crypto/blowfish.c:515-540 | in the schedule, every pair of words is the encryption of the pair in front of it under the finished words before it and the old ones from it on |
| BlowfishReference.FirstSubkeys | libsparkle/crypto/blowfish.c:515-520 | the first two subkeys are the encryption of a block of zeros under the subkeys changed by the key |
| BlowfishKey.Key.Encrypt | libsparkle/BlowfishKey.cpp:79-97 | whole blocks that start with the data, filled with arbitrary bytes, encrypted block by block; decrypting the output gives a string that starts with the data |
| BlowfishKey.Key.Decrypt | libsparkle/BlowfishKey.cpp:99-113 | blockwise decryption, its length for every input |
| BlowfishKey.AllDecrypts | libsparkle/BlowfishKey.cpp:79-113 | decryption undoes encryption on all strings of whole blocks |
| BlowfishReference.BlockAt | libsparkle/BlowfishKey.cpp:79-113 | every block of the output depends on the block at its place alone |
| BlowfishKey.RoundTrip | libsparkle/BlowfishKey.cpp:79-113 | the two methods one after the other: the length rounded up to a multiple of 8, the data as its prefix |
| BlowfishKey.DecryptedPrefix | libsparkle/BlowfishKey.cpp:79-113 | decrypting an encrypted string gives a string that starts with it |
| LinkLayer.Layer.SendPacket | libsparkle/LinkLayer.cpp:183-198 | one datagram with type, length and data to the node's phantom endpoint; none to the node itself |
| LinkLayer.HeaderBytes | libsparkle/LinkLayer.cpp:186-190 | the four header bytes in numerals: type and length, most significant byte first, the length modulo 2^16 |
| LinkLayer.Layer.EncryptAndSend | libsparkle/LinkLayer.cpp:229-233 | one datagram that seals the packet under the session key |
| LinkLayer.Layer.SendEncryptedPacket | libsparkle/LinkLayer.cpp:200-227 | without keys the packet is queued and a negotiation opened exactly once, by a tunnel if and only if the layer has joined, neither node is a master and skipTunnel is off, by a key exchange otherwise; with keys it is sealed and sent |
| LinkLayer.Layer.FlushQueue | libsparkle/LinkLayer.cpp:504-505 | the queued packets are sealed and sent in their order, and the queue is empty |
| LinkLayer.Layer.WrapNode | libsparkle/LinkLayer.cpp:165-181 | the first node at the endpoint, or a new one appended |
| LinkLayer.Layer.HandlePacket | libsparkle/LinkLayer.cpp:277-332 | which handler call a packet leads to, for every packet; never more than one, so the recursion stops after one level |
| LinkLayer.HandedExactly | libsparkle/LinkLayer.cpp:277-332 | for every packet, the equivalence in its bytes: which type, payload and encryption flag reach a handler |
| LinkLayer.InnerHandedExactly | libsparkle/LinkLayer.cpp:293-332 | for every decrypted string: exactly those whose length field ends them or leaves at most seven bytes, that are not of the encrypted type and have a handler |
| LinkLayer.PaddingStripped | libsparkle/LinkLayer.cpp:306-308 | block padding of any content is cut off by the length field |
| LinkLayer.SealedIsHanded | libsparkle/LinkLayer.cpp:183-332 | a sealed packet is handed over with exactly its type and payload if and only if the outer packet fits 16 bits, the type has a handler and is not the encrypted one; otherwise it is dropped |
| LinkLayer.PlainIsHanded | libsparkle/LinkLayer.cpp:183-332 | an unencrypted packet is handed over with its type and payload, if it fits 16 bits and the type has a handler for it |
| LinkLayer.Deliver | libsparkle/LinkLayer.cpp:229-332 | sending and handling between two layers that share a session key |
| RingBuffer.RegionsAreLargest | sippy/multimedia/qaudio_mac_p.h:83-114 | the two regions are characterised: empty exactly if nothing is asked for or there is no room, at the position, inside the buffer and the room, and short of the request only at the room or the end of the buffer |
| RingBuffer.QAudioRingBuffer.AcquireReadRegion | sippy/multimedia/qaudio_mac_p.h:83-94 | the largest contiguous piece of the used bytes at the read position up to the request; empty exactly if nothing is used or asked for |
| RingBuffer.QAudioRingBuffer.AcquireWriteRegion | sippy/multimedia/qaudio_mac_p.h:103-114 | the largest contiguous piece of the free bytes at the write position up to the request; empty exactly if nothing is free or asked for |
| RingBuffer.QAudioRingBuffer.ReleaseReadMove | sippy/multimedia/qaudio_mac_p.h:96-98 | the read position moves n bytes round the buffer: inside it, congruent to the old one plus n, back to 0 exactly at the end; nothing else changes |
| RingBuffer.QAudioRingBuffer.ReleaseWriteMove | sippy/multimedia/qaudio_mac_p.h:116-118 | the same for the write position |
| RingBuffer.StepKeepsInv | sippy/multimedia/qaudio_mac_p.h:83-121 | every step of either thread keeps the invariant that ties positions, count, regions and bytes together |
| RingBuffer.NeverStuck | sippy/multimedia/qaudio_mac_p.h:83-121 | each thread can always go on, and all bytes of a held region are accessible |
| RingBuffer.EveryRunIsSafe | sippy/multimedia/qaudio_mac_p.h:83-121 | over every interleaving, with partial releases: held regions never overlap, the bytes read are a prefix of the bytes written, the count stays in range, and at rest writePos ≡ readPos + used |

## Left out

- Inline assembly and SSE2 forms of the multiply-add step (`libsparkle/crypto/bn_mul.h`): foreign code; the two portable C forms are modelled, and the unrolling by 16 and 8 is one loop.
- The half-limb quotient estimate of `mpi_div_mpi` (lines 1061-1101): only the double-width estimate is modelled.
- Memory: `malloc` failure, freeing and wiping. A number's limbs are a sequence inside the object, updated limb by limb; two numbers never share a buffer, so the sharing of the cached R^2 between `_RR` and the local copy becomes a copy.
- C `int` overflow of bit and limb counts: counts are unbounded.
- DivMpi: the two outputs are different objects.
- ModMpi: R is not B, for which the source does not end.
- ExpModMpi: a negative A that does not fit the limbs of N is excluded; the source then multiplies its lower limbs only. X is not E or N.
- InvMod: N = 1 is excluded, for which the source does not end.
- GcdMpi: B has at least one limb, because the source would write through a null buffer otherwise.
- GenPrime: the search has a bound on the candidates that the source does not have, and the safe-prime variant (`dh_flag`), which nothing here calls, is not modelled.
- GenKey: the search has a bound on its passes; the result of the test is "accepted", since the test can accept composite numbers.
- The bytes that pad a message before encryption and fill up a last block are arbitrary, not tied to a generator.
- `mpi_read_string`, `mpi_write_string`, the file functions, key files and `QDataStream`: I/O.
- RsaContext.Private: QP is positive, and the numbers of the key are stored with positive signs, as all reading and generating code stores them.
- KeyPair.Decrypt: the bytes behind the end of a shorter last block, which the source reads, are arbitrary; for a rejected block the source uses an uninitialised length, modelled as arbitrary within the chunk.
- Verify: a comparison whose length byte would lead behind the block or the hash counts as unequal; the source reads there.
- SetKey: the constant tables are parameters, so every statement holds for all tables; the key is not empty, by whose length the source divides.
- Key.Decrypt: what a last incomplete block decrypts to is arbitrary; the source reads behind the end of the data.
- Layer.HandlePacket: calls of handlers are recorded, the handlers themselves (join, NAT, routes, roles), timers and logging are not modelled; a negotiation is recorded by its opening message.
- `QAudioRingBuffer::reset` while a thread is active: quiescence is assumed, as the source does.
- lwIP, sippy's dialogs, the other audio backends and the TAP device: no part of this model.

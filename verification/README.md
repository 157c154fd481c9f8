# Verified models of seven R3CTF challenge components

This project models the algorithmic cores of a set of capture-the-flag challenges in Dafny and proves what
each is for. The components are independent; each is a group of modules, one file per module.

- **Number-theoretic transform and polynomial calculator** (`ModArith`, `Machine`, `BitReversal`, `Transform`,
  `Roots`, `TransformLaws`, `Ntt`, `Polynomials`, `Calculator`, `ModulusPrime`, `Display`, `Commands`). The C array
  code is proved against the defining sum of the transform, with every 32- and 64-bit intermediate checked; the slot
  machine is a class over shared buffers, proved against polynomials. The calculator's specification keeps every
  polynomial at full length, so the lemmas say exactly when the stored values still determine it.
- **Victim-lease scheduler** (`PoolModel`, `PoolSafety`, `PoolRuns`, `PoolOrder`, `PoolFairness`, `PoolLimits`,
  `PoolFlags`, `PoolQuota`, `PoolTerms`, `PoolEdges`, `PoolEffects`, `Pool`). Operations are atomic steps on a state that
  carries its own history; clock readings are an arbitrary non-decreasing input, one per reading in the source. The
  class in `Pool` has the source's tables and loops and is proved to perform those steps; the lemmas speak about every
  run, and `PoolEffects` spells out each step field by field.
- **FHE core** (`FheCore`, `FheLaws`): multiplication by substitution into 128-bit slots, and encryption with an exact
  noise bound.
- **Number theory and elliptic curve** (`Primes`, `MillerRabin`, `Curve`, `CurveLaws`): the primality test of Appendix
  B.3.1 of FIPS 186-5 and the affine addition of section 2.2.1 of SEC 1.
- **UUID flags** (`Bits`, `Xxtea`, `BitVectors`, `XxteaKnownAnswer`, `UuidStego`, `FlagBytes`, `NetshareFlag`): two
  encoders and one decoder, over unbounded numbers as in Python; `BitVectors` shows that 32-bit machine words agree. The
  carrier taken from SHA-1 and the first keystream block of ChaCha20 (section 2.4 of RFC 8439) are arbitrary 16-byte
  inputs.
- **Trusted-hash TPM layer** (`TpmSessions`, `TpmResponses`, `ResponseLayouts`, `Der`, `Pem`, `TpmPublic`,
  `PublicKeyExample`): the session table against a chip that records the commands it carried out and whose failing
  flushes, refusals and unreadable replies are an arbitrary input; response parsers in 32-bit arithmetic
  against an independent description of the wire format (section 18 of TPM 2.0 Library Part 1 and the structures in
  Part 2); and the PEM printer against an independent strict reader (sections 8.1.3, 8.3 and 10.1 of ITU-T X.690,
  section 4 of RFC 4648).
- **Floor-Lagrange oracle and its inverter** (`Lagrange`, `LagrangeSystem`, `LagrangeBound`).

`Options` holds the shared optional value.

Some promises hold only under a condition; the condition is part of the result:

- A product of two exact calculator slots is shown with its true coefficients if and only if a factor is zero or the
  degrees add up to less than 128 (`ProductShownTrulyIff`). The whole list of da + db - 1 stored entries, trailing zeros
  included, is printed if and only if it has at most 128 entries.
- `poly_mul` is negacyclic multiplication if and only if certain carries agree. Full 64-bit operands break it; operands
  with 512 times the product of their largest coefficients below 2^128, such as the program's masks and keys, never do.
- The hourly limit and the cooldown hold in every run of every pool. Holding and waiting exclude each other in every run
  if and only if no instance has the empty string as id.
- `whisper/deploy/judge/team_flags.py:5` says that a lease for a team with no flag is refused. The code looks the flag up
  last (`whisper/deploy/judge/pool.py:152-159`), so the refusal needs a free instance (`RefusedIff`); otherwise the team
  is queued (`MissingFlagOutcome`), and a later promotion drops it and raises (`whisper/deploy/judge/pool.py:211-221`).
  That leaves an instance idle beside a waiting team exactly under the conditions of `StepStrandedIff` and
  `TickStrandedIff`. What does hold in every run is that only teams with a pushed flag are served (`OnlyFlaggedServed`).
- The solver's query for r3ticket recovers all coefficients of every oracle (`SolverQuery`); the numbers themselves are
  the only answer modulo p if and only if the solver's matrix is invertible there (`OnlySolutionIff`).
- `random_point` is only as good as its modulus: for a prime its test accepts exactly the non-zero squares, and for every
  modulus what it returns lies on the curve.
- First come, first served holds in every run but for newcomers who find an instance idle beside the queue
  (`OvertakesIff`); there are none in runs without a stranding boot.
- The TPM holds nothing but the session's AK after every sequence of calls in which the chip was present, no flush of a
  held handle failed and every new handle could be read; otherwise also what these faults lost.
- XXTEA decrypts what it encrypted, under every key, if and only if there are at least two words.
- A flag's four salt bytes are not checked when it is decoded.
- The PEM text is readable if and only if the modulus is not empty; an empty one is accepted (`EmptyModulusAccepted`).

## Model

| member | source | states |
|---|---|---|
| Ntt.ModPow | polys/source/polys.c:11-22 | square-and-multiply over 64-bit words is exponentiation modulo MOD, with no overflow |
| Ntt.AddMod | polys/source/polys.c:46-51 | adding two residues below MOD in 64 bits, where the sum can exceed 2^32, and subtracting MOD once is addition modulo MOD |
| Ntt.SubMod | polys/source/polys.c:52-55 | the same for subtraction, whose biased form never goes below zero |
| Ntt.MulMod | polys/source/polys.c:47 | a 64-bit product of two 32-bit words reduced modulo MOD never overflows and is canonical |
| BitReversal.RevInvolution | polys/source/polys.c:25-36 | reversing the bits of an index twice gives the index back |
| BitReversal.BitReversedTwice | polys/source/polys.c:25-36 | the permutation the swap loop performs is its own inverse |
| Ntt.NextReversed | polys/source/polys.c:25-30 | the carry loop takes the reversal of i - 1 to the reversal of i |
| Ntt.BitReverse | polys/source/polys.c:25-36 | swapping only when i < j leaves the array permuted by bit reversal, each pair swapped once |
| Ntt.ButterflyBlock | polys/source/polys.c:43-59 | one block becomes its butterfly with running powers of the root, stays canonical, and nothing outside the block changes |
| Ntt.Stage | polys/source/polys.c:38-61 | if every block of half the length was a whole transform before, every block of this length is one afterwards |
| Ntt.StagedAdvance | polys/source/polys.c:43-61 | a pass of butterflies turns transforms of length h of the bit-reversed input into transforms of length 2h |
| Transform.DftSplit | polys/source/polys.c:43-60 | the sum that defines the transform splits into its even and odd halves |
| Transform.DftCombine | polys/source/polys.c:43-60 | one butterfly pass over the transforms of the even and odd entries is the transform of the whole, because w^(n/2) = -1 |
| Roots.GeneratorHalfOrder | polys/source/polys.c:8 | 3^((MOD-1)/2) is -1 modulo MOD, by a chain of squarings, before anything is known about the primality of MOD |
| Roots.TwoOrder | polys/source/polys.c:64 | 2^(MOD-1) is 1 modulo MOD, the fact that makes n^(MOD-2) an inverse of n |
| Roots.WlenHalfTurn | polys/source/polys.c:39-42 | the root of every stage, forward or inverse, is -1 half way round |
| Roots.WlenInverse | polys/source/polys.c:39-42 | forward and inverse roots of one length multiply to 1 |
| Roots.LengthInverse | polys/source/polys.c:64 | n^(MOD-2) inverts every power of two n |
| TransformLaws.GeoVanishes | polys/source/polys.c:38-61 | the powers of a root of order n at a non-zero frequency sum to zero: the product of the factors 1 + x^(2^i) contains a zero |
| TransformLaws.Orthogonality | polys/source/polys.c:38-61 | rows of the forward and columns of the inverse transform are orthogonal, with length n on the diagonal |
| TransformLaws.DftInverse | polys/source/polys.c:38-69 | transforming with w and then with its inverse multiplies every entry by n |
| Ntt.Rescale | polys/source/polys.c:63-68 | every entry is multiplied by the inverse of the length |
| Ntt.NttInPlace | polys/source/polys.c:24-69 | for every power of two up to 2^27 the in-place loops leave a[k] = sum of a0[j] * w^(jk) modulo MOD, canonical, for either direction, including the final scaling |
| Ntt.ForwardMeaning | polys/source/polys.c:38-61 | entry k of the forward transform is the sum of a[j] * 3^((2281701376 / n) * j * k) modulo 2281701377, in literal numbers |
| Ntt.NttRoundTrip | polys/source/polys.c:24-69 | the inverse call after the forward call restores every canonical array |
| Polynomials.EvalProduct | polys/source/polys.c:216-218 | evaluation turns the convolution product into a product of values |
| Polynomials.EvalFold | polys/source/polys.c:216-218 | folding a polynomial modulo x^n - 1 does not change its value at an n-th root of unity |
| Calculator.ValuesAreTransform | polys/source/polys.c:183 | a slot's buffer is the transform of its polynomial reduced modulo x^128 - 1 |
| Calculator.ValuesInverse | polys/source/polys.c:270 | inverting a buffer gives exactly the reduced polynomial |
| Calculator.ValuesMul | polys/source/polys.c:216-218 | pointwise products are the values of the product polynomial |
| Calculator.ValuesAdd | polys/source/polys.c:245-251 | pointwise sums are the values of the sum polynomial |
| Calculator.AddInto | polys/source/polys.c:245-251 | the pointwise loop is right even when the destination is one of the operands |
| Calculator.MultiplyInto | polys/source/polys.c:216-218 | the pointwise loop overwrites its second operand correctly even when both operands share a buffer |
| Calculator.PolyStore.constructor | polys/source/polys.c:141-146 | all slots start empty |
| Calculator.PolyStore.ReadPoly | polys/source/polys.c:148-184 | reading replaces the slot by a fresh buffer for the typed polynomial; bad index or degree changes nothing |
| Calculator.PolyStore.MultiplyPolys | polys/source/polys.c:186-221 | on existing slots the destination becomes the product and its 8-bit length da + db - 1 wraps as in the source; no buffer becomes shared |
| Calculator.PolyStore.AddPolys | polys/source/polys.c:223-255 | the destination, fresh if it was empty, becomes the sum with the larger length; no buffer becomes shared |
| Calculator.PolyStore.ShowPoly | polys/source/polys.c:257-277 | what is printed is the prefix of the polynomial modulo x^128 - 1 that the stored length selects, clamped at 128, and the slot is untouched |
| Commands.ReadStores | polys/source/polys.c:148-184 | what a read stores: the typed coefficients modulo 2281701377, zero for numbers that could not be read, and the length |
| Commands.MultiplyStores | polys/source/polys.c:186-221 | the stored product takes at every point the product of the values of both slots |
| Commands.AddStores | polys/source/polys.c:223-255 | the stored sum takes at every point the sum of the values of both slots |
| Commands.SquaredLength | polys/source/polys.c:215 | the stored length after reading degree d and squaring n times is (d * 2^n + 1) modulo 256 |
| Commands.LengthWraps | polys/source/polys.c:215 | x^16 squared four times is stored with length 1 |
| Calculator.RunExact | polys/source/polys.c:279-300 | over every command sequence in which da + db - 1 <= 128 at each multiply, stored lengths stay the true lengths and no reduction takes place |
| Calculator.ShowAfterRun | polys/source/polys.c:257-277 | after any such run show prints the true coefficients of the slot's polynomial |
| Calculator.ProductShownIff | polys/source/polys.c:186-221 | the list of da + db - 1 entries of a product of two exact slots, trailing zeros included, is printed whole if and only if it has at most 128 entries |
| Display.CoefficientKeptIff | polys/source/polys.c:216-218 | a coefficient below 128 survives the reduction modulo x^128 - 1 if and only if the coefficient 128 places above it is zero |
| Display.ShownTrulyIff | polys/source/polys.c:257-277 | show prints true coefficients if and only if the slot's polynomial has nothing from the printed length on |
| ModulusPrime.ModPrime | polys/source/polys.c:8 | the modulus is prime, so a product of two residues that are not zero is not zero |
| Display.ProductTop | polys/source/polys.c:216-218 | the coefficient of the product at the sum of the two degrees is not zero |
| Display.ProductShownTrulyIff | polys/source/polys.c:186-277 | a product of two exact slots is shown with its true coefficients if and only if a factor is zero or the degrees add up to less than 128, whatever the stored lengths are |
| Display.WrongAfterSquarings | polys/source/polys.c:279-300 | reading x^16 and squaring the slot twice keeps it exact; one more squaring makes show print something else |
| Xxtea.RoundBijective | reference/ret2shell-external-flag-gen/uuid_stego.py:71-79 | one round over all words and its undoing are inverse to each other |
| Xxtea.RoundSumZero | reference/ret2shell-external-flag-gen/uuid_stego.py:91-103 | no multiple r * DELTA with 0 < r < 2^32 is zero modulo 2^32, so the decrypt loop stops exactly after the rounds that were run |
| Xxtea.XxteaRoundTrip | reference/ret2shell-external-flag-gen/uuid_stego.py:62-104 | decryption undoes encryption for every key and every list of at least two words |
| Xxtea.XxteaOnto | reference/ret2shell-external-flag-gen/uuid_stego.py:62-104 | and encryption undoes decryption, so each key gives a bijection |
| Xxtea.DecryptableIff | reference/ret2shell-external-flag-gen/uuid_stego.py:62-104 | lists of n words are decrypted correctly under every key if and only if n is at least two; for one word two inputs meet after the first round |
| Xxtea.XxteaEncrypt | reference/ret2shell-external-flag-gen/uuid_stego.py:62-81 | the loops that carry y and z along in place compute the round function applied 6 + 52 // length times |
| Xxtea.XxteaDecrypt | reference/ret2shell-external-flag-gen/uuid_stego.py:84-104 | the loop that waits for sum_ to reach 0 runs exactly those rounds backwards |
| BitVectors.MxOnWords | reference/ret2shell-external-flag-gen/uuid_stego.py:48-52 | for all arguments the mixing function is the 32-bit machine expression over bit-vectors, key word (p & 3) ^ ((sum >> 2) & 3) included; the unmasked arithmetic of Python agrees with it |
| BitVectors.BvXor | reference/ret2shell-external-flag-gen/uuid_stego.py:50-51 | the digit-wise XOR of unbounded numbers is the machine XOR |
| XxteaKnownAnswer.KnownAnswer | reference/ret2shell-external-flag-gen/uuid_stego.py:62-81 | the words [1, 0] under the key [1] encrypt to 0x4d673c1c, 0x074f4d5c: all 32 rounds carried out on machine words |
| UuidStego.OrLane | reference/ret2shell-external-flag-gen/uuid_stego.py:29-30 | OR-ing a shifted byte into a zero lane appends the byte, so lanes never overlap |
| UuidStego.ToU32 | reference/ret2shell-external-flag-gen/uuid_stego.py:19-31 | the OR loop packs bytes into little-endian words, zero padded |
| UuidStego.ToBytes | reference/ret2shell-external-flag-gen/uuid_stego.py:34-45 | the shift-and-mask loop unpacks words into little-endian bytes |
| UuidStego.BytesOfWords | reference/ret2shell-external-flag-gen/uuid_stego.py:19-45 | unpacking packed bytes gives them back, for whole words |
| UuidStego.WordsOfBytes | reference/ret2shell-external-flag-gen/uuid_stego.py:19-45 | packing unpacked words gives them back |
| UuidStego.UnpackPack | reference/ret2shell-external-flag-gen/uuid_stego.py:144 | the signed 64-bit id survives packing and unpacking |
| UuidStego.PackUnpack | reference/ret2shell-external-flag-gen/uuid_stego.py:185 | and every 8 bytes are the packing of the id they unpack to |
| UuidStego.SealedOpened | reference/ret2shell-external-flag-gen/uuid_stego.py:107-122 | on more than four bytes the byte-level cipher and its inverse cancel both ways, up to the zero padding of the last word |
| UuidStego.SealedCollision | reference/ret2shell-external-flag-gen/uuid_stego.py:107-122 | four bytes are too few: two blocks with one ciphertext |
| UuidStego.EncodeUuid | reference/ret2shell-external-flag-gen/uuid_stego.py:136-157 | encoding succeeds exactly for signed 64-bit ids and yields carrier, cipher and keystream combined |
| FlagBytes.PackedValue | reference/ret2shell-external-flag-gen/uuid_stego.py:144 | byte i of the packed id is digit i of its two's complement in base 256 |
| FlagBytes.FlagAt | reference/ret2shell-external-flag-gen/uuid_stego.py:148-157 | position 2i of every flag is carrier and keystream, position 2i + 1 also byte i of the cipher |
| FlagBytes.CipherOfOne | reference/ret2shell-external-flag-gen/uuid_stego.py:107-113 | the packed id 1 under the one-byte key 1 encrypts to 1c 3c 67 4d 5c 4d 4f 07 |
| FlagBytes.FlagOfOne | reference/ret2shell-external-flag-gen/uuid_stego.py:136-157 | the whole flag of id 1 under that key, byte by byte |
| UuidStego.DecodeUuid | reference/ret2shell-external-flag-gen/uuid_stego.py:163-185 | decoding reports the first broken check position, or else the id in the payload |
| FlagBytes.BrokenAt | reference/ret2shell-external-flag-gen/uuid_stego.py:177-183 | a UUID that first differs from a flag at a checked position is reported broken at that position |
| UuidStego.DecodeOfEncode | reference/ret2shell-external-flag-gen/uuid_stego.py:136-185 | for every template, key and signed 64-bit id, decoding a flag returns the id and never raises |
| UuidStego.EncodeInjective | reference/ret2shell-external-flag-gen/uuid_stego.py:136-160 | under one template and key, different ids have different flags |
| UuidStego.DecodeCharacterised | reference/ret2shell-external-flag-gen/uuid_stego.py:163-185 | a UUID decodes to t with untouched salt if and only if it is the flag of t |
| UuidStego.SaltUnchecked | reference/ret2shell-external-flag-gen/uuid_stego.py:177-182 | the four salt positions are never checked: changing them does not change the decoded id |
| NetshareFlag.XxteaEncryptBytes | netshare/kubernetes-on-demand-main/controller/kubeconfig.py:36-77 | the second implementation computes the same cipher on every non-empty byte string |
| NetshareFlag.EncodeFlag | netshare/kubernetes-on-demand-main/controller/kubeconfig.py:89-99 | the second encoder yields the same UUID for every id |
| NetshareFlag.CrossDecode | netshare/kubernetes-on-demand-main/controller/kubeconfig.py:89-111 | a flag of the second encoder is decoded by the first program's decoder |
| FheCore.Pack | encrypted-activation/attachment/fhe_core.py:43-47 | shifting and OR-ing 128-bit slots evaluates the polynomial at 2^128 |
| FheCore.ShiftedSlots | encrypted-activation/attachment/fhe_core.py:53-54 | shifting the big product right by i slots leaves the carry of the lower coefficients plus the upper coefficients |
| FheCore.NegaIsFoldedProduct | encrypted-activation/attachment/fhe_core.py:57-60 | negacyclic convolution is the raw product with its upper half subtracted |
| FheCore.FoldSlots | encrypted-activation/attachment/fhe_core.py:53-61 | the loop over all slots, skipping zeros, accumulates them with the sign of the fold |
| FheCore.PolyMulNegacyclic | encrypted-activation/attachment/fhe_core.py:49-61 | if every raw convolution sum is below 2^128, poly_mul is multiplication modulo x^512 + 1 and 2^64 |
| FheCore.PolyMulCorrectIff | encrypted-activation/attachment/fhe_core.py:49-61 | for all operands: it is correct if and only if the carries into each pair of folded slots agree modulo 2^64 |
| FheLaws.MonomialsMultiply | encrypted-activation/attachment/fhe_core.py:49-64 | x * X^s times y * X^t is x * y * X^(s + t), with X^512 = -1, modulo 2^64 |
| FheLaws.MultiplicationAdds | encrypted-activation/attachment/fhe_core.py:49-64 | the reference product is additive in both factors, so the monomials determine it |
| FheCore.SmallOperandsNegacyclic | encrypted-activation/attachment/fhe_core.py:49-61 | sizes known before the call suffice: if 512 times the product of the largest coefficients is below 2^128, poly_mul is negacyclic multiplication |
| FheCore.MaskedNegacyclic | encrypted-activation/attachment/fhe_core.py:102-106 | 64-bit masks times binary keys always meet the bound |
| FheCore.OverflowExample | encrypted-activation/attachment/fhe_core.py:49-61 | two full 64-bit operands on which poly_mul is wrong |
| FheCore.PolyAdd | encrypted-activation/attachment/fhe_core.py:37-38 | coefficientwise addition modulo 2^64 over the shorter length |
| FheCore.GlweEncrypt | encrypted-activation/attachment/fhe_core.py:102-108 | body minus the sum of mask times key is message plus noise, for every mask and binary key |
| FheLaws.MaskSumMeaning | encrypted-activation/attachment/fhe_core.py:104-106 | masks times keys: the sum over all pairs of coefficient j of their product |
| FheCore.LweEncrypt | encrypted-activation/attachment/fhe_core.py:96-100 | reducing modulo 2^64 at every step gives message plus noise plus mask times key modulo 2^64 |
| FheLaws.DotGrows | encrypted-activation/attachment/fhe_core.py:98-99 | every pair of a mask entry and a key bit adds its product, entries without a partner nothing |
| FheCore.DecryptCiphertext | encrypted-activation/attachment/fhe_core.py:159-163 | subtracting the mask terms step by step and rounding is rounding the phase modulo 2^64 |
| FheCore.MaskCancels | encrypted-activation/attachment/fhe_core.py:96-100 | what is rounded depends on message and noise only, not on mask and key |
| FheCore.RoundedPhase | encrypted-activation/attachment/fhe_core.py:163 | rounding a message plus noise gives the message shifted by the number of steps the noise crosses |
| FheCore.DecryptOfEncrypt | encrypted-activation/attachment/fhe_core.py:152-163 | decrypting an encryption gives m mod 5 if and only if the noise slips by a multiple of five steps |
| FheCore.NoiseBound | encrypted-activation/attachment/fhe_core.py:152-163 | within one turn of the torus that is the case exactly for m - 2^63 <= 5e < 2^63 + m |
| Primes.Euclid | rECp1cG/attachment/challenge.py:69-75 | a prime that divides a product divides a factor |
| Primes.RootsOfOne | rECp1cG/attachment/challenge.py:40-46 | 1 has no square roots but 1 and -1 modulo a prime |
| Primes.Freshman | rECp1cG/attachment/challenge.py:40 | (a + 1)^p = a^p + 1 modulo a prime p, from the binomial theorem |
| Primes.Fermat | rECp1cG/attachment/challenge.py:40 | a^(p-1) = 1 modulo a prime p that does not divide a |
| MillerRabin.SplitOdd | rECp1cG/attachment/challenge.py:29-33 | the halving loop yields x - 1 = odd * 2^power with odd odd |
| MillerRabin.PrimePasses | rECp1cG/attachment/challenge.py:37-48 | every prime is a strong probable prime to every base it does not divide |
| MillerRabin.PassesBase | rECp1cG/attachment/challenge.py:37-48 | the squaring loop with its for-else decides strong probable primality to one base |
| MillerRabin.IsPrime | rECp1cG/attachment/challenge.py:18-49 | up to 97 the verdict is primality; above, the exact test of AcceptsIff with its literal list of bases |
| MillerRabin.AcceptsIff | rECp1cG/attachment/challenge.py:18-49 | above 97, accepted if and only if no number from 2 to 100 divides x and, for each of the 18 bases c written out, c^(x-1) is 1 and every square root c^e of 1 reached by halving the exponent is 1 or -1 |
| MillerRabin.CompositeRejected | rECp1cG/attachment/challenge.py:37-48 | 10403 = 101 * 103 is rejected |
| MillerRabin.PrimeAccepted | rECp1cG/attachment/challenge.py:18-49 | no prime is ever rejected |
| MillerRabin.AcceptExactSmall | rECp1cG/attachment/challenge.py:22-27 | below 101^2 = 10201 the verdict is exactly primality |
| MillerRabin.ClassifyPrime | rECp1cG/attachment/challenge.py:18-49 | the program's verdict has both properties |
| MillerRabin.MakePrime | rECp1cG/attachment/challenge.py:52-58 | the first accepted draw is returned, and it is 3 modulo 4; nothing is returned exactly when no draw is accepted |
| MillerRabin.CandidateBits | rECp1cG/attachment/challenge.py:54-56 | the candidate of a draw has bits 0, 1 and bits - 1 set and every other bit of the draw |
| Curve.ChordNotVertical | rECp1cG/attachment/challenge.py:69-75 | two different curve points that are not opposite have different x, so the inverse exists |
| Curve.GapFactors | rECp1cG/attachment/challenge.py:77-78 | the cubic minus the squared line factors over the two known intersections |
| Curve.ThirdIntersection | rECp1cG/attachment/challenge.py:77 | a line through two points of the curve, or a tangent, meets it again at slope^2 - x1 - x2 |
| Curve.AddClosed | rECp1cG/attachment/challenge.py:61-79 | over a prime field addition of canonical curve points never asks for a missing inverse and yields the identity or a canonical curve point |
| CurveLaws.SumIff | rECp1cG/attachment/challenge.py:61-79 | modulo a prime, for points that are not opposite, r is the sum if and only if it is canonical, the three x add up to the squared slope of chord or tangent, and the reflection of r lies on that line |
| CurveLaws.OppositeIff | rECp1cG/attachment/challenge.py:69-70 | two curve points add up to the identity if and only if they are opposite |
| CurveLaws.Identity | rECp1cG/attachment/challenge.py:61-65 | the identity is neutral on both sides |
| CurveLaws.AddCommutes | rECp1cG/attachment/challenge.py:61-79 | addition is commutative |
| CurveLaws.KnownSums | rECp1cG/attachment/challenge.py:61-79 | (0,1) + (2,2) is (0,6) and (0,1) + (0,1) is (2,5) on y^2 = x^3 + x + 1 modulo 7 |
| Curve.RootByPower | rECp1cG/attachment/challenge.py:86-87 | for p = 3 mod 4, the (p+1)/4 power is a square root of whatever passes the test of line 86 |
| Curve.EulerTestIff | rECp1cG/attachment/challenge.py:86 | modulo a prime p = 3 mod 4 that test accepts exactly the non-zero quadratic residues |
| Curve.RootOfResidue | rECp1cG/attachment/challenge.py:86-87 | modulo such a prime the (p+1)/4 power is a square root of every non-zero quadratic residue |
| Curve.TryPoint | rECp1cG/attachment/challenge.py:84-90 | for a prime p one draw gives a point if and only if its right-hand side is a non-zero quadratic residue; for every p the point is the canonical curve point whose root the extra bit selects |
| CurveLaws.DrawnPair | rECp1cG/attachment/challenge.py:84-90 | the extra bit chooses between two opposite points |
| Curve.RandomPoint | rECp1cG/attachment/challenge.py:82-90 | the point returned is canonical, on the curve and that of the first draw that has one; for a prime p every draw passed over has a right-hand side that is zero or a non-residue |
| Curve.MultipleOnCurve | rECp1cG/attachment/challenge.py:107-111 | every u + i * g is on the curve |
| Curve.PointChain | rECp1cG/attachment/challenge.py:105-111 | every entry is u + i * g, and it stops early only at the identity or at an addition without an inverse; over a prime field no inverse is ever missing and every entry is on the curve |
| CurveLaws.ChainOfSums | rECp1cG/attachment/challenge.py:105-111 | modulo a prime the chain starts at u, each point is the chord or tangent sum of the one before it and g, and it is shorter than k only if its last point is the opposite of g |
| Curve.DrawChain | rECp1cG/attachment/challenge.py:103-113 | the result is the first round that gives k points with pairwise different x, both points drawn lying on the curve; otherwise every round was incomplete or one got stuck after incomplete rounds |
| Curve.StuckRound | rECp1cG/attachment/challenge.py:103-113 | modulo a prime a round gets stuck only when the draws for one of its two points run out |
| Curve.Generate | rECp1cG/attachment/challenge.py:95-113 | first accepted modulus, first non-singular curve over it and first complete chain on that curve together form a sound instance; otherwise the first of these searches that can fail has failed |
| CurveLaws.SingularIff | rECp1cG/attachment/challenge.py:99-100 | modulo a prime above 3 the discriminant test rejects a curve if and only if its cubic has a double root |
| CurveLaws.DistinctXIff | rECp1cG/attachment/challenge.py:112 | the x coordinates are pairwise different if and only if there are as many as points |
| Lagrange.GetNum | r3ticket/deploy/chall.py:27-38 | the nested loops of floor divisions give nums[k] at index k, 0 at every index from the length on, and the oracle's value at negative ones |
| Lagrange.OracleInterpolates | r3ticket/deploy/chall.py:27-38 | at its own indices the oracle interpolates the numbers, and it is 0 beyond them |
| Lagrange.FloorDivIsFloor | r3ticket/deploy/chall.py:36 | the division is Python's: the greatest integer not above the exact quotient, for either sign |
| Lagrange.FactorLinear | r3ticket/solve/solve.py:91-102 | at -q, with q a multiple of 1 .. n-1, each floor division is the linear form of the solver |
| Lagrange.PartIsPolynomial | r3ticket/deploy/chall.py:31-37 | the product of the distances times one part is an integer polynomial in q |
| Lagrange.FactorialClears | r3ticket/solve/solve.py:32 | (n-1)! is a multiple of every product of distances |
| Lagrange.OracleIsPolynomial | r3ticket/solve/solve.py:114-115 | (n-1)! times the oracle's answer at -q is one fixed integer polynomial, for every admissible q |
| Lagrange.BalancedDigits | r3ticket/solve/solve.py:65-80 | success gives balanced digits of the number; failure means that no n balanced digits exist |
| Lagrange.BalancedUnique | r3ticket/solve/solve.py:65-80 | a balanced expansion is unique, digit by digit |
| Lagrange.RecoverCoefficients | r3ticket/solve/solve.py:114-115 | one query recovers every coefficient if and only if each coefficient is a balanced digit for q |
| LagrangeBound.CoefficientsWithin | r3ticket/solve/solve.py:89-107 | numbers of size at most m give coefficients of size at most m * 2^(n-1) * n^(n-1) |
| LagrangeBound.SizeSuffices | r3ticket/solve/solve.py:33 | known before the query is sent: with q above twice that bound every coefficient is a balanced digit |
| LagrangeBound.SolverQuery | r3ticket/solve/solve.py:31-34 | the query of the solver, any multiple of 1 .. 127 shifted by 1000 bits, is admissible and above the bound for all 128 numbers of 16 bits |
| LagrangeBound.SolverRecovers | r3ticket/solve/solve.py:114-115 | with that query one answer gives back all coefficients, whatever the 128 numbers are |
| LagrangeBound.RecoverNums | r3ticket/solve/solve.py:114-128 | for a prime above 65535 the numbers solve the system made of the recovered digits, and are all a field solver can return if and only if the matrix is invertible modulo p |
| LagrangeSystem.LinearProduct | r3ticket/solve/solve.py:105 | multiplying by a linear factor combines neighbouring coefficients |
| LagrangeSystem.MatrixColumn | r3ticket/solve/solve.py:89-109 | the column built with field inverses is the integer column polynomial modulo p |
| LagrangeSystem.BuildMatrixMod | r3ticket/solve/solve.py:83-111 | this holds for every column of the matrix |
| LagrangeSystem.NumbersSolve | r3ticket/solve/solve.py:117-122 | the oracle's numbers solve the system whose right-hand side is the recovered coefficients |
| LagrangeSystem.OnlySolutionIff | r3ticket/solve/solve.py:117-128 | they are the only solution the field solver can return if and only if the matrix maps nothing but zero to zero modulo p |
| PoolModel.FreeIn | whisper/deploy/judge/pool.py:92-96 | the free list holds exactly the idle unassigned instances |
| PoolOrder.FreeSplits | whisper/deploy/judge/pool.py:92-96 | it keeps the order of the configuration |
| PoolOrder.FirstFree | whisper/deploy/judge/pool.py:208 | its first entry is the first idle instance of the configuration |
| PoolModel.Position | whisper/deploy/judge/pool.py:250-254 | the position is 0 for an absent team, otherwise that of its first occurrence |
| PoolSafety.PruneIsSuffix | whisper/deploy/judge/pool.py:229 | pruning an ascending list keeps exactly its recent end |
| PoolSafety.PruneCounts | whisper/deploy/judge/pool.py:225-235 | the pruned list alone decides whether one more grant keeps the hourly limit, though older grants were forgotten |
| PoolSafety.AssignKeeps | whisper/deploy/judge/pool.py:148-176 | assigning to a team that is ready keeps the links mutually inverse, the lifecycle, the queue and the history; raising for a missing flag keeps them too |
| PoolSafety.ReclaimKeeps | whisper/deploy/judge/pool.py:179-200 | ending a lease keeps them as well |
| PoolRuns.HeadIsServed | whisper/deploy/judge/pool.py:203-222 | in a reachable state the 'already leased' and 'in cooldown' skips are dead: promotion always offers the instance to the head of the queue |
| PoolRuns.PassedTests | whisper/deploy/judge/pool.py:276-290 | a team that passes both tests is ready: no lease, room in the hour, cooldown over |
| PoolRuns.StepKeeps | whisper/deploy/judge/pool.py:257-344 | every operation keeps the invariant: team-to-instance and instance-to-team are inverse partial maps, leased exactly when a team is recorded, queue distinct and disjoint from holders, limits kept |
| PoolRuns.InitialInv | whisper/deploy/judge/pool.py:46-66 | the freshly loaded pool satisfies it exactly when no instance has the empty id |
| PoolRuns.RunKeeps | whisper/deploy/judge/pool.py:257-558 | so does every state of every run |
| PoolOrder.PromoteNextExact | whisper/deploy/judge/pool.py:203-222 | one promotion gives the first free instance to the head of the queue, or drops the head if its flag is missing |
| PoolOrder.PromoteAllExact | whisper/deploy/judge/pool.py:536-537 | the reaper's loop serves queue and free list in order, up to the first team without a flag, and changes nothing else |
| PoolOrder.StrandedIff | whisper/deploy/judge/pool.py:536-537 | it leaves an instance idle beside a waiting team exactly when it reaches a team without a flag that is not the last one waiting |
| PoolFlags.RefusedIff | whisper/deploy/judge/pool.py:257-309 | a lease request is refused for a missing flag if and only if the team has none, holds no lease, is not queued, passes both tests, and an instance is free |
| PoolFlags.MissingFlagOutcome | whisper/deploy/judge/pool.py:292-309 | such a team is refused when an instance is free and otherwise put at the end of the queue |
| PoolFlags.BootStrandedIff | whisper/deploy/judge/pool.py:546-558 | a boot leaves the instance idle beside a waiting team exactly when the head of the queue has no flag and is not alone |
| PoolFlags.TickStrandedIff | whisper/deploy/judge/pool.py:498-537 | the exact condition for a whole reaper tick, releases included, from every state that meets the invariant |
| PoolFlags.StepStrandedIff | whisper/deploy/judge/pool.py:257-558 | over every operation: no idle instance beside a waiting team before and one after, exactly for a boot with a flagless head that is not alone |
| PoolFlags.OnlyFlaggedServed | whisper/deploy/judge/pool.py:153-159 | in every run of every pool each lease went to a team whose flag had been pushed before |
| PoolOrder.StepServes | whisper/deploy/judge/pool.py:257-558 | if teams push their flag before they ask, no operation leaves an instance idle while a team waits |
| PoolFairness.StepOrder | whisper/deploy/judge/pool.py:203-222 | from every state that meets the invariant: a tick or boot serves a prefix of the queue and drops at most the team without a flag behind it; a newcomer is served only on an empty queue or by overtaking |
| PoolFairness.OvertakesIff | whisper/deploy/judge/pool.py:257-309 | a request is served ahead of a non-empty queue if and only if it passes both tests, its flag is pushed and an instance is idle |
| PoolFairness.NeverStranded | whisper/deploy/judge/pool.py:257-558 | from the start of the service on, if every team pushes its flag before it asks, no instance is idle while the queue is non-empty |
| PoolFairness.AlwaysServedIff | whisper/deploy/judge/pool.py:257-558 | a run keeps idle instances and waiting teams apart throughout if and only if no boot in it meets a flagless head that is not alone |
| PoolFairness.NoOvertaking | whisper/deploy/judge/pool.py:292-309 | over every run, a team that waits with its flag pushed and does not leave is served before everyone behind it and every newcomer, except one who overtakes in the sense of OvertakesIff |
| PoolFairness.FirstComeFirstServed | whisper/deploy/judge/pool.py:203-309 | and without exception in every run that has no stranding boot |
| PoolQuota.QuotaStep | whisper/deploy/judge/pool.py:203-290 | every operation keeps both limits and what the tables need for them, with or without empty ids or repeated links |
| PoolQuota.QuotaRun | whisper/deploy/judge/pool.py:203-290 | so does every run of every pool |
| PoolLimits.HourlyLimit | whisper/deploy/judge/pool.py:225-235 | no team is granted more than LEASE_RATE_MAX leases within any hour of any run of any pool, though promotion does not recheck the limit |
| PoolLimits.CooldownHolds | whisper/deploy/judge/pool.py:238-247 | at least LEASE_COOLDOWN_SECS pass between any release and the team's next lease, in every run of any pool |
| PoolLimits.RetryAfterSuffices | whisper/deploy/judge/pool.py:231-235 | a rate-limited team passes the test from exactly the moment its oldest counted grant is an hour old; retry_after reaches that moment by at most one second |
| PoolLimits.CooldownWaitSuffices | whisper/deploy/judge/pool.py:243-247 | the same for the cooldown |
| PoolLimits.LeaseTerm | whisper/deploy/judge/pool.py:164-173 | in every run of a pool without an empty id a lease in force expires exactly LEASE_SECONDS after the latest grant to its team |
| PoolTerms.InstanceTerm | whisper/deploy/judge/pool.py:148-200 | in every run of every pool an instance is assigned exactly to the team of its latest entry in the history, if that is a grant, and expires LEASE_SECONDS after it |
| PoolLimits.ReaperReleases | whisper/deploy/judge/pool.py:499-519 | a reaper tick sends exactly the instances whose lease ran out to reboot and leaves the others alone |
| PoolEdges.EmptyIdExact | whisper/deploy/judge/pool.py:87 | holding and waiting exclude each other in every run if and only if no instance has the empty id, which the lease lookup mistakes for none |
| PoolEdges.MissingFlagStrands | whisper/deploy/judge/pool.py:211-221 | a run in which a team without a flag makes a promotion fail and an instance idles beside a waiting team |
| Pool.LeasePool.constructor | whisper/deploy/judge/pool.py:46-66 | repeated ids are loaded once, in the order of their first occurrences, all booting |
| PoolRuns.FirstOccurrencesOrder | whisper/deploy/judge/pool.py:46-66 | of two loaded ids the earlier one occurs in the configuration before the other occurs at all |
| Pool.LeasePool.QueuePosition | whisper/deploy/judge/pool.py:250-254 | the search loop finds that position |
| Pool.LeasePool.Recent | whisper/deploy/judge/pool.py:229 | the comprehension keeps the times after the start of the window |
| Pool.LeasePool.TestRate | whisper/deploy/judge/pool.py:225-235 | the method prunes and decides as the step function does |
| Pool.LeasePool.TestCooldown | whisper/deploy/judge/pool.py:238-247 | likewise for the cooldown test, which reads the clock only if there was a release |
| Pool.LeasePool.DoAssign | whisper/deploy/judge/pool.py:148-176 | the field updates of an assignment, or the exception with only the clock read |
| Pool.LeasePool.DoRelease | whisper/deploy/judge/pool.py:179-200 | the field updates of a release, lifecycle left to the caller |
| Pool.LeasePool.PromoteNext | whisper/deploy/judge/pool.py:203-222 | the popping loop with its two skips takes the pool to the state of the step function |
| Pool.LeasePool.Lease | whisper/deploy/judge/pool.py:257-309 | new state and reply of a lease request in every branch |
| Pool.LeasePool.Release | whisper/deploy/judge/pool.py:312-344 | new state of a release or of leaving the queue |
| Pool.LeasePool.Status | whisper/deploy/judge/pool.py:386-430 | a status request prunes, reads the clock and changes nothing else |
| Pool.LeasePool.ExpiredTeams | whisper/deploy/judge/pool.py:499-506 | the comprehension collects the teams of expired leases in pool order |
| Pool.LeasePool.ReaperTick | whisper/deploy/judge/pool.py:498-537 | releases and promotions of one tick, cut short by a missing flag |
| Pool.LeasePool.BootDone | whisper/deploy/judge/pool.py:546-558 | a booted instance becomes idle and one promotion follows |
| PoolEffects.ReleaseEnds | whisper/deploy/judge/pool.py:324-344 | a release by a holder: the instance reboots without a team, the team holds nothing and its release time is this reading, the log gains it, and nothing else changes |
| PoolEffects.ReleaseLeaves | whisper/deploy/judge/pool.py:316-322 | a release by a team without a lease takes it out of the queue, keeps the order of the others and changes nothing else |
| PoolEffects.LeaseShown | whisper/deploy/judge/pool.py:260-270 | a holder is shown its lease; only the clock is read |
| PoolEffects.LeaseWaits | whisper/deploy/judge/pool.py:272-274 | a waiting team is told its place and nothing changes |
| PoolEffects.LeaseLimited | whisper/deploy/judge/pool.py:276-282 | a team that has used up its hour is refused with the wait; only its record is pruned |
| PoolEffects.LeaseCooling | whisper/deploy/judge/pool.py:284-290 | a team whose last lease ended too recently is refused with the wait |
| PoolEffects.LeaseQueues | whisper/deploy/judge/pool.py:306-309 | with no idle instance an eligible team joins the end of the queue |
| PoolEffects.LeaseRefused | whisper/deploy/judge/pool.py:292-295 | with an idle instance an eligible team without a flag is refused |
| PoolEffects.LeaseGranted | whisper/deploy/judge/pool.py:292-304 | with an idle instance and a flag it gets the first idle one for leaseSeconds, with every field of the new state |
| PoolEffects.StatusReports | whisper/deploy/judge/pool.py:386-430 | a status report changes nothing but the clock and what the team's record remembers of old grants |
| PoolEffects.BootIdles | whisper/deploy/judge/pool.py:546-558 | a booted instance is idle, and the head of the queue, if any, is offered the first idle one |
| PoolEffects.TickEffect | whisper/deploy/judge/pool.py:498-518 | a tick sends every instance whose lease is over to reboot, frees its team, and leaves other busy or booting instances alone |
| PoolEffects.TickServes | whisper/deploy/judge/pool.py:536-537 | the idle instances go to the waiting teams, both in order, up to the first team without a flag, which is dropped |
| TpmSessions.Tpm.MakeObject | trustedhash/challenge/trusted_hash_kmod/tpm.c:703-772 | what the handle variable and the chip hold after TPM2_CreatePrimary or TPM2_Load, and what of it is lost, for every point of failure |
| TpmSessions.Tpm.StartPolicySession | trustedhash/challenge/trusted_hash_kmod/tpm.c:1386-1425 | the same for a policy session |
| TpmSessions.Module.FlushSessionHandles | trustedhash/challenge/trusted_hash_kmod/cmd.c:55-83 | every handle the session refers to is flushed and forgotten; unless a flush of a held handle fails, none of them stays loaded and nothing else changes |
| TpmSessions.Module.CleanupSessions | trustedhash/challenge/trusted_hash_kmod/cmd.c:95-104 | the table is emptied; with a chip and no failing flush the AK is gone and nothing is lost |
| TpmSessions.Module.LoadKeys | trustedhash/challenge/trusted_hash_kmod/cmd.c:665-837 | whatever step fails, the chip keeps beyond what it kept before only handles the session still refers to, and loses none without a fault; success means that SRK, AK and decryption key were made under their parents, the creation certified and the transcript signed, and leaves exactly the AK more; it comes about whenever nothing fails |
| TpmSessions.Module.KeepOnlyAk | trustedhash/challenge/trusted_hash_kmod/cmd.c:816-837 | SRK and decryption key are no longer loaded when the module signer is used |
| TpmSessions.Module.CreateSession | trustedhash/challenge/trusted_hash_kmod/cmd.c:599-879 | success leaves exactly one session, number 1, not activated, after the whole list of set-up commands; failure leaves none or, before the chip was opened, the old one; without a fault nothing is lost; when nothing fails the return code is decided by mask and chip |
| TpmSessions.Module.ActivateCredential | trustedhash/challenge/trusted_hash_kmod/cmd.c:881-971 | success activates the named session by a policy session, PolicySecret and ActivateCredential under its AK; no outcome deactivates a session or keeps a policy session, and without a fault none is lost; when nothing fails the return code is decided by sizes, session and chip |
| TpmSessions.Module.TrustedHash | trustedhash/challenge/trusted_hash_kmod/cmd.c:973-1131 | success consumes an activated session and decrypts exactly once, under the PCR and authorisation policies, with the reloaded key; after any outcome past the lookup the session is gone, and with a chip and no fault neither its handles nor a policy session stay loaded; when nothing fails the return code is decided by size, session, chip and activation |
| TpmSessions.Module.CancelSession | trustedhash/challenge/trusted_hash_kmod/cmd.c:1133-1159 | the session is removed; with a chip and no failing flush its handles are gone, without a chip they stay loaded |
| TpmSessions.UsesDecrypt | trustedhash/challenge/trusted_hash_kmod/cmd.c:1020-1103 | one more decryption by an activated session that has not decrypted keeps the rule of one decryption after activation |
| TpmSessions.Serve | trustedhash/challenge/trusted_hash_kmod/cmd.c:599-1159 | over every sequence of ioctls against every chip: at most one session; the chip holds its AK, what was lost, and nothing else; each decryption is backed by its own activation, and the chip has never decrypted more often than it activated; if the chip is present at every call, no flush of a held handle fails and every reply is readable, the AK is the only object and no policy session is open |
| TpmSessions.ActivatedFirst | trustedhash/challenge/trusted_hash_kmod/cmd.c:944-1103 | decryptions on record never outnumber activations |
| TpmSessions.WholeSession | trustedhash/challenge/trusted_hash_kmod/cmd.c:599-1131 | when nothing fails, a session is set up, activated and used: the sixteen commands in order, one activation and one decryption on record, and nothing left on the chip or in the table |
| TpmResponses.RequireBytes | trustedhash/challenge/trusted_hash_kmod/tpm.c:119-124 | the 32-bit test is exactly offset + len <= response length, without overflow |
| TpmResponses.MemCpy | trustedhash/challenge/trusted_hash_kmod/tpm.c:548-553 | a copy fills the front of the destination and leaves the rest |
| TpmResponses.SkipTpm2b | trustedhash/challenge/trusted_hash_kmod/tpm.c:515-529 | succeeds exactly when a whole sized field starts here, and stops at its end |
| TpmResponses.CopyTpm2b | trustedhash/challenge/trusted_hash_kmod/tpm.c:531-559 | the same with the destination bound; copies exactly the field, or changes nothing |
| TpmResponses.CopyTpmtSignature | trustedhash/challenge/trusted_hash_kmod/tpm.c:603-635 | succeeds exactly on an RSASSA signature that fits |
| TpmResponses.CopyCreationTicket | trustedhash/challenge/trusted_hash_kmod/tpm.c:637-661 | succeeds exactly on a creation ticket that fits, or on any ticket that is not wanted |
| TpmResponses.ExactEnd | trustedhash/challenge/trusted_hash_kmod/tpm.c:729-733 | an offset that meets the 32-bit sum offset + parameter_size proves that the sum did not wrap |
| TpmResponses.ParseCreatePrimary | trustedhash/challenge/trusted_hash_kmod/tpm.c:709-772 | accepted if and only if the five fields tile the parameter area and the copied ones fit; otherwise what becomes of the handle |
| TpmResponses.ParseCreate | trustedhash/challenge/trusted_hash_kmod/tpm.c:831-888 | the same for TPM2_Create, with optional creation hash and ticket, in any combination; each output is the exact field |
| TpmResponses.ParseLoad | trustedhash/challenge/trusted_hash_kmod/tpm.c:1024-1070 | the same for TPM2_Load |
| TpmResponses.ParseCertify | trustedhash/challenge/trusted_hash_kmod/tpm.c:1113-1151 | attestation and signature tile the area exactly and are copied whole |
| TpmResponses.ParseSign | trustedhash/challenge/trusted_hash_kmod/tpm.c:1188-1223 | the signature is the whole area |
| TpmResponses.ParseSizedReply | trustedhash/challenge/trusted_hash_kmod/tpm.c:1252-1287 | unsealed secret or activated credential is the whole area and fits |
| TpmResponses.ParseStartSession | trustedhash/challenge/trusted_hash_kmod/tpm.c:1392-1425 | the handle is kept exactly when the nonce is whole and fits |
| TpmResponses.ParsePolicySecret | trustedhash/challenge/trusted_hash_kmod/tpm.c:1457-1498 | timeout and ticket tile the area exactly |
| TpmResponses.ParseRsaDecrypt | trustedhash/challenge/trusted_hash_kmod/tpm.c:1720-1792 | accepted if and only if the plaintext is the whole parameter area and nonce, attributes and a matching 32-byte HMAC end exactly at the end of the response |
| TpmResponses.CheckAuthorisation | trustedhash/challenge/trusted_hash_kmod/tpm.c:1749-1790 | the authorisation area after the parameters, in both directions |
| TpmResponses.PartsTile | trustedhash/challenge/trusted_hash_kmod/tpm.c:735-760 | fields laid end to end tile the area they fill |
| TpmResponses.TilesAreParts | trustedhash/challenge/trusted_hash_kmod/tpm.c:735-760 | and an area that tiles is such a concatenation, so the accepted replies are exactly the well-built ones |
| ResponseLayouts.PrimaryReplyIff | trustedhash/challenge/trusted_hash_kmod/tpm.c:709-772 | a reply written out as header, handle, area size, public area, creation data, creation hash, ticket, name has the layout the parser accepts exactly when public area and name fit |
| ResponseLayouts.CreateReplyIff | trustedhash/challenge/trusted_hash_kmod/tpm.c:831-888 | likewise private area, public area, creation data, hash and ticket, exactly when the wanted ones fit |
| ResponseLayouts.CertifyReplyIff | trustedhash/challenge/trusted_hash_kmod/tpm.c:1113-1151 | likewise attestation and RSASSA signature |
| ResponseLayouts.PolicySecretReply | trustedhash/challenge/trusted_hash_kmod/tpm.c:1457-1498 | a timeout and a ticket of any size are accepted |
| ResponseLayouts.DecryptReplyIff | trustedhash/challenge/trusted_hash_kmod/tpm.c:1720-1792 | a plaintext, then nonce, attributes and HMAC: accepted exactly when the plaintext fits, the nonce has at most 64 bytes and the HMAC is the expected 32 bytes |
| Der.LengthRoundTrip | trustedhash/challenge/trusted_hash_attester/src/tpm.rs:255-267 | a length below 2^32 is written in the minimal form and read back |
| Der.TlvRoundTrip | trustedhash/challenge/trusted_hash_attester/src/tpm.rs:255-270 | an element is read back with its contents and what follows it |
| Der.BodyMinimal | trustedhash/challenge/trusted_hash_attester/src/tpm.rs:225-235 | an integer is written with the fewest bytes that keep it non-negative, and keeps its value |
| Der.IntegerRoundTrip | trustedhash/challenge/trusted_hash_attester/src/tpm.rs:225-235 | an integer is read back as the value of its bytes; only an empty value is unreadable |
| Der.SpkiRoundTrip | trustedhash/challenge/trusted_hash_attester/src/tpm.rs:150-155 | reading SubjectPublicKeyInfo strictly gives modulus and exponent; only an empty modulus is unreadable |
| Der.DerTlv | trustedhash/challenge/trusted_hash_attester/src/tpm.rs:255-270 | the buffer code writes that element |
| Der.DerIntegerPositive | trustedhash/challenge/trusted_hash_attester/src/tpm.rs:225-235 | the buffer code writes that integer |
| Der.DerSpki | trustedhash/challenge/trusted_hash_attester/src/tpm.rs:150-155 | the composed key structure |
| PublicKeyExample.DerWritten | trustedhash/challenge/trusted_hash_attester/src/tpm.rs:150-155 | the key structure of a small key, byte by byte: sign byte before the modulus, no leading zero in the exponent |
| PublicKeyExample.LongLengthWritten | trustedhash/challenge/trusted_hash_attester/src/tpm.rs:255-267 | lengths of 127, 200 and 300 in their short and long forms |
| Pem.SymbolRoundTrip | trustedhash/challenge/trusted_hash_attester/src/tpm.rs:273 | each of the 64 symbols has its own value and none is padding or a newline |
| Pem.GroupRoundTrip | trustedhash/challenge/trusted_hash_attester/src/tpm.rs:277-295 | one to three bytes are read back from their four characters, with zero bits under the padding |
| Pem.Base64RoundTrip | trustedhash/challenge/trusted_hash_attester/src/tpm.rs:272-310 | every byte string is read back from its base64 text |
| Pem.WrappedReads | trustedhash/challenge/trusted_hash_attester/src/tpm.rs:296-308 | breaking the text into lines loses nothing |
| Pem.LineBreaks | trustedhash/challenge/trusted_hash_attester/src/tpm.rs:296-308 | a newline stands after every 64 characters and at the end, nowhere else |
| Pem.PemBase64 | trustedhash/challenge/trusted_hash_attester/src/tpm.rs:272-310 | the character loop with its line counter produces those lines, and reading them back gives the data |
| PublicKeyExample.TextWritten | trustedhash/challenge/trusted_hash_attester/src/tpm.rs:272-310 | the base64 examples of section 10 of RFC 4648 |
| TpmPublic.BytesCursor.TakeBytes | trustedhash/challenge/trusted_hash_attester/src/tpm.rs:194-201 | a read past the end fails and moves nothing; otherwise the cursor takes exactly the next bytes |
| TpmPublic.BytesCursor.TakeTpm2b | trustedhash/challenge/trusted_hash_attester/src/tpm.rs:189-192 | a sized field is taken whole or not at all |
| TpmPublic.TakeCipherExact | trustedhash/challenge/trusted_hash_attester/src/tpm.rs:59-67 | exactly AES with two parameters, or NULL, is accepted as symmetric algorithm |
| TpmPublic.ParsedExact | trustedhash/challenge/trusted_hash_attester/src/tpm.rs:38-95 | a byte string is accepted as a public area if and only if it is the encoding of that area |
| TpmPublic.ParseRsaTpm2bPublic | trustedhash/challenge/trusted_hash_attester/src/tpm.rs:38-95 | the cursor code decides exactly that |
| PublicKeyExample.AreaParsed | trustedhash/challenge/trusted_hash_attester/src/tpm.rs:38-95 | a public area written out byte by byte, with a different value in every field, is parsed into those values |
| TpmPublic.RsaPublicPem | trustedhash/challenge/trusted_hash_attester/src/tpm.rs:147-160 | the text is header, wrapped base64 of the DER key and footer; reading it back gives the modulus value and the exponent, with 0 read as 65537; it is unreadable exactly for an empty modulus |
| TpmPublic.EmptyModulusAccepted | trustedhash/challenge/trusted_hash_attester/src/tpm.rs:38-155 | an accepted public area with an empty modulus, whose key is unreadable |

## Left out

Weaker or restricted statements:

- Calculator.PolyStore.MultiplyPolys: does not model a multiply into an empty slot, which reads buffer memory that was never written, nor 8-bit indices from 0x80 up, which index outside the table.
- Calculator.PolyStore.ReadPoly: does not model a failing allocation; typed numbers are an input sequence that may end early.
- MillerRabin.IsPrime: says nothing about primality of composites from 10201 up beyond the exact test they pass.
- MillerRabin.MakePrime: draws come from a finite input sequence, where the source draws until it succeeds.
- Curve.RandomPoint: likewise for the point draws, and for the rounds of Curve.DrawChain and Curve.Generate; the chain length is a parameter.
- LagrangeSystem.MatrixColumn: the field's inverses of 1 .. n-1 are an input with their defining law.
- LagrangeSystem.OnlySolutionIff: whether the matrix is invertible modulo the four primes of the solver is not decided; the field solver itself is not modelled.
- FheCore.DecryptCiphertext: the randomness of masks and noise is an input, as everywhere in FheCore.
- Pool.LeasePool.constructor: takes LEASE_RATE_MAX to be at least 1; with less, the rate test indexes an empty list.
- Pool.LeasePool.ReaperTick: the recycle requests and the boot deadline warning are not modelled; health answers arrive as BootDone calls.
- Pool.LeasePool.Lease: random identities, passwords, flag contents and the log are not modelled.
- Pool.LeasePool.Status: instance counts and the waiting-time estimate are not modelled.
- TpmSessions.Module.CreateSession: certificate, digests and transcript contents are not modelled; reads of certificate, public area and PCRs are reduced to whether they fail, and commands to their kind and the handles they name.
- TpmSessions.Tpm.MakeObject: the chip hands out only fresh handles in the transient range, and Tpm.StartPolicySession only fresh ones in the policy range; a chip that reuses a handle or answers outside its range is not modelled.
- TpmResponses.ParseRsaDecrypt: the HMAC is an arbitrary function of the bytes it covers; that the transport's length field covers only received bytes is assumed.

Parts of the repository without a model:

- The threshold ECDSA challenge, whose curve, Paillier and zero-knowledge code is not part of this model.
- The ring-LWE and sigma-protocol challenge on Sage curve objects, and the SEAL server wrapper.
- FHE key generation, bootstrapping, key switching and the fixed-width serializers.
- `include_length` in the word packing helpers, which no caller sets, and UUID text formatting.
- The final pad and shown states in rECp1cG's main loop.
- Lattice reduction, matrix solving and logarithm scanning in the r3ticket solver.
- Module identity provisioning, PCR selection, policy digests and the NV and ReadPublic parsers of the TPM layer.
- The attestation parser and certificate checks of the attester.
- Web handlers, launchers, controllers, image building, front ends and exploit drivers.

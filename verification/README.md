# Verification of SecOS boot and crypto code

A Dafny model of five parts of the SecOS kernel, with proofs about all inputs and all runs.

* **Ed25519** (`crypto/ed25519.c`): radix-2^16 signed limbs modulo p = 2^255-19, canonical packing, the two power
  chains, point decoding, unified addition, the 256-step ladder, reduction modulo the group order and
  `ed25519_verify`. Limb arrays are `array<i64>`, so every intermediate value is proved to fit in 64 bits.
* **AES-128, key wrap and key derivation** (`crypto/wpa2.c`, `crypto/wpa2_eapol.c`): both ciphers, the key schedule,
  RFC 3394 wrapping, counter mode, HMAC-SHA1, PBKDF2, the 802.11 PRF and the pairwise key.
* **KASLR relocator** (`boot/kaslr_core.c`, `boot/kaslr.h`, and the measurement in `kernel/kaslr.c`): slide choice,
  relocation in place, the page-table window, option parsing, and the apply-once entry.
* **Streaming hashes** (`crypto/sha1.c`, `crypto/sha256.c`, `crypto/sha512.c`): update and final against
  pad-then-fold.
* **Random number generator** (`crypto/csprng.c`): generate, rekey and reseed as a state machine.

`dafny verify dfyconfig.toml` checks the whole project.

## How the model is laid out

| modules | content |
|---|---|
| `ModArith`, `Radix`, `Machine`, `Slices`, `LittleEndian`, `DigitSlices`, `CStrings` | integers, digits, machine words, byte order, strings |
| `Field25519`, `Codec25519`, `Powers25519` | field arithmetic |
| `EdwardsCurve`, `Edwards`, `Points` | the curve and its addition, on residues and on limbs |
| `Decode`, `Affine`, `PointEncoding`, `PointCodec` | decoding, affine points, encodings |
| `EdwardsIdentities`, `EdwardsGroup`, `Ladder`, `CurveLadder` | the group of the curve and the ladder |
| `Primes`, `Nonresidues` | prime moduli, and why d is not a square |
| `ScalarReduction`, `Ed25519`, `Conformance` | scalars, verification, RFC 8032 |
| `LinearMaps`, `AesBytes`, `AesColumns`, `RoundCipher`, `Aes`, `AesCode`, `AesKeys` | AES-128 |
| `KeyWrap`, `AesWrap`, `AesWrapCode`, `AesCtr` | key wrap and counter mode |
| `Streaming`, `HashCore`, `Hashes`, `Hmac`, `Kdf`, `Ptk` | hashes and key derivation |
| `Relocate`, `PageWindow`, `BootOptions`, `Mixer`, `KaslrBoot`, `Measurement` | KASLR |
| `Csprng` | the generator |

Where the C code updates arrays or globals, the model has methods on arrays or a class, each proved equal to a
function on values; the theorems are lemmas about those functions. What such a function computes is also stated apart
from its definition, on single bytes and in the terms of the standard (the lemmas `...Meaning`, `...Bytes`, and
`KaslrBoot.BootSlide`). Three theorems are proved once over abstract
operations and then instantiated: the round trip of an iterated cipher (`RoundCipher`), the key wrap
(`KeyWrap`), and the ladder (`Ladder`).

Modelling decisions:

* Bytes are `bv8` in the AES modules and integers below 256 elsewhere. Truncation and wrap-around are written out
  (`% 256`, `% TWO_TO_64`).
* Hash block functions, hardware entropy and memory contents that the code only reads are parameters, so each
  theorem holds for all of them.
* The curve lemmas are stated for any modulus and any twisted Edwards curve with a = -1; `Edwards` supplies the
  constants of Curve25519. The group laws, completeness included, are proved for every curve that is `Complete`: the
  modulus obeys Fermat's theorem and has no zero divisors, -1 is a square and d is not. For Curve25519 all of this is
  proved from one hypothesis, that 2^255-19 is prime (`Nonresidues.Curve25519Complete`).
* The KASLR header and its table are separate from the image memory, which is the assumption that relocated
  fields lie away from them. The Multiboot2 parser reads a memory that is a total function from addresses to bytes.
* The local buffer `R` of the key wrap, an array of 8-byte rows, is a flat array of bytes.
* A locked section of the generator is one atomic step.

Where the code and its comments differ, the model follows the code:

* `crypto/csprng.c` says it reseeds every 2^20 bytes of output; the code compares the counter only between requests, so
  one long request produces more (`Csprng.OverlongRequest`). `Csprng.WithinThreshold` says exactly when a request stays
  within the threshold, `Csprng.OutputBound`, `Csprng.BoundAttained` and `Csprng.BoundExact` how far a run can exceed it.
* `kernel/kaslr.c` says that no field straddles the start of the measured range. If one does, its bytes are measured as
  relocated; `Measurement.MeasuredExact` says for which slides and field values that changes the measurement, and
  `Measurement.MeasuredDiffers` gives a case.
* `ed25519_verify` accepts more than RFC 8032 section 5.1.7: S is not compared with L (`Conformance.AgreesExactly`), and
  the key may be encoded with y at or above p or with x = 0 and the sign bit set (`PointEncoding.DecodeExact`,
  `Conformance.NoncanonicalKeyAccepted`). R may not, since it is compared with a canonical encoding
  (`Ed25519.AcceptsMeaning`). `Conformance.AcceptsRfc` says when the two agree. The comparison is for messages below
  2^61 bytes, because of the next point.
* `crypto/sha512.c` keeps a 128-bit length, but an update of 2^61 bytes or more loses bits
  (`Hashes.CounterExact`, `Hashes.CounterStep`, `Hashes.CounterLosesBits`).
* `pbkdf2_sha1` with an iteration count below one behaves as with one (`Kdf.IterateHmac`).
* The PRF counter is one byte, so output repeats after 256 blocks (`Kdf.PrfCounter`).

## Model

| member | source | states |
|---|---|---|
| `Field25519.CarStep` | crypto/ed25519.c:40-45 | one step of the carry loop: the limb is reduced modulo 2^16, its floored carry goes to the next limb, or times 38 to limb 0; no int64 overflow |
| `Field25519.Car` | crypto/ed25519.c:38-46 | the 16-step carry loop equals the closed form `Carried`, with no int64 overflow for limbs up to 2^62 |
| `Field25519.CarriedValue` | crypto/ed25519.c:38-46 | a carry pass changes the integer by exactly a multiple of 2p, so the residue is unchanged |
| `Field25519.TwoPasses` | crypto/ed25519.c:91 | two passes after a product leave limbs 1 to 15 in [0, 2^16) and limb 0 in [-38, 2^16+37] |
| `Field25519.ThreePasses` | crypto/ed25519.c:57 | three passes make every limb canonical from any limbs up to 2^62 |
| `Field25519.Product` | crypto/ed25519.c:87-88 | the schoolbook loops compute the integer product in 31 limbs, each within 2^40 |
| `Field25519.FoldInto` | crypto/ed25519.c:89-90 | folding the upper limbs back with weight 38 keeps the residue modulo p |
| `Field25519.M` | crypto/ed25519.c:85-92 | for all limbs up to 2^18 the result is the product modulo p, reduced enough to be multiplied again; output may alias the inputs; no int64 overflow |
| `Codec25519.Sel` | crypto/ed25519.c:48-51 | the masked exclusive-or exchange swaps exactly when the bit is 1 |
| `Codec25519.SubtractOnce` | crypto/ed25519.c:59-64 | one round with borrows subtracts p exactly when the value is at least p |
| `Codec25519.Normalise` | crypto/ed25519.c:57 | three carry passes keep the residue and leave a value in [0, 2p+38) |
| `Codec25519.Pack25519` | crypto/ed25519.c:53-67 | the 32 bytes are the unique representative in [0, p), for all limbs up to 2^62 |
| `Codec25519.Verify32` | crypto/ed25519.c:29-34 | 0 if the strings are equal, -1 otherwise |
| `Codec25519.Neq25519` | crypto/ed25519.c:69-73 | decides equality modulo p |
| `Codec25519.Par25519` | crypto/ed25519.c:74 | the parity of the canonical representative |
| `Codec25519.Unpack25519` | crypto/ed25519.c:76-80 | canonical limbs holding the low 255 bits of the string |
| `Codec25519.UnpackInvertsPack` | crypto/ed25519.c:53-80 | unpacking a packed element gives the same residue, already below p |
| `Codec25519.PackRestoresCanonical` | crypto/ed25519.c:53-80 | packing an unpacked string restores it if and only if it encodes a value below p |
| `Powers25519.A` | crypto/ed25519.c:82 | limbwise sum: the residues add and the limb bounds add; aliasing allowed |
| `Powers25519.Z` | crypto/ed25519.c:83 | limbwise difference: the residues subtract and the limb bounds add; aliasing allowed |
| `Powers25519.S` | crypto/ed25519.c:93 | squaring modulo p within the bounds of `M` |
| `Powers25519.Set` | crypto/ed25519.c:36 | copies sixteen limbs, from the same array too |
| `Powers25519.ChainStep` | crypto/ed25519.c:98 | a square and an optional multiplication take exponent e to 2e or 2e+1 |
| `Powers25519.Inv25519` | crypto/ed25519.c:95-100 | the 254-step chain computes the power p-2 |
| `Powers25519.Pow2523` | crypto/ed25519.c:101-106 | the 251-step chain computes the power 2^252-3 |
| `EdwardsCurve.AddFormula` | crypto/ed25519.c:108-116 | the nine-operation sequence computes the textbook unified sum, all coordinates scaled by 4 |
| `EdwardsCurve.AddOnCurve` | crypto/ed25519.c:108-116 | the sum of two points satisfying XY = ZT and the curve equation satisfies both again |
| `EdwardsCurve.IdentityOnCurve` | crypto/ed25519.c:130 | the starting point of the ladder is on the curve |
| `Edwards.Constants` | crypto/ed25519.c:20-24 | p is 2^255-19, d is -121665/121666, y of the base point is 4/5 and x the even root; 2d, the square root of -1 and the root exponent have the values the algorithms need |
| `Edwards.BaseOnCurve` | crypto/ed25519.c:21-22 | the base point satisfies both curve equations |
| `Points.D2Value` | crypto/ed25519.c:20 | the limbs of the constant 2d hold its value |
| `Points.CrossTerms` | crypto/ed25519.c:110-111 | (Y1-X1)(Y2-X2) and (X1+Y1)(X2+Y2) modulo p within the limb bounds |
| `Points.DiagonalTerms` | crypto/ed25519.c:112-113 | 2d T1 T2 and 2 Z1 Z2 modulo p within the limb bounds |
| `Points.SumsAndDifferences` | crypto/ed25519.c:114 | E, F, G, H modulo p, small enough for a multiplication |
| `Points.Products` | crypto/ed25519.c:115 | the four output products modulo p |
| `Points.Add` | crypto/ed25519.c:108-116 | in-place addition equals the non-aliased formula modulo p, for `add(p,p)` too, and stays within the limb bounds |
| `Points.CSwap` | crypto/ed25519.c:118 | swaps all 64 limbs of the two points exactly when the bit is 1 |
| `Points.SetIdentity` | crypto/ed25519.c:130 | (0, 1, 1, 0) |
| `Points.LadderStep` | crypto/ed25519.c:131-137 | one iteration equals the abstract ladder step and keeps both points within bounds |
| `Points.ScalarMultiply` | crypto/ed25519.c:128-138 | 256 iterations equal the abstract ladder on the bits of the scalar |
| `Ladder.ClimbMultiple` | crypto/ed25519.c:131-137 | at every iteration the two points are k and k+1 times the base, k being the bits read so far, for any addition that stands for a commutative law |
| `Ladder.ClimbDifference` | crypto/ed25519.c:131-137 | at every iteration the second point is the first plus the base |
| `Ladder.ClimbCorrect` | crypto/ed25519.c:128-138 | the ladder returns the little-endian value of s times the point, for any addition that stands for a commutative law |
| `Ladder.ClimbGood` | crypto/ed25519.c:131-137 | every property closed under addition holds of both points at every iteration |
| `Ladder.TopBitsValue` | crypto/ed25519.c:132 | the bits read from the top, most significant first, make up the little-endian value of the scalar |
| `CurveLadder.LadderOnCurve` | crypto/ed25519.c:128-138 | both ladder points stay on the curve, with XY = ZT, at every iteration of every run |
| `Affine.AffineSound` | crypto/ed25519.c:120-124 | dividing X and Y by Z through the power p-2 gives residues on the affine curve, and times Z they are X and Y again |
| `Affine.AffineEqual` | crypto/ed25519.c:120-124 | two finite points have the same affine coordinates if and only if they are proportional |
| `Affine.AddFinite` | crypto/ed25519.c:108-116 | the addition is complete: over a prime field with d not a square, no sum of finite curve points has Z = 0, equal and opposite points included |
| `EdwardsGroup.AddIsSum` | crypto/ed25519.c:108-116 | the extended-coordinate addition computes the affine Edwards sum, whatever coordinates represent the arguments |
| `EdwardsGroup.SumClosed` | crypto/ed25519.c:108-116 | the affine sum of two curve points is a curve point |
| `EdwardsGroup.SumAssociates` | crypto/ed25519.c:108-116 | the affine sum is associative |
| `EdwardsGroup.SumInverse` | crypto/ed25519.c:108-116 | a point and the point with the opposite x sum to the neutral point |
| `EdwardsGroup.SumNeutral` | crypto/ed25519.c:130 | adding (0, 1) changes nothing |
| `CurveLadder.GroupSound` | crypto/ed25519.c:108-116 | the affine points are a commutative monoid under the sum, with `EdwardsGroup.SumInverse` a group |
| `CurveLadder.GroupInterprets` | crypto/ed25519.c:108-116 | finite points with `add` stand for that group |
| `CurveLadder.LadderFinite` | crypto/ed25519.c:128-138 | in no iteration of any run is a ladder point at infinity, and the two points always differ by the base |
| `CurveLadder.ScalarMultCorrect` | crypto/ed25519.c:128-138 | the ladder computes the multiple of the point by the little-endian value of the scalar in the group of the curve, for all 2^256 scalars |
| `Decode.RootSound` | crypto/ed25519.c:155-158 | a root accepted on the direct or the times-I path squares to num/den |
| `Decode.DecodeSound` | crypto/ed25519.c:146-162 | whenever decoding succeeds: Z = 1, T = XY, X^2(1+dY^2) = Y^2-1, on the curve, and a nonzero X has the parity opposite to the sign bit |
| `Decode.DecodeComplete` | crypto/ed25519.c:146-162 | over a prime modulus decoding succeeds if and only if num/den is a square |
| `Decode.CandidateResidue` | crypto/ed25519.c:151-154 | the chain of multiplications around `pow2523` computes num den^3 (num den^7)^e |
| `PointCodec.NumDen` | crypto/ed25519.c:150 | Y^2-1 and 1+dY^2 modulo p |
| `PointCodec.CandidateRoot` | crypto/ed25519.c:151-154 | the candidate root modulo p, within the limb bounds |
| `PointCodec.CheckRoot` | crypto/ed25519.c:155-156 | decides whether x^2 den = num modulo p |
| `PointCodec.FixRoot` | crypto/ed25519.c:155-158 | tries the candidate, then the candidate times I, and fails if neither is a root |
| `PointCodec.Choose` | crypto/ed25519.c:159-160 | negates x when its parity equals the sign bit and sets T = XY |
| `PointCodec.UnpackNeg` | crypto/ed25519.c:146-162 | 0 with the decoded negated point, or -1, exactly as the abstract decoder; no int64 overflow |
| `PointCodec.PackPoint` | crypto/ed25519.c:120-126 | the bytes of Y Z^(p-2) with the parity of X Z^(p-2) as top bit; `Affine.AffineSound` makes these Y/Z and X/Z |
| `PointEncoding.EncodingExact` | crypto/ed25519.c:120-126 | finite curve points have the same encoding if and only if they are the same affine point |
| `PointEncoding.DecodeEncoding` | crypto/ed25519.c:146-162 | decoding the encoding of a finite point gives the negated point |
| `PointEncoding.DecodeExact` | crypto/ed25519.c:146-162 | a string that decodes is the encoding of its point if and only if y is below p and not both x = 0 and the sign bit is set, the two checks of RFC 8032 section 5.1.3 that the code leaves out |
| `PointEncoding.AxisExact` | crypto/ed25519.c:146-162 | a string decodes to x = 0 if and only if it encodes y = 1 or y = -1 |
| `PointEncoding.NoncanonicalNeutral` | crypto/ed25519.c:146-162 | the strings of value 2^255 + 1 and p + 1 decode to the neutral point and are not canonical |
| `PointEncoding.EncodingOfPoint` | crypto/ed25519.c:120-162 | a string is the encoding of a point if and only if it is canonical and decodes to the point's negation |
| `PointCodec.SetSign` | crypto/ed25519.c:125 | flipping the clear top bit adds 2^255 times the parity |
| `PointCodec.ScalarBase` | crypto/ed25519.c:140-144 | the ladder on the base point |
| `ScalarReduction.Row` | crypto/ed25519.c:166-175 | one row clears a digit by subtracting a multiple of L and leaves balanced digits |
| `ScalarReduction.ClearHigh` | crypto/ed25519.c:166-175 | the 32 rows leave 32 bounded digits congruent modulo L |
| `ScalarReduction.Quotient` | crypto/ed25519.c:176-177 | subtracts floor(x[31]/16) L exactly and makes the digits proper |
| `ScalarReduction.QuotientRange` | crypto/ed25519.c:177 | what is left lies strictly between -2^248 and 16 2^248 |
| `ScalarReduction.FinalResidue` | crypto/ed25519.c:177-179 | the last carry is 0 or -1 and putting L back exactly then gives the residue |
| `ScalarReduction.Restore` | crypto/ed25519.c:178 | subtracts carry times L digit by digit |
| `ScalarReduction.Emit` | crypto/ed25519.c:179 | propagates carries and writes the low 32 bytes |
| `ScalarReduction.ModL` | crypto/ed25519.c:164-180 | the bytes are the input digits modulo L; no int64 overflow |
| `ScalarReduction.Reduce` | crypto/ed25519.c:182-187 | every 64-byte input becomes its residue modulo L in 32 bytes, zeros above |
| `ScalarReduction.LValue` | crypto/ed25519.c:26-27 | the 32 bytes hold L = 2^252 + 27742317777372353535851937790883648493 |
| `Ed25519.HashToScalar` | crypto/ed25519.c:196-202 | 32 bytes that encode `Challenge`, which `Ed25519.ChallengeMeaning` identifies |
| `Ed25519.ChallengeMeaning` | crypto/ed25519.c:196-202 | for messages below 2^61 bytes h is SHA-512 of R, the key and the message, in this order, as a little-endian number modulo L |
| `Ed25519.CheckSignature` | crypto/ed25519.c:204-210 | accepts exactly when R encodes h(-A) + S B |
| `Ed25519.Verify` | crypto/ed25519.c:189-211 | returns 1 exactly when the key decodes and R is the encoding of h(-A) + S B; `Ed25519.VerifyMeaning` says what that means |
| `Ed25519.CombinationSound` | crypto/ed25519.c:204-208 | the point compared with R is h times -A plus S times B in the group, never at infinity |
| `Ed25519.DecodedMeaning` | crypto/ed25519.c:120-162 | a canonical string stands for the curve point (x, y) if and only if its number is y with the low bit of x on top |
| `Ed25519.DecodedCoordinates` | crypto/ed25519.c:146-162 | any string that decodes gives the point whose y is its low 255 bits modulo p and whose x, unless 0, has the parity of its top bit |
| `Ed25519.AcceptsMeaning` | crypto/ed25519.c:189-211 | a signature is accepted if and only if the key decodes to A, R is the canonical encoding of a point R, and S B = R + h A in the group of the curve |
| `Ed25519.VerifyMeaning` | crypto/ed25519.c:189-211 | the same for the constants of Curve25519, h being SHA-512 of R, key and message modulo L for messages below 2^61 bytes, given only that 2^255-19 is prime |
| `Primes.PrimeField` | crypto/ed25519.c:146-162 | a prime modulus has no zero divisors and obeys Fermat's theorem |
| `Nonresidues.TwoNotSquare` | crypto/ed25519.c:23 | modulo a prime 8e + 5 with a square root of -1, 2 is not a square |
| `Nonresidues.Curve25519Complete` | crypto/ed25519.c:20-24 | if 2^255-19 is prime, d is not a square and the addition of Curve25519 is complete |
| `Nonresidues.SmallestComplete` | crypto/ed25519.c:108-116 | the hypotheses of the group theorems hold of a curve over the field of five elements |
| `Conformance.AcceptsRfc` | crypto/ed25519.c:189-211 | a signature is accepted by RFC 8032 section 5.1.7 if and only if the code accepts it, S is below L and the key is canonical; the RFC side hashes R, key and message itself, and messages are below 2^61 bytes |
| `Conformance.NeutralKeyAccepts` | crypto/ed25519.c:189-211 | under a key that encodes y = 1 the code accepts every S, with R = S B, for every message |
| `Conformance.AgreesExactly` | crypto/ed25519.c:189-211 | for a given S the code and RFC 8032 agree on every R and every canonical key if and only if S is below L |
| `Conformance.NoncanonicalKeyAccepted` | crypto/ed25519.c:146-211 | keys of value 2^255 + 1 and p + 1 are accepted although RFC 8032 rejects them |
| `Conformance.VerifyAgrees` | crypto/ed25519.c:189-211 | agreement for Curve25519 if and only if S is below L, given only that 2^255-19 is prime |
| `Conformance.VerifyTakesNoncanonical` | crypto/ed25519.c:146-211 | the two keys for Curve25519, given only that 2^255-19 is prime |
| `Ed25519.Malleable` | crypto/ed25519.c:189-211 | with no check S < L, acceptance depends on S only modulo any l that annihilates the base point |
| `AesBytes.TablesInverse` | crypto/wpa2_eapol.c:16-32 | `rsbox` and `sbox` are inverse permutations of the 256 bytes |
| `AesBytes.SboxMeaning` | crypto/wpa2.c:47-63 | the table is the affine image of the multiplicative inverse in GF(2^8), for every byte |
| `AesBytes.XtLinear` | crypto/wpa2.c:65 | doubling is additive over exclusive-or |
| `AesBytes.Gmul` | crypto/wpa2_eapol.c:34-41 | the 8-step loop is the shift-and-add product in GF(2^8) |
| `AesColumns.MixInverse` | crypto/wpa2_eapol.c:59-62 | the `gmul` matrix 14, 11, 13, 9 and the `xt` matrix 2, 3, 1, 1 are inverse on every column, both ways |
| `LinearMaps.CirculantInverse` | crypto/wpa2.c:90-96 | circulant matrices of linear maps whose product is the identity undo each other |
| `Aes.RotatedRowsMeaning` | crypto/wpa2.c:86-89 | the sixteen assignments rotate row r left by r columns |
| `Aes.RotatedRowsInverse` | crypto/wpa2_eapol.c:48-52 | the row shifts of the two ciphers are inverse permutations |
| `Aes.SubBytesInverse` | crypto/wpa2_eapol.c:53 | the byte substitutions undo each other on every state |
| `Aes.MixColumnsInverse` | crypto/wpa2_eapol.c:55-64 | the column mixings undo each other on every state |
| `Aes.ConfuseBytes` | crypto/wpa2.c:85-89 | column c of row r of the state comes from the substituted byte in column c + r |
| `Aes.MixColumnsBytes` | crypto/wpa2.c:90-96 | each column is multiplied in GF(2^8) by the matrix of 2, 3, 1, 1 |
| `Aes.CipherBytes` | crypto/wpa2.c:80-104 | byte i of the state is exclusive-ored with byte i of the round keys first, with byte 16 r + i after the mixing of round r, and with byte 160 + i at the end |
| `Aes.InvCipherBytes` | crypto/wpa2_eapol.c:43-67 | decryption meets byte 160 + i first, byte 16 r + i before the inverse mixing of round r, and byte i last |
| `RoundCipher.DecipherEncipher` | crypto/wpa2_eapol.c:43-67 | for any invertible layers, any number of rounds and any round keys, the inverse cipher undoes the cipher |
| `RoundCipher.EncipherDecipher` | crypto/wpa2.c:80-104 | and the cipher undoes the inverse cipher |
| `Aes.CipherInverse` | crypto/wpa2_eapol.c:43-67 | for every block and every 176-byte round-key array decryption undoes encryption and encryption undoes decryption |
| `AesCode.MixInto` | crypto/wpa2.c:90-96 | the column loop computes MixColumns |
| `AesCode.InvMixInPlace` | crypto/wpa2_eapol.c:55-64 | the column loop computes InvMixColumns in place |
| `AesCode.ShiftInto` | crypto/wpa2.c:86-89 | the assignments compute the row rotation |
| `AesCode.InvShiftInto` | crypto/wpa2_eapol.c:48-52 | the assignments compute the inverse row rotation |
| `AesCode.Round` | crypto/wpa2.c:84-97 | one full round in place |
| `AesCode.Encrypt` | crypto/wpa2.c:80-104 | the array code computes the cipher of FIPS 197 section 5.1, which `Aes.CipherBytes` gives byte by byte; output may be the input |
| `AesCode.InvRound` | crypto/wpa2_eapol.c:46-65 | one inverse round in place, without column mixing in the last |
| `AesCode.Decrypt` | crypto/wpa2_eapol.c:43-67 | the array code computes the inverse cipher, which `Aes.InvCipherBytes` gives byte by byte; output may be the input |
| `AesKeys.Expand` | crypto/wpa2.c:67-78 | the 176 bytes are the 44 words of the key schedule recurrence |
| `AesKeys.ExpandedMeaning` | crypto/wpa2.c:67-78 | the schedule starts with the key, and every later byte is the one 16 back exclusive-or the one 4 back, or at the start of a round key the substituted byte of the rotated word, the first with the round constant |
| `AesKeys.RconValues` | crypto/wpa2.c:68-75 | the round constants are 1, 2, 4, 8, 10, 20, 40, 80, 1b, 36 in hexadecimal |
| `KeyWrap.StepInverse` | crypto/wpa2_eapol.c:80-108 | a wrap step and the matching unwrap step undo each other |
| `KeyWrap.UnwrapExact` | crypto/wpa2_eapol.c:93-115 | for any invertible pair transformation and any number of registers, unwrapping accepts c with key data p if and only if c is the wrapping of p |
| `AesWrap.AesWrappingInverse` | crypto/wpa2_eapol.c:72-115 | the AES pair transformation and the counter mixing are invertible under every round-key array |
| `AesWrap.UnwrapBytesExact` | crypto/wpa2_eapol.c:93-115 | the same if-and-only-if on byte strings under every key-encryption key |
| `AesWrap.UnwrapWrap` | crypto/wpa2_eapol.c:72-115 | unwrapping a wrapped value returns 1 and the key data |
| `AesWrap.WrapUnwrap` | crypto/wpa2_eapol.c:72-115 | wrapping the output of a successful unwrap reproduces its input |
| `AesWrap.UnwrapAny` | crypto/wpa2_eapol.c:93-115 | unwrapping what was wrapped from any initial value returns the key data, and 1 exactly when that value is A6A6A6A6A6A6A6A6 |
| `AesWrap.XorCounterMeaning` | crypto/wpa2_eapol.c:84-85 | mixing in t is the exclusive-or with the eight bytes whose big-endian value is t |
| `AesWrap.WrapStepMeaning` | crypto/wpa2_eapol.c:80-86 | a step is that of RFC 3394 section 2.2.1: A becomes the first half of the encryption of A and the register exclusive-or t, the register the second half |
| `AesWrap.WrapMeaning` | crypto/wpa2_eapol.c:72-91 | wrapping starts from eight bytes A6 and the key data, makes the steps 1 to 6n of RFC 3394 in order, and outputs A and the registers |
| `AesWrapCode.WrapOne` | crypto/wpa2_eapol.c:80-86 | one step of the inner loop, the step of `AesWrap.WrapStepMeaning`, in place on `A` and `R` |
| `AesWrapCode.UnwrapOne` | crypto/wpa2_eapol.c:101-108 | one step of the inner loop, the inverse of the step of `AesWrap.WrapStepMeaning`, in place on `A` and `R` |
| `AesWrapCode.WrapRounds` | crypto/wpa2_eapol.c:78-88 | the nested loops run steps 1 to 6n in order |
| `AesWrapCode.UnwrapRounds` | crypto/wpa2_eapol.c:99-110 | the nested loops undo steps 6n to 1 in order |
| `AesWrapCode.AesKeyWrap` | crypto/wpa2_eapol.c:72-91 | writes the wrapping, the one of `AesWrap.WrapMeaning`, for n in 1 to 8, nothing otherwise; output may be the input |
| `AesWrapCode.AesKeyUnwrap` | crypto/wpa2_eapol.c:93-115 | for n in 1 to 8 returns the integrity check and writes the key data that `AesWrap.UnwrapBytesExact` and `AesWrap.UnwrapAny` fix; 0 and nothing otherwise |
| `AesCtr.IncrementValue` | crypto/wpa2.c:113 | the ripple increment is big-endian addition of one modulo 256^n |
| `AesCtr.AdvanceValue` | crypto/wpa2.c:108-115 | block k uses the counter iv + k modulo 2^128 |
| `AesCtr.CountersDistinct` | crypto/wpa2.c:108-115 | no counter block repeats within 2^128 blocks |
| `AesCtr.CtrTwice` | crypto/wpa2.c:106-116 | applying the mode twice is the identity for every length |
| `AesCtr.CtrSplit` | crypto/wpa2.c:106-116 | splitting at a multiple of 16 bytes with the counter advanced gives the same output |
| `AesCtr.IncrementInPlace` | crypto/wpa2.c:113 | the loop with its early exit computes the increment in the buffer |
| `AesCtr.Aes128Ctr` | crypto/wpa2.c:106-116 | the code computes the mode, in place too, and touches nothing past the length |
| `AesCtr.CtrMeaning` | crypto/wpa2.c:106-116 | byte i of the output is byte i of the input exclusive-or byte i mod 16 of the encryption of the block whose number is iv + i/16 modulo 2^128 |
| `Hmac.ComputeHmac` | crypto/wpa2.c:12-21 | HMAC-SHA1 of RFC 2104, long keys hashed first; output may be the message |
| `Hmac.HmacMeaning` | crypto/wpa2.c:12-21 | the hash of the key block exclusive-or 5c and the hash of the key block exclusive-or 36 and the message, the key block being the key or its hash filled up with zeros |
| `Kdf.PrefixStable` | crypto/wpa2_eapol.c:124-132 | the output for a shorter length is a prefix of the output for a longer one, for PBKDF2 and the PRF |
| `Kdf.IterateHmac` | crypto/wpa2.c:30-36 | a block is the exclusive-or of the iterated HMACs although `u` is hashed onto itself; fewer than one iteration counts as one |
| `Kdf.LoadSalt` | crypto/wpa2.c:28-29 | the salt followed by the block number in four big-endian bytes |
| `Kdf.Pbkdf2Sha1` | crypto/wpa2.c:23-40 | PBKDF2 of RFC 8018 section 5.2 for every output length |
| `Kdf.Pbkdf2Meaning` | crypto/wpa2.c:23-40 | block i, counted from 1, is the exclusive-or of U_1 to U_c, U_1 being the HMAC of the salt and i in four big-endian bytes and each next one that of the one before |
| `Kdf.PrfCounter` | crypto/wpa2_eapol.c:127 | two blocks hash the same message if and only if their numbers agree modulo 256 |
| `Kdf.Wpa2Prf` | crypto/wpa2_eapol.c:118-133 | the PRF of IEEE 802.11-2016 section 12.7.1.2 for every output length |
| `Kdf.PrfMeaning` | crypto/wpa2_eapol.c:118-133 | byte 20 i + k of the output is byte k of the HMAC of the label, a zero byte, the data and i modulo 256 |
| `CStrings.StrLen` | crypto/wpa2_eapol.c:13 | the number of bytes before the first NUL |
| `Ptk.CompareIsOrder` | crypto/wpa2_eapol.c:12 | the comparison orders equal-length strings as big-endian numbers |
| `Ptk.SortedSymmetric` | crypto/wpa2_eapol.c:139-142 | the concatenation of minimum and maximum does not depend on the order of the arguments |
| `Ptk.PtkSymmetric` | crypto/wpa2_eapol.c:135-144 | the key is unchanged by swapping the addresses or the nonces, independently |
| `Ptk.MemCmp` | crypto/wpa2_eapol.c:12 | the difference of the first unequal bytes |
| `Ptk.DerivePtk` | crypto/wpa2_eapol.c:135-144 | the PRF on the sorted addresses and sorted nonces |
| `Ptk.PtkMeaning` | crypto/wpa2_eapol.c:135-144 | the PRF under the label Pairwise key expansion of the smaller address, the larger, the smaller nonce and the larger, compared as big-endian numbers |
| `Streaming.PaddedLength` | crypto/sha256.c:67-74 | the padding ends on a block boundary and no fewer zeros would |
| `Streaming.PaddedBytes` | crypto/sha256.c:67-74 | the message, a byte 80, zeros up to the length field, and the length field in big-endian order |
| `HashCore.Core.Absorb` | crypto/sha256.c:57-61 | bytes that fit are buffered and a full buffer is compressed; the context stays the fold of the message |
| `HashCore.Core.Feed` | crypto/sha256.c:53-63 | any update extends the message |
| `HashCore.Core.FeedBytes` | crypto/sha1.c:29-32 | the byte-by-byte update extends the message |
| `HashCore.Core.Pad` | crypto/sha256.c:67-70 | the pad loop terminates with exactly the padding zeros |
| `Hashes.WordBytes` | crypto/sha256.c:72 | shifts and truncations give the bytes of a word, most significant first |
| `Hashes.StateBytes` | crypto/sha256.c:76-81 | the output loop serialises the chaining value word by word |
| `Hashes.DigestWords` | crypto/sha256.c:76-81 | word j of the chaining value stands in the digest after the words before it, most significant byte first |
| `Hashes.InitialValues` | crypto/sha512.c:59-65 | the initial words of SHA-512 are the first 64 bits of the fractions of the square roots of the first eight primes, those of SHA-256 their upper halves |
| `Hashes.Sha1.Update` | crypto/sha1.c:29-32 | extends the message and its length |
| `Hashes.Sha1.Final` | crypto/sha1.c:33-39 | the digest is FIPS 180-4 padding, folding and serialisation of the whole message |
| `Hashes.Sha256.Update` | crypto/sha256.c:53-63 | extends the message and its bit length |
| `Hashes.Sha256.Final` | crypto/sha256.c:65-82 | the digest is FIPS 180-4 padding, folding and serialisation of the whole message |
| `Hashes.Sha512.Update` | crypto/sha512.c:67-78 | extends the message; the two-word counter is 128-bit addition of the truncated length in bits |
| `Hashes.Sha512.Final` | crypto/sha512.c:80-93 | the digest of the message with the counter as its length field |
| `Hashes.HashChunks1` | crypto/sha1.c:25-39 | any sequence of updates gives the digest of the concatenation |
| `Hashes.HashChunks256` | crypto/sha256.c:47-82 | any sequence of updates gives the digest of the concatenation |
| `Hashes.HashChunks512` | crypto/sha512.c:59-93 | any sequence of updates whose lost bits add up to a multiple of 2^64, in particular of updates below 2^61 bytes, gives the digest of the concatenation |
| `Hashes.CounterExact` | crypto/sha512.c:69-70 | over any run the counter is the length in bits if and only if the update lengths, each divided by 2^61 and rounded down, add up to a multiple of 2^64 |
| `Hashes.CounterStep` | crypto/sha512.c:69-70 | one update keeps the counter right if and only if it is shorter than 2^61 bytes |
| `Hashes.CounterLosesBits` | crypto/sha512.c:69-70 | an update of 2^61 bytes is not counted |
| `PageWindow.PickSlideFits` | boot/kaslr_core.c:113-118 | the slide is 2 MiB aligned, below the slot count, and keeps the window in the top 2 GiB |
| `PageWindow.PickSlideOnto` | boot/kaslr_core.c:113-118 | every slot can be drawn |
| `PageWindow.RelocatedAddress` | boot/kaslr.h:42-51 | a 64-bit field and a sign-extended 32-bit field that hold a link address both come to hold the address plus the slide |
| `PageWindow.MapWindow` | boot/kaslr_core.c:182-191 | for every 64-bit slide each directory entry is the page it should be or zero, and only two upper entries change |
| `PageWindow.WalkWindow` | boot/kaslr_core.c:182-191 | in the top 2 GiB the walk gives va - slide - link base inside the window and a fault everywhere else |
| `PageWindow.RelocatedReachesSameByte` | boot/kaslr_core.c:113-138 | a relocated link address looked up in the new tables is the physical byte it was loaded at |
| `PageWindow.WindowHas256Pages` | boot/kaslr_core.c:182-191 | exactly 256 of the 1024 directory entries are present |
| `Relocate.FieldsMove` | boot/kaslr_core.c:124-133 | in a well-formed table every listed field is increased by the slide modulo its width |
| `Relocate.OthersStay` | boot/kaslr_core.c:124-133 | every byte outside the listed fields is unchanged |
| `Relocate.RelocationUndone` | boot/kaslr_core.c:124-133 | subtracting the slide restores the memory exactly |
| `Relocate.RelocateFields` | boot/kaslr_core.c:124-133 | the loop over the table performs the additions in order |
| `Relocate.FieldOfEntry` | boot/kaslr_core.c:125-132 | an entry with bit 31 names a 32-bit field, one without a 64-bit field, at the address in the other bits |
| `Mixer.FoldInverse` | boot/kaslr_core.c:50-52 | exclusive-or with a shift by at least a third of the width is undone by two such shifts |
| `Mixer.MixBijective` | boot/kaslr_core.c:48-53 | `kc_mix` is a bijection of 64-bit words, with its inverse given |
| `Mixer.MixMeaning` | boot/kaslr_core.c:48-53 | `kc_mix` is the three stages of the SplitMix64 finaliser with shifts 30, 27 and 31 and its constants |
| `KaslrBoot.GuardShape` | boot/kaslr_core.c:140-146 | the stack guard of every draw is the mixed draw with its low byte cleared, or 5EC05EC05EC05E00 if that is zero |
| `KaslrBoot.GuardDraws` | boot/kaslr_core.c:140-146 | every guard comes from exactly 256 draws, the fallback value from 512 |
| `KaslrBoot.BootApplies` | boot/kaslr_core.c:195-216 | after one call on a valid header the relocations are marked applied with the returned slide |
| `KaslrBoot.BootOnce` | boot/kaslr_core.c:195-216 | a second call, whatever its inputs, changes nothing and returns the same slide |
| `KaslrBoot.RunOnce` | boot/kaslr_core.c:195-216 | over any sequence of calls header and image stay as the first call left them |
| `KaslrBoot.BootMovesFields` | boot/kaslr_core.c:195-216 | the first call moves every listed field by the returned slide although the guard is stored too |
| `KaslrBoot.BootKeepsOthers` | boot/kaslr_core.c:120-146 | bytes outside the fields and the guard are left alone |
| `KaslrBoot.BootRefused` | boot/kaslr_core.c:75-80 | with a wrong magic, version, link base or alignment, or more than 768 slots, nothing changes and the slide is 0 |
| `KaslrBoot.BootSlide` | boot/kaslr_core.c:195-216 | on a machine ready to boot, with a well-formed Multiboot2 block: slide 0 if KASLR is disabled by build or by nokaslr on the first command line, the drawn slot times 2 MiB otherwise, and the header records slide, source and exactly the matching state bits |
| `KaslrBoot.BootWithoutBlock` | boot/kaslr_core.c:166-170 | with a wrong magic, no block or a bad total size, only the build flag disables KASLR |
| `KaslrBoot.BootStoresGuard` | boot/kaslr_core.c:140-146 | the eight bytes at the guard address hold the guard made of the second draw |
| `KaslrBoot.PointersReachSameByte` | boot/kaslr_core.c:113-216 | a pointer in the image, relocated by a call and followed through the tables of that call, reaches the byte it was linked to |
| `KaslrBoot.Relocator.ApplySlide` | boot/kaslr_core.c:120-138 | relocates and records the slide, or refuses a bad or already applied header |
| `KaslrBoot.Relocator.StoreGuard` | boot/kaslr_core.c:140-146 | stores the guard made of the raw draw once, if the header is valid and has one |
| `KaslrBoot.Relocator.BootMb2` | boot/kaslr_core.c:195-216 | the whole entry: the new header and image, the slide that `KaslrBoot.BootSlide` and `KaslrBoot.BootWithoutBlock` determine, and the tables for it |
| `BootOptions.SplitWords` | boot/kaslr_core.c:148-164 | the words of a split line are exactly those that start at the beginning or after a separator |
| `BootOptions.HasOptionMeaning` | boot/kaslr_core.c:148-164 | the option is set if and only if the letters nokaslr stand somewhere in the line with NUL, tab, newline, carriage return, space or an end of the line on either side |
| `BootOptions.OptionStarts` | boot/kaslr_core.c:157-162 | the body of the loop decides whether the option is the word at a position |
| `BootOptions.CmdlineNoKaslr` | boot/kaslr_core.c:152-164 | for every memory and length: 1 if and only if splitting the line at separators yields the word `nokaslr` |
| `BootOptions.Mb2NoKaslr` | boot/kaslr_core.c:166-180 | the tag walk terminates on every block and returns the answer for the first command line before the end |
| `BootOptions.NoWrap` | boot/kaslr_core.c:170-178 | for a block below 2^64 - 2^33 no address of the walk reaches 2^64, so unbounded addresses are exact |
| `BootOptions.BlockAnswer` | boot/kaslr_core.c:166-180 | on every well-formed Multiboot2 block the answer is that of its first command-line tag, or 0 |
| `Measurement.RevertedIsOriginal` | kernel/kaslr.c:146-150 | subtracting the slide from a relocated field gives the bytes of the file |
| `Measurement.NextField` | kernel/kaslr.c:145-153 | a field in the range: the bytes before it, then its own bytes reverted and cut at the end |
| `Measurement.EachField` | kernel/kaslr.c:139-154 | the scan over a sorted table feeds the file's bytes up to where it stops, except those of a field across the start, and nothing after that is relocated |
| `Measurement.Measure` | kernel/kaslr.c:129-158 | SHA-256 of `Measured`, the file's bytes but for the rest of a field across the start, for every sorted table, slide and range, empty ones included, with a header or without |
| `Measurement.MeasuredIsFile` | kernel/kaslr.c:129-158 | if no field lies across the start, what is hashed is the file, whatever the slide |
| `Measurement.MeasuredAsLoaded` | kernel/kaslr.c:135-157 | without a header, or with slide 0, the image is hashed as it lies in memory |
| `DigitSlices.DigitsKept` | kernel/kaslr.c:144 | adding s keeps the digits from a to w of v if and only if v mod a plus s mod w is below a or at least w |
| `Measurement.MeasuredExact` | kernel/kaslr.c:144 | what is hashed is the file if and only if no field lies across the start, or, with o bytes of that field before the start and t before the end, its value mod 256^o plus the slide mod 256^t is below 256^o or at least 256^t |
| `Measurement.MeasuredDiffers` | kernel/kaslr.c:144 | a range that starts two bytes into a field of zeros is not measured as the file when the slide is 2 MiB |
| `Csprng.NextKeyIgnoresLength` | crypto/csprng.c:114-140 | the next key and request number do not depend on the requested length |
| `Csprng.OutputPrefix` | crypto/csprng.c:119-133 | asking for less gives a prefix |
| `Csprng.PreparedKey` | crypto/csprng.c:60-117 | a request uses the key it finds, or after a reseed the hash of that key, the hardware words, the 256 time differences, ticks, time stamp, counter and pool; it reseeds if the generator is not ready or 2^20 bytes were produced |
| `Csprng.StartState` | crypto/csprng.c:108-112 | `csprng_init` seeds a generator that is not ready, with the same hash, and leaves one that is alone |
| `Csprng.OutputBytes` | crypto/csprng.c:119-133 | byte 32 b + i of the output is byte i of the hash of the key after the reseeds, the request number and b, each number in eight little-endian bytes |
| `Csprng.NextState` | crypto/csprng.c:119-139 | a request leaves the hash of its key, the letters rekey and the request number as the key, and counts the request and the bytes |
| `Csprng.CounterIsRequests` | crypto/csprng.c:119 | over any run of fewer than 2^64 requests the request numbers are 1, 2, 3, ... |
| `Csprng.PreparedBelow` | crypto/csprng.c:117 | every request starts to generate below 2^20 bytes since the last reseed |
| `Csprng.SinceIsOutput` | crypto/csprng.c:60-140 | over any run the byte counter is the output since the last reseed modulo 2^64, and equal to it if and only if that output is below 2^64 |
| `Csprng.OverlongRequest` | crypto/csprng.c:117-132 | a first request of 2^20 + 1 bytes is answered from one seed, so the output since a reseed can exceed the threshold |
| `Csprng.WithinThreshold` | crypto/csprng.c:117-132 | a request keeps the output since the last reseed within 2^20 if and only if it fits into what is left after the reseed check |
| `Csprng.OutputBound` | crypto/csprng.c:117-132 | over any run of requests of at most n bytes, n not above 2^64 - 2^20, the output since the last reseed stays below 2^20 + n |
| `Csprng.BoundAttained` | crypto/csprng.c:117-132 | and some such run attains 2^20 + n - 1 |
| `Csprng.BoundExact` | crypto/csprng.c:117-132 | that bound holds of every run if and only if n is not above 2^64 - 2^20: beyond, the byte counter can turn over |
| `Csprng.TagUnique` | crypto/csprng.c:60-139 | a hashed message determines whether it was for a seed, a block or a rekey, the key it was hashed under, and its numbers |
| `Csprng.LogCarries` | crypto/csprng.c:60-140 | over any run every hashed message starts with the key of the state that hashed it and carries its numbers in their places |
| `Csprng.MessagesDistinct` | crypto/csprng.c:60-140 | over any run of fewer than 2^64 requests all hashed messages, seeds included, are pairwise distinct |
| `Csprng.Generator.Reseed` | crypto/csprng.c:60-87 | the key becomes the hash of the key and the collected entropy, the byte counter 0 |
| `Csprng.Generator.Init` | crypto/csprng.c:89-98 | seeds once |
| `Csprng.Generator.Generate` | crypto/csprng.c:120-132 | the loop writes the blocks of `Csprng.OutputBytes`, counts the bytes and hashes exactly the block messages |
| `Csprng.Generator.Get` | crypto/csprng.c:114-140 | a request performs one step of the state machine (`Csprng.NextState`) and writes its output (`Csprng.OutputBytes`), nothing past the length |

## Left out

- The block functions of SHA-1, SHA-256 and SHA-512: parameters of every theorem.
- Ed25519.ChallengeMeaning: for messages below 2^61 bytes, because from there on `sha512_update` loses bits of the length (`Hashes.CounterExact`) and what it computes is not SHA-512. The same bound separates two cases of `Ed25519.VerifyMeaning` and is a hypothesis of the agreement theorems in `Conformance`.
- That 2^255-19 is prime: the hypothesis of `Ed25519.VerifyMeaning` and of the theorems on Curve25519 in `Conformance`. Fermat's theorem and that d is not a square are derived from it.
- That L times the base point is zero: a hypothesis of `Ed25519.Malleable`, which is stated for any such number.
- Cryptographic hardness and constant-time behaviour: not functional properties.
- `kaslr_entropy`: its results are arbitrary inputs.
- Hardware instructions, port access, `csprng_stir_tsc` and the timing loop of `reseed`: their results are arbitrary inputs.
- Spinlocks and interrupts: each locked section is atomic.
- Partially overlapping buffers in `aes128_ctr`, `hmac_sha1` and the field code: arrays are equal or disjoint.
- BootOptions.Mb2NoKaslr: addresses are unbounded, which is exact below 2^64 - 2^33 (`BootOptions.NoWrap`); blocks at the very top of the address space, where pointers wrap, are not modelled.
- Kdf.Pbkdf2Sha1: for salts of at most 64 bytes, since `s2` has 68 bytes and the source does not check `slen`.
- Kdf.Wpa2Prf: for a label and data of at most 158 bytes together, since `buf` has 160 bytes for them, a NUL and the counter, and the source does not check the lengths.
- Measurement.Measure: for tables in increasing order without overlap; `boot/kaslr.h` defines the table as sorted by address.
- `wpa2_pmk`, `wpa2_eapol_mic`, `csprng_u32`, the one-call hash wrappers: direct calls of what is modelled.
- Self-tests, logging, `kaslr_init`, `kaslr_report`, drivers, headers of test data: no behaviour to add.

# Verified model of the physical key: arithmetic, signatures, ratchet and backend

A physical key is an ESP32 board with an Ed25519 identity, an iPhone that talks to it, and a backend that
issues sessions. This project models, in Dafny, the chain from limb arithmetic on the board up to the
sessions the backend grants, and proves what each link promises.

| files | what they model |
|---|---|
| `Arith`, `Bits`, `Bytes`, `Limbs`, `Options` | integers, bitwise operations, byte strings and 32-bit limbs |
| `BigNumberUtil`, `Curve25519`, `Field` | in-place limb arithmetic, and the prime field that it computes in |
| `X25519` | clamping, the ladder and the two phases of a key exchange |
| `Edwards`, `EdwardsLaws`, `Group`, `Points` | the curve, its addition laws, and the point operations on buffers |
| `MontgomeryAlgebra`, `Montgomery`, `LadderLaws`, `WeakPoints` | the Montgomery form of the curve and of its twist, what the ladder computes on them, and the points of small order |
| `Encoding`, `PointCodec`, `Scalars`, `Ed25519` | point encoding, Barrett reduction, signing and verification |
| `SHA2`, `SHA2Laws`, `SHA2Constants`, `SHA512` | FIPS 180-4 and FIPS 198-1 on whole messages, what their functions and constants mean, and the streaming implementation |
| `RatchetWire`, `RatchetDevice`, `RatchetPhone`, `RatchetBackend`, `RatchetRuns`, `RatchetProofs`, `RatchetSession` | the three-party session ratchet |
| `AuthProtocol`, `AuthServer`, `AuthRuns`, `AuthTokens`, `AuthIdentities`, `AuthRepairs`, `AuthSweeps` | challenges, trust on first use, tokens, repair |
| `AuthOrgs` | logins and changes of the team accounts in one run |
| `Organizations`, `AuditLog` | team accounts, and the hash-chained log |

Code that works in place is modelled as methods on arrays and objects, with the source's aliasing; each
method is proved against a function of its inputs, and the theorems are lemmas about those functions.
`dafny verify dfyconfig.toml` checks the whole project.

Where the code and its documentation disagree the model follows the code: `reduceQ` is used beyond its
documented bound and is right there too; `verify` takes any 255-bit s and `decodePoint` takes y from p up
to 2^255 - 1; the audit log misses edits that keep the concatenation of the fields, and cut-off ends.

## Hypotheses

Named predicates that theorems require and nothing here proves:

- `Field.PrimeP`: 2^255 - 19 has no divisors.
- `EdwardsLaws.NonSquare(d)`: d is not a square modulo p.
- `Group.CurveLaws(d)`: these two, and associativity of addition on the Edwards curve with that d. Theorems ask
  for it at the d of the curve; those about the twist and the weak coordinates, for its d too, which is the inverse. That addition is
  complete, closed and commutative is proved.
- `Multiple(Q, B) == O` in `Ed25519.SignedIsAccepted`: q times the base point is the identity.
- `RatchetSession.TakesSignatures` and `IsHmac`: the backend's verifier takes the signatures that `verify`
  takes and that are strict, and its MAC is HMAC-SHA512.
- `RatchetRuns.DistinctProofs` and `SeparatesKeys`: the proofs of a run do not repeat, and the MAC tells them
  apart on the challenges of that run. Injectivity in 32-byte keys would be more. The first of them follows
  from `RatchetProofs.NoHmacCollision`, that HMAC-SHA512 on the one text of the code, cut to 32 bytes, tells
  the shared secrets of the run apart, if those are different.
- `AuditLog.Oracles.Digests` and `AuditLog.NoCollision`: digests have 64 letters and are never the genesis
  hash, and no two different strings among those that the two chains hash have the same hash.
- `AuditLog.Oracles.RoundTrips`: JSON details read back as themselves.
- `AuthTokens.FreshIds`, `AuthRepairs.FreshRepairIds` and `AuthRuns.NonDecreasing`: fresh ids, and a clock
  that does not run back.

## Model

| member | source | states |
|---|---|---|
| BigNumberUtil.Add | hardware/firmware-idf/PhysicalKeyDevice/components/ed25519/BigNumberUtil.cpp:495-507 | result and carry together are exactly x + y, for any size and for a result that is one of the operands; limbs beyond size keep their values |
| BigNumberUtil.Sub | hardware/firmware-idf/PhysicalKeyDevice/components/ed25519/BigNumberUtil.cpp:522-532 | result and borrow satisfy x + borrow·2^(32·size) = result + y, with the borrow taken from bit 32 of a wrapping 64-bit register |
| BigNumberUtil.SubP | hardware/firmware-idf/PhysicalKeyDevice/components/ed25519/BigNumberUtil.cpp:655-665 | the same against a constant in program memory |
| BigNumberUtil.ReduceQuickP | hardware/firmware-idf/PhysicalKeyDevice/components/ed25519/BigNumberUtil.cpp:734-750 | subtracts y exactly if y ≤ x, with the borrow spread to a mask and y added back under it, also in place |
| BigNumberUtil.MulP | hardware/firmware-idf/PhysicalKeyDevice/components/ed25519/BigNumberUtil.cpp:680-715 | the exact product of any xcount limbs by any non-empty constant, also when the product's top limb lies over the lowest limb of its own factor |
| BigNumberUtil.UnpackLE | hardware/firmware-idf/PhysicalKeyDevice/components/ed25519/BigNumberUtil.cpp:55-146 | the limbs hold the little-endian number of the bytes, zero-filled if short and truncated if long |
| BigNumberUtil.PackLE | hardware/firmware-idf/PhysicalKeyDevice/components/ed25519/BigNumberUtil.cpp:264-357 | the bytes are the little-endian form of the limbs, cut or zero-filled to the length asked for, and no other byte changes |
| Limbs.ValInjective | hardware/firmware-idf/PhysicalKeyDevice/components/ed25519/Curve25519.cpp:1591-1600 | limb arrays of one size are equal exactly when their numbers are, which is why memcmp decides equality of reduced field elements |
| Curve25519.Reduce | hardware/firmware-idf/PhysicalKeyDevice/components/ed25519/Curve25519.cpp:366-631 | the canonical residue modulo 2^255 - 19 of every 512-bit input, and of every input whose high half has only size limbs; two folding passes and one trial subtraction suffice and no double limb overflows |
| Curve25519.ReduceQuick | hardware/firmware-idf/PhysicalKeyDevice/components/ed25519/Curve25519.cpp:646-765 | one trial subtraction of p, and a mask that tells whether it borrowed |
| Curve25519.MulNoReduce | hardware/firmware-idf/PhysicalKeyDevice/components/ed25519/Curve25519.cpp:779-919 | the exact 512-bit product of two 256-bit numbers |
| Curve25519.Mul | hardware/firmware-idf/PhysicalKeyDevice/components/ed25519/Curve25519.cpp:931-938 | the canonical product, whatever 256-bit operands are given and whichever of them is the result |
| Curve25519.MulA24 | hardware/firmware-idf/PhysicalKeyDevice/components/ed25519/Curve25519.cpp:959-1055 | the canonical product by 121665 through the one-limb reduction |
| Curve25519.MulP | hardware/firmware-idf/PhysicalKeyDevice/components/ed25519/Curve25519.cpp:1068-1107 | the canonical product by a constant |
| Curve25519.Add | hardware/firmware-idf/PhysicalKeyDevice/components/ed25519/Curve25519.cpp:1119-1182 | the canonical sum of reduced operands |
| Curve25519.AddWide | hardware/firmware-idf/PhysicalKeyDevice/components/ed25519/Curve25519.cpp:1119-1182 | what the same code does to operands that need not be reduced, as point decoding leaves y |
| Curve25519.Sub | hardware/firmware-idf/PhysicalKeyDevice/components/ed25519/Curve25519.cpp:1194-1297 | the canonical difference of reduced operands; the conditional subtraction of 19 and the top-bit mask add p exactly after a borrow |
| Curve25519.SubWide | hardware/firmware-idf/PhysicalKeyDevice/components/ed25519/Curve25519.cpp:1194-1297 | the same code on a first operand anywhere below 2^255 |
| Curve25519.CSwap | hardware/firmware-idf/PhysicalKeyDevice/components/ed25519/Curve25519.cpp:1311-1397 | swaps two numbers exactly if select is not zero, by masked exclusive or |
| Curve25519.CMove | hardware/firmware-idf/PhysicalKeyDevice/components/ed25519/Curve25519.cpp:1411-1483 | moves y into x exactly if select is not zero |
| Curve25519.Pow250 | hardware/firmware-idf/PhysicalKeyDevice/components/ed25519/Curve25519.cpp:1491-1530 | the addition chain raises to the power 2^250 - 1 |
| Curve25519.Recip | hardware/firmware-idf/PhysicalKeyDevice/components/ed25519/Curve25519.cpp:1539-1556 | the power p - 2, for every operand |
| Field.InvWorks | hardware/firmware-idf/PhysicalKeyDevice/components/ed25519/Curve25519.cpp:1532-1538 | if p is prime, x times that power is one for every x that is not zero modulo p (Fermat's theorem is proved, not assumed) |
| Curve25519.Sqrt | hardware/firmware-idf/PhysicalKeyDevice/components/ed25519/Curve25519.cpp:1573-1610 | the candidate root with its correction by a root of -1, and true exactly if its square is the operand |
| Field.SqrtDecides | hardware/firmware-idf/PhysicalKeyDevice/components/ed25519/Curve25519.cpp:1558-1572 | the candidate's square is x exactly if x is a square modulo p at all, so the answer of sqrt decides squares |
| Field.TwoRoots | hardware/firmware-idf/PhysicalKeyDevice/components/ed25519/Ed25519.cpp:605-612 | a number has at most the two roots a and -a, so flipping the sign reaches the other one |
| X25519.LadderStep | hardware/firmware-idf/PhysicalKeyDevice/components/ed25519/Curve25519.cpp:142-161 | one pass of the ladder between the conditional swaps is the doubling and differential addition of RFC 7748, section 5 |
| X25519.SelectBit | hardware/firmware-idf/PhysicalKeyDevice/components/ed25519/Curve25519.cpp:134-141 | the masked byte selects bit t of the scalar, and combining it with the pending swap tells whether the pairs must be swapped now |
| X25519.RunLadder | hardware/firmware-idf/PhysicalKeyDevice/components/ed25519/Curve25519.cpp:131-175 | 255 passes with swaps put off, re-aligned and merged compute what the ladder that swaps before and after every bit computes |
| Montgomery.DoubleStands | hardware/firmware-idf/PhysicalKeyDevice/components/ed25519/Curve25519.cpp:143-159 | what the step computes of one pair is the x-coordinate of the double of its point, for every point of an Edwards curve whose d is not a square |
| Montgomery.AddStands | hardware/firmware-idf/PhysicalKeyDevice/components/ed25519/Curve25519.cpp:148-155 | what the step computes of both pairs is the x-coordinate of the sum of their points, if x is the x-coordinate of their difference and not zero |
| LadderLaws.LadderInvariant | hardware/firmware-idf/PhysicalKeyDevice/components/ed25519/Curve25519.cpp:131-175 | after any number of bits the two pairs are the x-coordinates of n and n + 1 times the point, where n is the bits read so far, for every point of the curve or of its twist whose x-coordinate is not zero |
| LadderLaws.LadderMultiplies | hardware/firmware-idf/PhysicalKeyDevice/components/ed25519/Curve25519.cpp:80-200 | so for every point of the curve or of its twist, those with x-coordinate zero included, the ladder gives the x-coordinate of the multiple by the scalar without its top bit, which is zero for the identity |
| Montgomery.EdwardsPoint | hardware/firmware-idf/PhysicalKeyDevice/components/ed25519/Curve25519.cpp:80-90 | every nonzero x-coordinate on v² = u³ + 486662 u² + u, or on d v² = u³ + 486662 u² + u, is that of a point of the Edwards curve of its side |
| LadderLaws.EveryCoordinate | hardware/firmware-idf/PhysicalKeyDevice/components/ed25519/Curve25519.cpp:80-90 | every x that eval can be given is the x-coordinate of a point on one of the two sides, so that the ladder is multiplication on all of them |
| MontgomeryAlgebra.OneSide | hardware/firmware-idf/PhysicalKeyDevice/components/ed25519/Curve25519.cpp:80-90 | and no x but zero is on both |
| LadderLaws.LaddersCommute | hardware/firmware-idf/PhysicalKeyDevice/components/ed25519/Curve25519.cpp:80-200 | two ladders one after the other give the same in either order, from any x whatever |
| LadderLaws.PublicIs | hardware/firmware-idf/PhysicalKeyDevice/components/ed25519/Curve25519.cpp:245-266 | a public key is the x-coordinate of the secret's multiple of the Ed25519 base point, whose own is 9 |
| LadderLaws.SharedIs | hardware/firmware-idf/PhysicalKeyDevice/components/ed25519/Curve25519.cpp:283-298 | what a secret makes of any key from the other side, reduced or not: the x-coordinate of its multiple of a point with the x-coordinate of that key |
| LadderLaws.SecretsCommute | hardware/firmware-idf/PhysicalKeyDevice/components/ed25519/Curve25519.cpp:245-298 | both sides of an exchange compute the same secret from the other's public key, whatever the two secrets are |
| X25519.BitsReadAll | hardware/firmware-idf/PhysicalKeyDevice/components/ed25519/Curve25519.cpp:129-135 | the bits read are the scalar without its top bit |
| X25519.Eval | hardware/firmware-idf/PhysicalKeyDevice/components/ed25519/Curve25519.cpp:80-200 | for every scalar and every x: true exactly if x without its top bit is below p, and the result is the ladder's x-coordinate on the reduced x either way |
| X25519.IsWeakPoint | hardware/firmware-idf/PhysicalKeyDevice/components/ed25519/Curve25519.cpp:307-352 | one exactly if the masked point is one of the five numbers of the table |
| X25519.Dh1 | hardware/firmware-idf/PhysicalKeyDevice/components/ed25519/Curve25519.cpp:245-266 | the secret is the first clamped draw whose public key is not weak, and the key is the ladder on 9 |
| X25519.DrawnMeans | hardware/firmware-idf/PhysicalKeyDevice/components/ed25519/Curve25519.cpp:250-265 | so the secret is a multiple of eight from 2^254 on and below 2^255, whose bits 3 to 253 are those of the first draw that makes no weak key |
| Bytes.ClampMeans | hardware/firmware-idf/PhysicalKeyDevice/components/ed25519/Curve25519.cpp:252-254 | for every 32 bytes: clamping makes a multiple of eight in [2^254, 2^255) with the bits 3 to 253 of the string |
| WeakPoints.WeakOrder | hardware/firmware-idf/PhysicalKeyDevice/components/ed25519/Curve25519.cpp:300-306 | eight times a point with a weak x-coordinate is the identity, on the curve and on its twist |
| WeakPoints.DrawnTakesWeakToZero | hardware/firmware-idf/PhysicalKeyDevice/components/ed25519/Curve25519.cpp:245-266 | so the ladder of a drawn secret takes each of the five weak coordinates to zero |
| WeakPoints.WeakKeyGivesZero | hardware/firmware-idf/PhysicalKeyDevice/components/ed25519/Curve25519.cpp:283-298 | and any clamped secret makes zero of a weak key from the other side, whether or not its top bit is set |
| WeakPoints.WeakExactly | hardware/firmware-idf/PhysicalKeyDevice/components/ed25519/Curve25519.cpp:307-346 | the table is complete and has nothing too much: a number below p is in it exactly if the ladder takes it to zero for the scalar eight |
| WeakPoints.WeakKeyExactly | hardware/firmware-idf/PhysicalKeyDevice/components/ed25519/Curve25519.cpp:307-352 | so 32 bytes are found weak exactly if, without the top bit, they are such a number |
| X25519.Dh2 | hardware/firmware-idf/PhysicalKeyDevice/components/ed25519/Curve25519.cpp:283-298 | the shared secret, true exactly if the other key is reduced and neither it nor the result is weak, both written out; and the private key is wiped |
| Edwards.ExtAddRepresents | hardware/firmware-idf/PhysicalKeyDevice/components/ed25519/Ed25519.cpp:471-501 | if p is prime, the extended-coordinate formula adds the affine points that its operands stand for, wherever the affine sum is defined; doubling is the case of equal operands |
| Edwards.ExtendedProduct | hardware/firmware-idf/PhysicalKeyDevice/components/ed25519/Ed25519.cpp:392-395 | extended coordinates of any point keep X·Y = Z·T |
| EdwardsLaws.SumIsComplete | hardware/firmware-idf/PhysicalKeyDevice/components/ed25519/Ed25519.cpp:78-82 | if p is prime and d is not a square, the denominators of a sum of curve points never vanish |
| EdwardsLaws.SumOnCurve | hardware/firmware-idf/PhysicalKeyDevice/components/ed25519/Ed25519.cpp:465-470 | the sum of two curve points satisfies the curve equation |
| Points.Add | hardware/firmware-idf/PhysicalKeyDevice/components/ed25519/Ed25519.cpp:471-501 | p becomes the extended sum, with the partial results kept in its own t and z |
| Points.Double | hardware/firmware-idf/PhysicalKeyDevice/components/ed25519/Ed25519.cpp:411-427 | the inlined doubling is the addition of p to itself |
| Points.AddIf | hardware/firmware-idf/PhysicalKeyDevice/components/ed25519/Ed25519.cpp:374-409 | the constant-time path through q and the conditional moves and the variable-time path leave the same result: the sum if the bit is set, the old value if not |
| Points.SelectBit | hardware/firmware-idf/PhysicalKeyDevice/components/ed25519/Ed25519.cpp:374-375 | the mask at position t of the limbs selects bit t of the scalar |
| Points.MulPoint | hardware/firmware-idf/PhysicalKeyDevice/components/ed25519/Ed25519.cpp:352-444 | double-and-add over the low 255 bits of any scalar, for both values of constTime |
| Points.MulBase | hardware/firmware-idf/PhysicalKeyDevice/components/ed25519/Ed25519.cpp:454-463 | the same on the base point from its constants |
| Points.BaseRepresents | hardware/firmware-idf/PhysicalKeyDevice/components/ed25519/Ed25519.cpp:90-106 | the constants are the base point in extended coordinates, and it is on the curve |
| Group.DoubleAndAddRepresents | hardware/firmware-idf/PhysicalKeyDevice/components/ed25519/Ed25519.cpp:367-436 | loop invariant of mul: after n bits the result stands for the scalar's low n bits times the point, added to where it began |
| Ed25519.TimesPointRepresents | hardware/firmware-idf/PhysicalKeyDevice/components/ed25519/Ed25519.cpp:352-444 | mul yields (s mod 2^255) times the point, on the curve |
| Points.Equal | hardware/firmware-idf/PhysicalKeyDevice/components/ed25519/Ed25519.cpp:511-528 | cross-multiplied comparison of both coordinates |
| Points.SameAffineIsEqual | hardware/firmware-idf/PhysicalKeyDevice/components/ed25519/Ed25519.cpp:503-510 | cross-multiplied equality holds exactly if the two points are equal |
| PointCodec.EncodePoint | hardware/firmware-idf/PhysicalKeyDevice/components/ed25519/Ed25519.cpp:539-555 | the 32 bytes of y with the lowest bit of x on top, of the affine point |
| PointCodec.BaseEncodes | hardware/firmware-idf/PhysicalKeyDevice/components/ed25519/Ed25519.cpp:539-555 | the base point, with the root that the constants choose, is the byte 0x58 and thirty-one bytes 0x66 |
| PointCodec.AffineIs | hardware/firmware-idf/PhysicalKeyDevice/components/ed25519/Ed25519.cpp:541-548 | dividing by z gives the point that the coordinates stand for |
| PointCodec.DecodePoint | hardware/firmware-idf/PhysicalKeyDevice/components/ed25519/Ed25519.cpp:569-617 | true exactly if the string decodes, and then x, the 255 bits of y as they came, z = 1 and t = x y; including x = 0 with either sign bit |
| Encoding.DecodeEncode | hardware/firmware-idf/PhysicalKeyDevice/components/ed25519/Ed25519.cpp:539-617 | decoding undoes encoding for every point of the curve |
| Encoding.EncodeDecode | hardware/firmware-idf/PhysicalKeyDevice/components/ed25519/Ed25519.cpp:539-617 | every string that decodes is the encoding of what it decodes to |
| Encoding.DecodesExactly | hardware/firmware-idf/PhysicalKeyDevice/components/ed25519/Ed25519.cpp:569-617 | a string whose y is reduced decodes exactly if it is the encoding of some curve point |
| Encoding.DecodeOnCurve | hardware/firmware-idf/PhysicalKeyDevice/components/ed25519/Ed25519.cpp:583-617 | whatever decodes is on the curve, if p is prime and d is not a square, although the code never checks its denominator |
| Scalars.ReduceQ | hardware/firmware-idf/PhysicalKeyDevice/components/ed25519/Ed25519.cpp:302-341 | the residue modulo q of every 512-bit number, not only of the documented r ≤ (q - 1)², although the second product overwrites its own factor; the result may be r |
| Ed25519.OrderIs | hardware/firmware-idf/PhysicalKeyDevice/components/ed25519/Ed25519.cpp:108-112 | q is the order that RFC 8032, section 5.1, gives |
| Scalars.Barrett | hardware/firmware-idf/PhysicalKeyDevice/components/ed25519/Ed25519.cpp:304-317 | with any m = floor(h / q) and r < h, the estimated quotient leaves less than 2 q |
| Scalars.ReduceQFromBuffer | hardware/firmware-idf/PhysicalKeyDevice/components/ed25519/Ed25519.cpp:283-288 | the residue of a 64-byte little-endian string |
| Ed25519.DeriveKeys | hardware/firmware-idf/PhysicalKeyDevice/components/ed25519/Ed25519.cpp:629-642 | the clamped scalar, and the prefix left in bytes 32 to 63 of the hash buffer |
| Ed25519.SecretScalarMeans | hardware/firmware-idf/PhysicalKeyDevice/components/ed25519/Ed25519.cpp:632-641 | that scalar is a multiple of eight in [2^254, 2^255) with the bits 3 to 253 of the first half of the key's digest |
| Ed25519.DerivePublicKey | hardware/firmware-idf/PhysicalKeyDevice/components/ed25519/Ed25519.cpp:256-272 | the encoded multiple of the base point |
| Ed25519.PublicKeyIs | hardware/firmware-idf/PhysicalKeyDevice/components/ed25519/Ed25519.cpp:256-272 | under the curve laws, that is the encoding of the secret scalar's multiple in the group |
| Ed25519.Sign | hardware/firmware-idf/PhysicalKeyDevice/components/ed25519/Ed25519.cpp:127-174 | the signature R ‖ s with s = (r + k a) mod q, although the hash buffer is reused for the prefix and both digests |
| Ed25519.SignatureIsStandard | hardware/firmware-idf/PhysicalKeyDevice/components/ed25519/Ed25519.cpp:127-174 | under the curve laws, key and signature are those of RFC 8032, section 5.1.6, written out: the nonce from the second half of the key's digest and the message, the scalar from its first half, the challenge from R, the public key and the message |
| Ed25519.Verify | hardware/firmware-idf/PhysicalKeyDevice/components/ed25519/Ed25519.cpp:189-229 | true exactly if both points decode and s B equals R + k A, with the low 255 bits of s and without a range check of s |
| Ed25519.AcceptsMeans | hardware/firmware-idf/PhysicalKeyDevice/components/ed25519/Ed25519.cpp:201-221 | under the curve laws and for all strings, acceptance is that both points decode and s B = R + k A in the group |
| Ed25519.SignedIsAccepted | hardware/firmware-idf/PhysicalKeyDevice/components/ed25519/Ed25519.cpp:127-229 | for every key and message, verify accepts what sign produces; assumes the curve laws and q B = 0 |
| Ed25519.SignedIsStrict | hardware/firmware-idf/PhysicalKeyDevice/components/ed25519/Ed25519.cpp:127-174 | signatures made here also have s below q and reduced y-coordinates, which verifiers that check these ask for |
| SHA512.Sha512.ProcessChunk | hardware/firmware-idf/PhysicalKeyDevice/components/ed25519/SHA512.cpp:177-285 | the compression function of FIPS 180-4, section 6.4.2, with the schedule of eighty words expanded in place in the sixteen words of the buffer, which holds its last sixteen words at the end |
| SHA512.Sha512.Update | hardware/firmware-idf/PhysicalKeyDevice/components/ed25519/SHA512.cpp:89-113 | any batch is appended to what has been absorbed: hash value, buffer and 128-bit length counters agree with the whole message, also for data in the buffer itself |
| SHA512.Sha512.Finalize | hardware/firmware-idf/PhysicalKeyDevice/components/ed25519/SHA512.cpp:115-145 | the digest of FIPS 180-4 of everything absorbed, by one or two padding blocks, in the buffer and in as many of the caller's bytes as fit; so batches with the same concatenation give the same digest |
| SHA512.PadOneBlock | hardware/firmware-idf/PhysicalKeyDevice/components/ed25519/SHA512.cpp:120-125 | one block is enough for at most 111 bytes, and is the padding of section 5.1.2 |
| SHA512.PadTwoBlocks | hardware/firmware-idf/PhysicalKeyDevice/components/ed25519/SHA512.cpp:126-134 | two blocks otherwise, and they are the same padding |
| SHA512.CountMore | hardware/firmware-idf/PhysicalKeyDevice/components/ed25519/SHA512.cpp:91-96 | the two 64-bit counters with their carry count bits modulo 2^128 |
| SHA2.RotateIsSplit | hardware/firmware-idf/PhysicalKeyDevice/components/ed25519/SHA512.cpp:225-234 | rotation bit by bit is the split rotation of section 3.2 |
| SHA512.Sha512.FormatKey | hardware/firmware-idf/PhysicalKeyDevice/components/ed25519/Hash.cpp:162-180 | the buffer holds the masked block key of FIPS 198-1, for keys of any length, and the hash is reset |
| SHA512.Sha512.ResetHmac | hardware/firmware-idf/PhysicalKeyDevice/components/ed25519/SHA512.cpp:153-158 | the inner padded key is absorbed as the first block |
| SHA512.Sha512.FinalizeHmac | hardware/firmware-idf/PhysicalKeyDevice/components/ed25519/SHA512.cpp:160-170 | the outer hash over the inner digest |
| SHA512.Hmac | hardware/firmware-idf/PhysicalKeyDevice/components/ed25519/include/Hash.h:51-59 | HMAC-SHA512 of FIPS 198-1, section 4, cut to the length asked for |
| SHA2Laws.BigEndianOfBytes | hardware/firmware-idf/PhysicalKeyDevice/components/ed25519/SHA512.cpp:123-138 | what htobe64 writes be64toh reads back, for numbers of any width |
| SHA2Laws.BytesOfBigEndian | hardware/firmware-idf/PhysicalKeyDevice/components/ed25519/SHA512.cpp:210-213 | and every string of bytes is what is written of the number read from it |
| SHA2Laws.BlockIsItsWords | hardware/firmware-idf/PhysicalKeyDevice/components/ed25519/SHA512.cpp:210-213 | a block is its sixteen words, most significant byte first, one after the other |
| SHA2Laws.BigEndianIsBackwards | hardware/firmware-idf/PhysicalKeyDevice/components/ed25519/SHA512.cpp:213-213 | which is the other order than that in which the host keeps numbers |
| SHA2Constants.PrimesInOrder | hardware/firmware-idf/PhysicalKeyDevice/components/ed25519/SHA512.cpp:179-208 | the eighty primes that the constants belong to: two is the first, each is prime, and no prime lies between two neighbours |
| SHA2Constants.RoundConstantIs | hardware/firmware-idf/PhysicalKeyDevice/components/ed25519/SHA512.cpp:179-208 | each round constant is the first 64 bits of the fractional part of the cube root of its prime |
| SHA2Constants.InitialHashIs | hardware/firmware-idf/PhysicalKeyDevice/components/ed25519/SHA512.cpp:78-82 | each initial word is the same of the square root |
| SHA2Laws.ChBit | hardware/firmware-idf/PhysicalKeyDevice/components/ed25519/SHA512.cpp:228-230 | bit by bit, Ch takes y where x is one and z elsewhere |
| SHA2Laws.MajBit | hardware/firmware-idf/PhysicalKeyDevice/components/ed25519/SHA512.cpp:231-232 | bit by bit, Maj is what at least two of the three say |
| SHA2Laws.BigSigmaBits | hardware/firmware-idf/PhysicalKeyDevice/components/ed25519/SHA512.cpp:228-232 | each bit of the two sums in a round is the parity of three bits of the word, at the distances 28, 34, 39 and 14, 18, 41 around it |
| SHA2Laws.SmallSigmaBits | hardware/firmware-idf/PhysicalKeyDevice/components/ed25519/SHA512.cpp:252-254 | the same for the schedule, at 1, 8, 7 and 19, 61, 6, where the last one shifts zeros in |
| SHA2Laws.RoundUndone | hardware/firmware-idf/PhysicalKeyDevice/components/ed25519/SHA512.cpp:228-240 | the working variables before a round can be computed from those after it |
| SHA2Laws.RoundsInjective | hardware/firmware-idf/PhysicalKeyDevice/components/ed25519/SHA512.cpp:225-271 | so the eighty rounds take different working variables to different ones, for every block |
| SHA2Laws.ScheduleDetermines | hardware/firmware-idf/PhysicalKeyDevice/components/ed25519/SHA512.cpp:246-254 | the last sixteen words of the schedule, which are what stays in the buffer, determine the block |
| SHA2Laws.CompressAdds | hardware/firmware-idf/PhysicalKeyDevice/components/ed25519/SHA512.cpp:273-281 | what a block adds to the hash value is what the rounds make of it, word by word modulo 2^64 |
| SHA2Laws.PaddedIs | hardware/firmware-idf/PhysicalKeyDevice/components/ed25519/SHA512.cpp:115-135 | padding makes whole blocks: the message, a one bit, fewer zeros than a block, and the length in bits |
| SHA2Laws.PaddedDetermines | hardware/firmware-idf/PhysicalKeyDevice/components/ed25519/SHA512.cpp:115-135 | so two messages of fewer than 2^128 bits are padded to the same only if they are the same |
| SHA2Laws.HmacOfShortKey | hardware/firmware-idf/PhysicalKeyDevice/components/ed25519/SHA512.cpp:153-170 | HMAC with a key of at most 128 bytes is two hashes, the inner one under the key masked with 0x36, the outer one under the key masked with 0x5c, with the mask itself in the bytes beyond the key |
| SHA2Laws.HmacOfLongKey | hardware/firmware-idf/PhysicalKeyDevice/components/ed25519/Hash.cpp:168-173 | HMAC with a longer key is HMAC with its digest |
| RatchetWire.ParseWire | hardware/firmware-idf/PhysicalKeyDevice/main/gatt_svr.cpp:182-188 | slicing a payload returns every field and the signature that went in |
| RatchetWire.WireParse | mobile/ios/PhysicalKey/RatchetManager.swift:63-77 | every 209-byte payload is the payload of its slices |
| RatchetWire.MessageDetermines | hardware/firmware-idf/PhysicalKeyDevice/main/gatt_svr.cpp:163-177 | equal signed messages have equal challenge hashes and equal fields |
| RatchetWire.Layout | hardware/firmware-idf/PhysicalKeyDevice/main/gatt_svr.cpp:163-188 | where each field of the payload lies, in bytes; and the message signed is the code's text, written out letter by letter, the hash of the challenge, and the payload without its signature |
| RatchetProofs.NextProofIs | hardware/firmware-idf/PhysicalKeyDevice/main/ratchet_core.cpp:15-54 | the next proof is the first 32 bytes of the HMAC-SHA512, under the shared secret, of the code's text, written out letter by letter |
| RatchetProofs.ProofsDistinct | hardware/firmware-idf/PhysicalKeyDevice/main/ratchet_core.cpp:51-54 | in a run whose proofs come from ratchet_derive, and whose secrets HMAC-SHA512 tells apart on that text, the proofs do not repeat exactly if the shared secrets do not: the first hypothesis of the theorems on runs is met by the device |
| RatchetDevice.RatchetDerive | hardware/firmware-idf/PhysicalKeyDevice/main/ratchet_core.cpp:17-57 | the answer to a phone's key: continuity proof if there was prior state, zeros if not, and the next proof; false exactly for a weak exchange |
| RatchetDevice.Board.RunExchange | hardware/firmware-idf/PhysicalKeyDevice/main/ratchet.cpp:37-65 | the stored proof becomes the next proof exactly if the exchange succeeds |
| RatchetDevice.Board.AccessChallenge | hardware/firmware-idf/PhysicalKeyDevice/main/gatt_svr.cpp:82-116 | signs and remembers the value written, with the code's status for every refusal |
| RatchetDevice.Board.ClearChallengeCache | hardware/firmware-idf/PhysicalKeyDevice/main/gatt_svr.cpp:118-120 | a disconnect forgets the challenge |
| RatchetDevice.Board.AccessRatchetPubkey | hardware/firmware-idf/PhysicalKeyDevice/main/gatt_svr.cpp:133-193 | succeeds only after a challenge was signed on the same connection, and then the published attestation is signed over the last such challenge; any failure leaves proof and payload alone |
| RatchetDevice.LastSignedMeans | hardware/firmware-idf/PhysicalKeyDevice/main/gatt_svr.cpp:52-58 | the challenge bound is the last one signed with nothing but exchanges since, for every trace of writes and disconnects |
| RatchetPhone.Phone.RunExchange | mobile/ios/PhysicalKey/RatchetManager.swift:59-112 | the phone's local verdict and its stored proof; nothing is stored if anything throws |
| RatchetProofs.SameProofSameVerdict | mobile/ios/PhysicalKey/RatchetManager.swift:79-112 | phone and backend with the same proof on file come to the same verdict, whatever the attestation; only what the backend calls unverifiable the phone calls a bootstrap |
| RatchetBackend.RatchetTable.VerifyAndRecord | backend/auth/ratchet.js:66-120 | judges exactly the attestations with status 0 or 1, five texts of 32, 16, 64, 32 and 64 bytes, and a signature of the message over the hash of the challenge under the registered key, all written out; otherwise it names the first failing check in the code's order, and the rows stay |
| RatchetBackend.ProofOrigin | backend/auth/ratchet.js:66-120 | after any sequence of calls, every proof on file for a device was brought by a signed attestation of that device, with no clearing and no other such attestation since |
| RatchetBackend.ServerRowOrigin | backend/auth/ratchet.js:106-118 | and every row marked as the server's is the verdict on such an attestation against the row at that call |
| RatchetBackend.RatchetTable.RecordRatchetStatus | backend/auth/ratchet.js:32-35 | a legacy report keeps the proof on file |
| RatchetBackend.RatchetTable.ClearRatchetState | backend/auth/ratchet.js:41-45 | the row goes, and is returned |
| RatchetRuns.VerdictByHistory | backend/auth/ratchet.js:106-118 | if the run's proofs are distinct and the MAC tells them apart on the run's challenges: in every run of any number of copies, with attestations judged late, out of order, repeatedly or never, and with reports, clearings and erasures, each verdict is decided by which exchange made the proof that the copy held when it ran the exchange, and which exchange was judged last when its attestation arrived |
| RatchetRuns.JudgedRow | backend/auth/ratchet.js:86-118 | that verdict is the one that the run writes into the row, with the next proof of the exchange judged |
| RatchetRuns.HandOverIsMismatch | backend/auth/ratchet.js:110-113 | an attestation of a copy that moved on by itself is a mismatch if the exchange judged last was run by another copy |
| RatchetRuns.MismatchUnlessPrevious | hardware/firmware-idf/PhysicalKeyDevice/main/ratchet.cpp:48-61 | for a single device, an attestation judged against a proof on file is verified if the exchange judged last is the one made immediately before its own, a bootstrap if there was none before it, and a mismatch otherwise; sessions may overlap |
| RatchetRuns.MismatchIsLoss | hardware/firmware-idf/PhysicalKeyDevice/main/ratchet.cpp:48-61 | if moreover no exchange is made before the last one is judged or lost, and none is judged twice: a mismatch exactly if an exchange was lost since the one judged last, and verified otherwise |
| RatchetRuns.OverlapWithoutLoss | backend/server.js:355-413 | overlapping sessions, of which several are possible while their device challenges last, give mismatches without a loss: a run of one device whose attestations are all judged, two of them in the other order, ends in three mismatches |
| RatchetRuns.NextIsVerified | backend/auth/ratchet.js:118-119 | whatever the verdict on an attestation, that of the copy's next exchange is verified if nothing is judged or cleared between the two, without any hypothesis: a burst of losses costs one mismatch |
| RatchetRuns.ClearedIsUnverifiable | backend/auth/ratchet.js:41-45 | after a clearing and until another attestation is judged, no attestation is a mismatch, also if it was made before the clearing |
| RatchetRuns.ReportsChangeNoVerdict | backend/auth/ratchet.js:27-35 | without the legacy reports of a run every attestation gets the same verdict, whenever it is judged |
| RatchetSession.ExchangeIsStep | hardware/firmware-idf/PhysicalKeyDevice/main/ratchet_core.cpp:41-57 | the device's answer is the exchange event of runs, on any copy and whether or not its attestation arrives: it moves the copy's proof, leaves the backend's row, and its attestation gets the verdict of the event's, whatever is on file when it is judged |
| RatchetSession.DeliveryIsStep | backend/auth/ratchet.js:86-120 | judging it, at any later time and with HMAC-SHA512, is the delivery event of runs |
| RatchetSession.SessionIsTwoSteps | backend/auth/ratchet.js:66-120 | so a delivered session is the two events one after the other |
| RatchetSession.Session | hardware/firmware-idf/PhysicalKeyDevice/main/gatt_svr.cpp:133-193 | the device accepts exactly if the exchange is contributory; a delivered session then leaves device, phone and backend with the proof on the wire, its attestation passes the backend's checks and gets the verdict of its proof; a refused exchange changes none of the three. In any run the three together move by an exchange and its delivery. Assumes the curve laws, q B = 0, a registered matching key, and that the backend's verifier takes every strict signature that verify takes |
| RatchetSession.TwoSessions | backend/auth/ratchet.js:106-119 | of two delivered sessions in a row the second is verified by backend and phone alike |
| Organizations.OrgStore.IsAuthorizedForDevice | backend/auth/organizations.js:164-173 | true exactly if the history of successful operations authorizes the phone: no owning org, or latest role owner or admin, or member with a grant made since the device last joined and not revoked |
| Organizations.AuthorizedMeans | backend/auth/organizations.js:157-173 | in terms of single events of the history: a phone may use a device unless the device last joined an org in which no event that still stands made the phone its owner, an admin, or a member who was granted the device |
| Organizations.MemberNeedsGrant | backend/auth/organizations.js:172-172 | a member without a grant since the device joined may not use it, whatever was granted before |
| Organizations.PlanMeans | backend/auth/organizations.js:80-86 | a plan is active exactly if some event set it so and none has set it since |
| Organizations.OrgStore.AddDeviceToOrg | backend/auth/organizations.js:115-125 | which failure is raised when, in terms of the history; a second device only while the plan is active, as an invariant of every history |
| Organizations.OrgStore.GrantDeviceAccess | backend/auth/organizations.js:141-151 | refused for a phone without an active role or a device of another org; every grant row's device belongs to that org |
| Organizations.OrgStore.RemoveDeviceFromOrg | backend/auth/organizations.js:128-134 | the device leaves together with all its grants |
| Organizations.OrgStore.RevokeDeviceAccess | backend/auth/organizations.js:153-155 | the grant goes, in the history as in the table |
| Organizations.OrgStore.SetOrgPlanStatus | backend/auth/organizations.js:80-82 | changes the plan of an org that exists; the devices it has may stay |
| Organizations.OrgStore.AddMember | backend/auth/organizations.js:71-74 | adds or revives a row with the new role |
| Organizations.OrgStore.RemoveMember | backend/auth/organizations.js:95-100 | keeps the row and takes its effect away |
| Organizations.OrgStore.CreateOrganization | backend/auth/organizations.js:43-49 | a new org without a plan, and its owner as a member |
| Organizations.NoInheritedGrants | backend/auth/organizations.js:127-134 | a device that joins an org brings no grants along from before |
| Organizations.RemovedMemberIsOut | backend/auth/organizations.js:88-94 | a removed member may use no device of the org, whatever grants remain |
| AuditLog.Log.LogAdminAction | backend/audit/log.js:51-65 | appends one row chained to the last one, and keeps a table of legacy rows followed by logged rows intact |
| AuditLog.Log.VerifyAuditChain | backend/audit/log.js:78-93 | intact exactly if the hashed rows are linked from the genesis hash on; otherwise the first row that breaks the chain |
| AuditLog.SameTipSameChain | backend/audit/log.js:26-45 | for intact chains among whose hashed strings no two collide: they end in the same hash exactly if they have the same sequence of hashes and field concatenations |
| AuditLog.EditDetected | backend/audit/log.js:26-33 | an edit of the fields of one row goes unreported exactly if the hash of the row's string stays the same; unless those two strings collide, exactly if the concatenation of the fields stays the same |
| AuditLog.OneFieldEditReported | backend/audit/log.js:26-45 | an edit of a single field to something that reads differently is reported, whichever field it is, unless the two strings hashed for that row collide |
| AuditLog.EditUndetected | backend/audit/log.js:34-45 | the comment's claim that any edited field is detected fails: with letters moved from one field to the next the edited chain is intact, whatever the hash |
| AuditLog.TruncationUndetected | backend/audit/log.js:26-33 | rows cut off the end are not reported |
| AuthServer.Server.HandlePhoneVerify | backend/server.js:282-352 | one step of the state machine: consume the challenge, register on first use before the signature check, mint the device challenge and the phone session |
| AuthServer.Server.HandleDeviceVerify | backend/server.js:355-446 | one step of the state machine: stage, expiry, signature, then authorization, pairing and the full-access token |
| AuthServer.Server.HandlePhoneChallenge | backend/server.js:247-279 | one step of the state machine for a well-formed body |
| AuthServer.Server.ValidatePhoneAttestation | backend/auth/phone-auth.js:46-96 | registration comes before the signature check and fails for a taken id; valid exactly if the verifier takes the signature of the challenge's text under the key on file or, for a new phone, the key that came with the challenge |
| AuthServer.Server.ValidateDeviceSignature | backend/auth/device-auth.js:25-93 | the same for devices, with the allow-list on first registration and the active flag; valid exactly if the verifier takes the signature of the challenge's text under the key on file or, for a new and allowed device, the key sent, both written out |
| AuthServer.Server.HandleRepairChallenge | backend/server.js:455-482 | one step of the state machine, with every refusal in order |
| AuthServer.Server.HandleRepairVerify | backend/server.js:490-542 | one step of the state machine: the challenge goes first, whatever the outcome |
| AuthServer.Server.HandleAdminReset | backend/server.js:921-946 | one step of the state machine: reset and session cutoff |
| AuthServer.Server.HandleSetRecoveryPolicy | backend/server.js:892-911 | one step of the state machine: nothing leaves the permanent policy |
| AuthServer.Server.HandleSweep | backend/server.js:60-65 | one step of the state machine: exactly the expired challenges go |
| AuthServer.Server.IsRejected | backend/server.js:545-602 | what requireAuth and requirePhoneSession check of either kind of token: the second its scope, both whether an identity that they read from it was reset since |
| AuthRuns.StepKeepsIdentity | backend/auth/identity-admin.js:43-70 | no request changes a registered key or kind: it resets the identity, makes it permanent, or leaves it |
| AuthRuns.PermanentForever | backend/auth/identity-admin.js:55-70 | in every run, a permanent identity never changes again |
| AuthRuns.KeyChangesByReset | backend/auth/device-auth.js:29-55 | in every run, a registered key or kind changes or goes only through a reset of that identity |
| AuthRuns.RejectedByHistory | backend/auth/identity-admin.js:85-94 | in every run with a clock that does not run back, either gate rejects a token exactly if it has the wrong scope for requirePhoneSession or an identity that the gate reads from it was reset at or after its issue |
| AuthRuns.RejectedForever | backend/auth/identity-admin.js:72-84 | once rejected at a gate, a token stays rejected there |
| AuthRuns.PhoneSessionPassesRequireAuth | backend/server.js:545-602 | requireAuth reads no scope and no identity of a phone session, so a reset of the phone rejects its sessions at requirePhoneSession only |
| AuthTokens.TokenOrigin | backend/server.js:247-439 | every full-access token comes from a phone verification and the device challenge that this minted, each challenge used in time for the same phone; at both steps the identity is on file, the device's as active, and its registered key has signed the text that the challenge was minted with, as the deployment's verifiers say; and it goes back, through phone verifications, to a phone challenge for its phone, which is the one that the last verification used exactly if a phone challenge minted that |
| AuthIdentities.FullAccessExactly | backend/server.js:355-432 | the answer to a device verification in terms of what is on file before it: 401 unless the key of a known active device, or the key sent by a new and allowed one, has signed the challenge's text in time; then 403 unless the phone is authorized; then a full-access token for device and phone |
| AuthIdentities.PhoneSessionExactly | backend/auth/phone-auth.js:46-96 | the answer to a phone verification in the same terms: 401, or a session for the challenge's phone |
| AuthIdentities.PhoneSessionOrigin | backend/server.js:282-345 | in every run, every phone session comes from a phone verification in time, with a signature of its challenge's text under the key registered for the phone, and goes back to a phone challenge for that phone |
| AuthIdentities.IdentityOrigin | backend/auth/device-auth.js:29-55 | in every run, every identity on file was registered on first use with a key sent for it: a phone's with a challenge of its own, a device's at its verification |
| AuthIdentities.OnlyAllowedDevices | backend/auth/device-auth.js:45-53 | in every run with enforcement on, every device on file is the admin's or allowed |
| AuthIdentities.PolicyIsSet | backend/auth/identity-admin.js:55-70 | in every run, setting a policy succeeds exactly for a registered identity that is not permanent, which then has the policy asked for and is otherwise unchanged, as is every other identity |
| AuthIdentities.AdminResets | backend/server.js:921-946 | in every run, a reset succeeds for the same identities; the identity is gone, no other is touched, requireAuth turns away the full-access tokens issued until then for that device or phone, and requirePhoneSession the phone's sessions; it is 404 for an identity not on file and 403 for a permanent one |
| AuthIdentities.SweepLeaves | backend/server.js:60-65 | in every run, a sweep leaves exactly the challenges that are not expired, as they are |
| AuthTokens.HeadOfChain | backend/server.js:282-327 | the challenge that a phone verification used comes from a phone challenge exactly if it is not of the device stage; the handler does not look at the stage |
| AuthTokens.VerificationAtHead | backend/server.js:282-327 | the claim that it always comes from a phone challenge fails: in a run with one phone challenge and two verifications, the second uses the device challenge of the first, and a token comes of it |
| AuthTokens.TokensShareNothing | backend/server.js:297-370 | different tokens share neither the device challenge, nor the verification that minted it, nor the challenge that this used |
| AuthTokens.RootsDiffer | backend/server.js:247-439 | different tokens go back to different phone challenges: a phone challenge is good for one token at most |
| AuthTokens.RootIsUnique | backend/server.js:247-327 | and a token goes back to one phone challenge only |
| AuthTokens.OneAttempt | backend/server.js:297-298 | every challenge is good for one attempt, successful or not |
| AuthRepairs.RepairResets | backend/server.js:490-525 | a successful repair resets exactly the identity that its challenge named, which was a phone when the challenge was made, in time, on a signature of the board that asked, which had been paired with it |
| AuthRepairs.ChallengeExactly | backend/server.js:455-482 | the answer to a request for a repair challenge in terms of what is on file: issued for an active device that was paired with the target, a phone that is not permanent; otherwise 403 if both are on file, 404 if not, 400 for an empty name |
| AuthRepairs.RepairExactly | backend/server.js:490-542 | the answer to a repair in the same terms: done in time, with a signature of the challenge's text under the board's registered key, for a target that is on file and not permanent; otherwise 403, 404 or 401 |
| AuthRepairs.PairedByToken | backend/server.js:388-392 | in every run, a board and a phone are paired exactly if they have had a full-access token together |
| AuthRepairs.OneAttempt | backend/auth/repair.js:53-61 | a repair challenge is good for one attempt |
| AuthOrgs.TokenIsAuthorized | backend/server.js:377-386 | in every run of logins and changes of the organization tables together, a full-access token is for a phone that the organizations' history lets use the device at that moment, and a refusal for want of authorization is one that it does not |
| AuthOrgs.RemovedMemberGetsNoToken | backend/auth/organizations.js:88-100 | in every such run, a phone removed from the org that owns a device gets no token for it until it is added again |
| AuthSweeps.SweepsChangeNoAnswer | backend/server.js:59-65 | leaving the expiry sweeps out of a run, or putting them in anywhere, changes no status and no token |

## Left out

- Limb width: LIMB_BITS is 32, as on the ESP32; the 8, 16 and 64-bit variants and the AVR assembly are not modelled.
- Constant time, `clean` and `strict_clean`: only functional results are modelled.
- `packBE`, `unpackBE`, `isZero` and the variants of `mul`, `add` and `reduceQuick` for two arrays in RAM: nothing modelled here calls them, and they repeat the loops that are modelled.
- SHA512.Sha512.ProcessChunk: the host is little-endian, as the ESP32 is.
- SHA512.Sha512.Update: lengths are below 2^64 per call, as `size_t` is; the counters wrap modulo 2^128 as in the code.
- Ed25519.Verify: `reduceQFromBuffer` borrows the storage of kA.x, kA.y and kA.z as seventeen limbs; here it gets a buffer of its own.
- X25519.Dh1: the random number generator is a list of draws that holds a usable one, so that the loop ends.
- Messages are whole arrays, hashed from their first byte, where the code takes a pointer and a length.
- RatchetDevice.Board.AccessChallenge: the Bluetooth stack is the value written and whether flattening it worked; notifications and reads of the published buffers are left out, so a payload read in a later connection may be a stale one.
- RatchetPhone.Phone.RunExchange: CryptoKit's key agreement and the Keychain are a value and a map; malformed keys are an agreement that throws.
- Session tokens are their claims; JWT encoding, expiry and HTTP routing are not modelled, and a request body that is not of the expected shape is answered before any state is touched.
- AuthServer.Server.HandlePhoneVerify: it and HandleDeviceVerify `await` between reading and deleting a challenge; each is one step here, as the functions awaited wait for nothing themselves. Liveness results, the honeypot and logging change no modelled state.
- AuthServer.Server.HandleDeviceVerify: the ratchet, git credentials, `last_seen` and `access_count` are not part of its state; the ratchet table is modelled by itself.
- AuthServer.Server.HandleAdminReset: clearing the ratchet row, revoking git access and the audit entry are left to their own modules.
- Organizations.OrgStore.CreateOrganization: names, timestamps and listings are left out; ids are fresh.
- AuditLog.Log.VerifyAuditChain: reasons are two constants instead of their sentences.
- Subscriptions, license codes, backups, the bait repository, git access, liveness and the user interface: input and output, or only easy claims.

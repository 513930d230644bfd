# A verified model of an oblivious-transfer watermarking protocol and its cryptographic library

The repository lets a buyer obtain one of two watermarked versions of every part of an image, selected by the bits of
the buyer's secret key, without the seller learning the key. It consists of the protocol (`Sender.h`, `Recipient.h`,
`NDA.cc`, `crypto.h`), a small script with the expected detection rates (`bit_calculations.py`) and a slice of
Crypto++ 5.6.5. This project models the parts of it that are hard to get right and proves what they are for:

* **Group and ring arithmetic** (`Groups`, `WindowSliding`, `SimultaneousMultiplication`, `CascadeMultiplication`,
  `GeneralCascade`, `QuotientRings`): the windowed, table-driven and heap-driven scalar multiplications equal plain
  multiples and sums of multiples in every group with the laws they need; the extended Euclidean algorithm finds an
  inverse exactly when there is one and its argument is reduced.
* **Blum Blum Shub** (`NumberTheory`, `Binomials`, `Fermat`, `BlumShub`): jumping to a place of the stream agrees with
  walking to it. The number theory is built up from Euclid's lemma and the binomial theorem.
* **The protocol** (`PrimeOrderGroups`, `ObliviousTransfer`, `Nda`): over all keys, bits, messages and random choices,
  what the key check accepts and what the recipient ends up with.
* **Codecs** (`AsnLengths`, `DerReencoding`, `DerLengthForms`, `AsnValues`, `AsnOctets`; `BitStrings`, `BaseNDigits`,
  `BaseNEncoding`, `BaseNDecoding`, `BaseNGrouping`): ASN.1 lengths, numbers, object identifiers, and the recursive re-encoding with the exact
  reach of its definite lengths; the base-2^n encoder, grouper and decoder, bit by bit.
* **Streaming authenticators** (`Octets`, `BlockChaining`, `CcmFormat`, `CcmBuffer`, `Ccm`, `LateLengths`;
  `GaloisDoubling`, `GaloisBits`, `CmacModulus`, `Cmac`; `Blake2`, `Blake2Reference`; `Adler32`): each equals the one-shot definition of its standard however the input is
  cut into calls, and CCM's state machine throws exactly when it should.
* **Block ciphers** (`Words`, `CamelliaRounds`, `CamelliaSchedule`, `CamelliaCipher`, `Camellia`, `CamelliaStandard`,
  `Cast`, `CastStandard`, `Blowfish`, `BlowfishStandard`): decryption that only permutes the key schedule inverts
  encryption.
* **Exact binomials** (`BitCalculations`).

`Arithmetic` and `Sequences` hold what all of them use.

The functions that methods are proved against are themselves tied down by a second statement in other terms: bit by bit,
byte by byte, by a closed formula or by a definition that goes by positions. `AsnOctets`, `GaloisBits`,
`Blake2Reference`, `CamelliaStandard`, `CastStandard` and `BlowfishStandard` hold nothing else.

Objects that change are classes with the fields of the original, loops are loops, and each method is proved against a
specification function about which the theorems are then proved. Capstone methods such as `BaseNGrouping.EncodeGroupDecode`,
`Ccm.RoundTrip`, `Cmac.MacOfPieces`, `Camellia.DecryptEncrypted` and `Nda.RunFromKey` use several objects together the
way a program would.

## What the code does not do

Some statements one would expect are false of the code. The model keeps the code as it is and says exactly when it does
meet them.

* `CascadeScalarMultiply` reads the bits of the exponents' magnitudes and ignores their signs; the two-term branch of
  `GeneralCascadeMultiplication` and, by an assertion, `SimultaneousMultiply` want exponents that are not negative.
* `QuotientRing::MultiplicativeInverse` tests for zero modulo the modulus, so that an argument with |a| >= m > 1 gets
  zero instead of its inverse, even if it has one: 3 modulo 2, for instance.
* `BlumBlumShub::Seek` reduces a power of two modulo (p-1)(q-1). Should the result be zero, a seed that shares a factor
  with p q gets the state 1, as with p = 3, q = 5, seed 3 and byte 1. That cannot happen for distinct primes congruent
  to 3 modulo 4, which the generator is meant for.
* The weights 2^i of the key check are computed with i as an element of Zr, so that they repeat after r parts. The check
  is right for all bits and keys exactly with at most r parts and a secret that is not 0 in Zr
  (`Nda.CheckIsRightExactly`); beyond that it accepts wrong bits.
* `DERReencode` copies the contents of objects of definite length. An indefinite length within them stays, as in
  30 04 30 80 00 00; the output is free of indefinite lengths exactly if none is hidden in this way
  (`DerLengthForms.OutputAllDefinite`).
* The 32-byte case of CMAC's doubling uses the constant 0x423, whose polynomial is divisible by x^2+x+1. It is
  multiplication by x in a ring that is not a field. Blocks of 8 and 16 bytes use the polynomials of NIST SP 800-38B.
  Of a block with an odd number of bytes, the first is not doubled.
* The first two arcs of an object identifier share one byte that is truncated without a check: 1.40 comes back as 2.0.
* `DEREncodeUnsigned` under the BOOLEAN tag writes 255 for everything but zero, and the decoder gives 255 back.
* `ncr` raises outside 0 <= r <= n, where a reduction over an empty range has no start value, and `genList` therefore
  raises for lengths whose largest selection exceeds (k-1) l.
* CCM gives out a tag without declared lengths if and only if header and message are both empty
  (`Ccm.CcmMode.RunUndeclared`). That tag is made from the chaining value of the message before, so that it
  authenticates nothing: with the same nonce it is the tag of that message (`Ccm.CcmMode.TagAgain`).
* CCM also accepts lengths that are declared after some of the header. Those bytes stay counted, but the first block
  replaces what was chained, and it takes the nonce from a buffer that they may have been written into
  (`Ccm.CcmMode.RunFrom`). The blocks authenticated are the standard's exactly if nothing came early, but for a few
  zeros that padding hides (`LateLengths.LateIsStandard`); headers that differ in whole early blocks get the same tag
  (`LateLengths.TwoHeadersOneTag`).
* The decoder of base 2^n takes any table. An entry below 256 that is no digit is or-ed into the bits before it
  (`BaseNDecoding.Write`, `BaseNDecoding.UpperBitsShow`); with digits only, decoding is concatenation.
* `ot()` in `NDA.cc` hands over an array of initialisation vectors that is never allocated. `encrypt_new` and
  `decrypt_new` use zeros in place of the vector they are given, but `decryptE` in `Recipient.h` reads `iv[0]` or
  `iv[1]` through the unset pointer before it calls `decrypt_new`, which is undefined. The model leaves the array out.

## Model

| member | source | states |
|---|---|---|
| WindowSliding.WindowSlider.constructor | Pepal_for_images/cryptopp/algebra.cpp:208-218 | The slider starts with the whole exponent still to come and nothing taken out, whatever the window size |
| WindowSliding.WindowSlider.FindNextWindow | Pepal_for_images/cryptopp/algebra.cpp:220-247 | What was taken out so far plus the window found plus the rest is always the exponent, also when a borrow makes the digit negative; window digits are odd and their positions increase |
| SimultaneousMultiplication.SimultaneousMultiply | Pepal_for_images/cryptopp/algebra.cpp:255-314 | Every slot of the result is base times its exponent, for any number of exponents that are not negative, with and without fast negation; and the loop terminates |
| SimultaneousMultiplication.AbsorbWindowsAt | Pepal_for_images/cryptopp/algebra.cpp:278-290 | At each bit position, every slider's bucket counts stay in step with what the slider has taken out, and no finished slider is touched |
| SimultaneousMultiplication.CombineBuckets | Pepal_for_images/cryptopp/algebra.cpp:299-313 | The running suffix sums over the buckets make base times the sum of (2j+1) times the count of bucket j |
| SimultaneousMultiplication.SuffixesMeetDot | Pepal_for_images/cryptopp/algebra.cpp:305-311 | Twice the sum of all proper suffix sums plus the whole sum is the sum of (2j+1) times entry j |
| CascadeMultiplication.FillPowerTable | Pepal_for_images/cryptopp/algebra.cpp:103-129 | Every slot whose two coordinates are not both even holds that combination of x and y, for window sizes 1, 2 and 3 |
| CascadeMultiplication.StripCommonTwos | Pepal_for_images/cryptopp/algebra.cpp:145-151 | Common factors of two move from before the addition to after it: at most squaresBefore of them, so that the counter never runs below zero, and what is left has an odd coordinate |
| CascadeMultiplication.CascadeScalarMultiply | Pepal_for_images/cryptopp/algebra.cpp:97-170 | The result is abs(e1) x + abs(e2) y in every commutative monoid: the ladder reads magnitudes only |
| CascadeMultiplication.CascadeMeetsSignedSum | Pepal_for_images/cryptopp/algebra.cpp:97-170 | Over the integers, that is the signed sum e1 x + e2 y for all bases exactly when neither exponent is negative |
| GeneralCascade.GeneralCascadeMultiplication | Pepal_for_images/cryptopp/algebra.cpp:172-204 | The result is the sum of exponent times base over all terms, for one, two, and three or more terms, and the loop terminates; two terms may have negative exponents, of which only the magnitudes count |
| GeneralCascade.DivideStep | Pepal_for_images/cryptopp/algebra.cpp:190-196 | Dividing the largest exponent by the next largest and accumulating keeps the sum over all terms and makes the total of the exponents smaller |
| GeneralCascade.PushAndPop | Pepal_for_images/cryptopp/algebra.cpp:198-199 | After push_heap and pop_heap the last term has the largest exponent, the first the largest of the others, and the sum is as before |
| QuotientRings.IntegerGcd | Pepal_for_images/cryptopp/algebra.cpp:56-68 | The rotating three-slot loop ends in the greatest common divisor of the magnitudes, up to sign |
| QuotientRings.IsUnit | Pepal_for_images/cryptopp/algebra.h:425-426 | True exactly when argument and modulus are coprime |
| QuotientRings.MultiplicativeInverse | Pepal_for_images/cryptopp/algebra.cpp:70-88 | The value returned is an inverse exactly when the argument is coprime to the modulus and is reduced (abs(a) < m, or m = 1); otherwise it is zero. The loop terminates although its test is congruence to zero |
| QuotientRings.InverseFails | Pepal_for_images/cryptopp/algebra.cpp:70-88 | 3 is its own inverse modulo 2, but zero is returned for it |
| BlumShub.BlumBlumShub.constructor | Pepal_for_images/cryptopp/blumshub.cpp:9-15 | The generator starts at bit 0 of the sequence of repeated squares of the seed, with at least one bit to a block |
| BlumShub.BlumBlumShub.GenerateBit | Pepal_for_images/cryptopp/blumshub.cpp:17-26 | Each call gives the next bit of the stream that the sequence of squares defines, squaring only when a block is used up |
| BlumShub.BlumBlumShub.GenerateByte | Pepal_for_images/cryptopp/blumshub.cpp:28-34 | Eight stream bits, first one highest |
| BlumShub.BlumBlumShub.GenerateBlock | Pepal_for_images/cryptopp/blumshub.cpp:36-40 | Consecutive stream bytes from the current position |
| BlumShub.BlockIsLowPart | Pepal_for_images/cryptopp/blumshub.cpp:17-26 | The bits that come from one state, first one highest, write that state modulo two to the number of bits it gives |
| BlumShub.BlumBlumShub.GenerateState | Pepal_for_images/cryptopp/blumshub.cpp:17-26 | As many calls of GenerateBit as a state gives bits, made from the start of a state, give the low part of that state |
| BlumShub.MaxBitsIs | Pepal_for_images/cryptopp/blumshub.cpp:9-15 | That number is the logarithm, rounded down, of the number of bits of the modulus |
| BlumShub.BlumBlumShub.Seek | Pepal_for_images/cryptopp/blumshub.cpp:55-62 | The position is that of the byte asked for; the state is that of the sequence exactly when the power of two is not 0 modulo (p-1)(q-1) or the state at the start is a unit, and otherwise the generator goes on as the stream of ones |
| BlumShub.SeekMeetsSequence | Pepal_for_images/cryptopp/blumshub.cpp:55-62 | Raising to a power of two reduced modulo (p-1)(q-1) gives the sequence's state exactly under that condition, for distinct primes |
| BlumShub.BlumPrimesSeekExactly | Pepal_for_images/cryptopp/blumshub.cpp:48-62 | For distinct p and q congruent to 3 modulo 4 the condition always holds |
| BlumShub.ExactForSeed | Pepal_for_images/cryptopp/blumshub.cpp:9-15 | The condition may be asked of the seed instead of its square: the square modulo p q is a unit exactly if the seed is |
| BlumShub.SeekFails | Pepal_for_images/cryptopp/blumshub.cpp:55-62 | For p = 3, q = 5, seed 3 and byte 1 the jump lands on 1, and the sequence is at 6 |
| BlumShub.SeekThenGenerate | Pepal_for_images/cryptopp/blumshub.cpp:55-62 | For all distinct primes: the bytes after Seek are the bytes a fresh generator gives at that place if the condition holds of the seed, so for every seed that neither prime divides, and for every seed if both primes are congruent to 3 modulo 4; if it fails they are the bytes of the stream of ones |
| Fermat.EulerReduction | Pepal_for_images/cryptopp/blumshub.cpp:59-60 | A power modulo p q stays the same when its exponent is reduced modulo (p-1)(q-1), if the reduced exponent is positive or the base is a unit |
| PrimeOrderGroups.SameMultiple | Pepal_for_images/Sender.h:106-118 | Two multiples of the generator are equal exactly when the scalars agree modulo the prime order |
| ObliviousTransfer.CryptTwice | Pepal_for_images/crypto.h:79-160 | Decryption with the key of the encryption gives the plaintext |
| ObliviousTransfer.KeysAgree | Pepal_for_images/Sender.h:40-42 | For the commitment to a bit, the sender's group key for that bit is the recipient's A^b |
| ObliviousTransfer.SenderKeysDiffer | Pepal_for_images/Sender.h:40-42 | The sender's two group keys differ for every commitment exactly when the order does not divide a |
| ObliviousTransfer.OtSender.GetEncrypted | Pepal_for_images/Sender.h:34-67 | Byte i of each ciphertext is byte i of its plaintext xor byte i of the keystream that belongs to the first 32 bytes of the digest of B^a, and of (B A^-1)^a |
| ObliviousTransfer.UnselectedIsHidden | Pepal_for_images/Sender.h:34-67 | If the digests of the two keys differ in their first 32 bytes: for any other text of the same length in place of the version that was not asked for, the sender sends the same under the same hash and a keystream that differs for the key of that version only |
| ObliviousTransfer.Ot | Pepal_for_images/NDA.cc:20-43 | One transfer delivers the version that the recipient's bit selects |
| Nda.ZrToBs | Pepal_for_images/crypto.h:172-220 | The bits are the binary digits of the dump of the key, first digit first |
| Nda.DigitBitsValue | Pepal_for_images/crypto.h:172-220 | The bits of the binary dump of a number have the value of the number |
| Nda.PadBits | Pepal_for_images/NDA.cc:171-177 | Padding to 256 bits keeps the value |
| Nda.Sender.ProductBs | Pepal_for_images/Sender.h:106-118 | The product of all commitments raised to their weights 2^i, the weights being computed modulo r |
| Nda.Recipient.InitBArr | Pepal_for_images/Recipient.h:148-167 | B_i commits to bit n-1-i with the i-th random scalar |
| Nda.Recipient.InitX | Pepal_for_images/Recipient.h:103-114 | x is the weighted sum of the random scalars modulo r |
| Nda.ProductExponent | Pepal_for_images/Sender.h:106-118 | The weighted product of the commitments is g to the weighted secrets plus a times the weighted bits |
| Nda.CheckKey | Pepal_for_images/NDA.cc:233-258 | The check passes exactly when a times the weighted bits is congruent to a times the key |
| Nda.CheckMeansKey | Pepal_for_images/NDA.cc:254-258 | For r prime, a not 0 modulo r and at most r bits: exactly when the bits have the value of the key modulo r |
| Nda.CheckIsRightExactly | Pepal_for_images/NDA.cc:254-258 | For every prime r, every a and every n: the check passes exactly for the right bits, for all n bits and all keys, if and only if a is not 0 modulo r and n is at most r |
| Nda.WeightsSpellExactly | Pepal_for_images/Sender.h:106-118 | For every prime r and every number n of parts: the weighted bits are congruent to the number the bits stand for, for all n bits, exactly when n is at most r |
| Nda.WeightsWrapAround | Pepal_for_images/Sender.h:111-113 | With more parts than r, the bit of part r weighs 1 but stands for 2^r, which is not congruent to 1 |
| Nda.RunNda | Pepal_for_images/NDA.cc:170-285 | For all keys, bits, messages and random choices: the run goes through exactly under the condition above, and then result i is the version of part i that bit n-1-i selects, for every part |
| Nda.TransferParts | Pepal_for_images/NDA.cc:280-285 | After the transfer loop, result i is the version of part i that bit n-1-i selects, for every part: each sender and recipient is given the commitment, the scalar and the bit of its own part |
| Nda.RunFromKey | Pepal_for_images/NDA.cc:170-285 | A run whose bits are made from the key itself always passes, and part i is delivered in the version that bit i of the key, counted from the lowest, selects |
| AsnLengths.DerLengthEncode | Pepal_for_images/cryptopp/asn.cpp:17-36 | Appends the length octets of the specification below and returns their number |
| AsnLengths.BerLengthDecode | Pepal_for_images/cryptopp/asn.cpp:38-74 | Accepts, refuses and consumes what the specification of length decoding says, including indefinite lengths and the overflow guard |
| AsnLengths.LengthRoundTrip | Pepal_for_images/cryptopp/asn.cpp:17-74 | Every 64-bit length is decoded to itself, whatever follows, using up exactly its octets; the overflow guard does not fire |
| AsnLengths.EncodeLengthIsShortest | Pepal_for_images/cryptopp/asn.cpp:17-36 | No definite length octets that decode to the same length are shorter |
| AsnOctets.LengthOctets | Pepal_for_images/cryptopp/asn.cpp:17-36 | A length below 128 is one octet; others are an octet 128 + k and k octets that write the length in base 256, most significant first, without leading zeros |
| AsnOctets.LengthsAccepted | Pepal_for_images/cryptopp/asn.cpp:38-74 | Accepted are exactly an octet below 128, 128 for an indefinite length, and 128 + k with k octets, shortest or not, that write a number below 2^64 |
| DerReencoding.DerReencode | Pepal_for_images/cryptopp/asn.cpp:202-217 | Succeeds, consumes and appends what the recursive specification says, on byte queues of any contents; terminates |
| DerReencoding.ReencodeUntilEnd | Pepal_for_images/cryptopp/asn.cpp:210-214 | The loop re-encodes every object up to the end-of-contents octets and succeeds, appends and consumes what the recursive specification of contents says |
| DerReencoding.BerGeneralDecoder.Init | Pepal_for_images/cryptopp/asn.cpp:393-404 | Accepts exactly an identifier octet that matches, length octets, and no indefinite length on a primitive object |
| DerReencoding.BerGeneralDecoder.MessageEnd | Pepal_for_images/cryptopp/asn.cpp:445-459 | Succeeds exactly at the end, and removes the end-of-contents octets |
| DerReencoding.BerGeneralDecoder.TransferTo | Pepal_for_images/cryptopp/asn.cpp:461-486 | Moves the bytes asked for, or what there is, or what is left of a definite object if that is less, and takes as much off the length of a definite object; indefinite objects have no such limit |
| DerReencoding.DerGeneralEncoder.MessageEnd | Pepal_for_images/cryptopp/asn.cpp:513-520 | Appends identifier, minimal length and contents |
| DerReencoding.ReencodeKeepsValue | Pepal_for_images/cryptopp/asn.cpp:202-217 | Every input that parses is re-encoded, using up exactly one object, to an output that parses to the same tree of tags and contents |
| DerReencoding.ReencodeIdempotent | Pepal_for_images/cryptopp/asn.cpp:202-217 | Re-encoding an output gives it back |
| DerLengthForms.OutputAllDefinite | Pepal_for_images/cryptopp/asn.cpp:202-217 | For every input that parses, no object anywhere in the output has indefinite length, exactly if no object of definite length on the indefinite chain of the input contains one that has |
| DerLengthForms.OutputIsRewritten | Pepal_for_images/cryptopp/asn.cpp:202-217 | Every object that is reached through indefinite ones comes out with a definite length in its shortest form, in the same order; the contents of definite objects are copied byte by byte |
| DerLengthForms.IndefiniteStays | Pepal_for_images/cryptopp/asn.cpp:202-217 | The octets 30 04 30 80 00 00 are copied, the indefinite length within them included |
| DerLengthForms.IndefiniteGoes | Pepal_for_images/cryptopp/asn.cpp:202-217 | 30 80 02 01 05 00 00 becomes 30 03 02 01 05 |
| DerLengthForms.ConstructedIdentifiers | Pepal_for_images/cryptopp/asn.cpp:402-403 | Constructed are the identifiers from 32, 96, 160 and 224 on, 32 each |
| AsnValues.EncodeValue | Pepal_for_images/cryptopp/asn.cpp:219-224 | Appends the base-128 digits of an arc, all but the last with the continuation bit |
| AsnValues.DecodeValue | Pepal_for_images/cryptopp/asn.cpp:226-243 | Accepts, refuses and consumes what folding the digits says, with the overflow guard |
| AsnValues.ArcRoundTrip | Pepal_for_images/cryptopp/asn.cpp:219-243 | Every 32-bit arc is decoded to itself, whatever follows; the guard does not fire |
| AsnValues.EncodeArcIsShortest | Pepal_for_images/cryptopp/asn.cpp:219-224 | No digits that decode to the same arc are fewer |
| AsnOctets.ArcOctets | Pepal_for_images/cryptopp/asn.cpp:219-224 | Octet i of an arc is its digit in base 128, most significant first, plus 128 in all but the last; the first is not zero if more follow |
| AsnOctets.ArcsAccepted | Pepal_for_images/cryptopp/asn.cpp:226-243 | Read are the digits up to the first without top bit, and they are accepted exactly if there is one and they write a number below 2^32 |
| AsnValues.DerEncodeOid | Pepal_for_images/cryptopp/asn.cpp:245-255 | Appends identifier, length and contents, the first two arcs sharing one truncated octet |
| AsnValues.BerDecodeOid | Pepal_for_images/cryptopp/asn.cpp:257-284 | Accepts, refuses and consumes what the specification says, arc by arc up to the announced length |
| AsnValues.OidDecoded | Pepal_for_images/cryptopp/asn.cpp:245-284 | Any identifier encoded is decoded, using up exactly its octets; the first two arcs come back as quotient and remainder by 40 of their shared octet |
| AsnValues.OidRoundTrip | Pepal_for_images/cryptopp/asn.cpp:245-284 | An identifier comes back unchanged exactly when its second arc is below 40 and 40 times the first plus the second is below 256 |
| AsnValues.OidFails | Pepal_for_images/cryptopp/asn.cpp:245-284 | The arcs 1 and 40 come back as 2 and 0 |
| AsnOctets.OidOctets | Pepal_for_images/cryptopp/asn.cpp:245-255 | Octet 6, the length, 40 times the first arc plus the second modulo 256, then the other arcs in order |
| AsnOctets.KnownIdentifier | Pepal_for_images/cryptopp/asn.cpp:245-255 | 1.2.840.113549 is 06 06 2A 86 48 86 F7 0D |
| AsnValues.DerEncodeUnsigned | Pepal_for_images/cryptopp/asn.h:442-466 | Appends tag, length and the trimmed, sign-safe contents; returns the number of octets |
| AsnValues.BerDecodeUnsigned | Pepal_for_images/cryptopp/asn.h:478-510 | Accepts, refuses and consumes what the specification says, with leading zeros dropped and the range checked |
| AsnValues.UnsignedRoundTrip | Pepal_for_images/cryptopp/asn.h:442-510 | A number comes back exactly when it is in range and, under BOOLEAN, is 0 or 255; exactly its octets are used up |
| AsnValues.BooleanFails | Pepal_for_images/cryptopp/asn.h:442-510 | Under BOOLEAN, 1 comes back as 255 |
| AsnValues.UnsignedContentsIsShortest | Pepal_for_images/cryptopp/asn.h:452-461 | No contents octets of the number that start with a clear top bit are shorter |
| AsnOctets.UnsignedOctets | Pepal_for_images/cryptopp/asn.h:452-461 | The contents write the number in base 256, most significant octet first, and the first octet is below 128 |
| AsnOctets.KnownValues | Pepal_for_images/cryptopp/asn.h:442-466 | 300 under INTEGER is 02 02 01 2C, and 1 under BOOLEAN 01 01 FF |
| BaseNEncoding.InitializeEncoder | Pepal_for_images/cryptopp/basecode.cpp:22-46 | Fails exactly for bases outside 1 to 7 bits; otherwise the encoder is ready, its block being the least number of digits that fills whole bytes |
| BaseNDecoding.InitializeDecoder | Pepal_for_images/cryptopp/basecode.cpp:115-131 | Fails exactly for bases outside 1 to 7 bits; otherwise the decoder is ready for a text, whatever the entries of its table |
| BaseNEncoding.BaseNEncoder.EncodeByte | Pepal_for_images/cryptopp/basecode.cpp:56-79 | The or-ed bits of one byte extend the bit string in the buffer by exactly the eight bits of the byte, across cells |
| BaseNEncoding.BaseNEncoder.Put | Pepal_for_images/cryptopp/basecode.cpp:48-113 | For any cut of a message into calls, what has been put out at the end is the encoding of the whole message: letters for its digits; then, with a padding byte, less than a block of it up to a whole number of blocks, and nothing without one |
| BaseNDigits.DigitsUnique | Pepal_for_images/cryptopp/basecode.cpp:56-79 | There is only one string of n-bit digits that carries given bits and fewer than n zeros, and it is the one of the specification |
| BaseNEncoding.EncodeIsPadded | Pepal_for_images/cryptopp/basecode.cpp:96-110 | The encoding has a letter for every n bits of the message, rounded up; a padding byte fills the last block and no more |
| BaseNDigits.ConcatAt | Pepal_for_images/cryptopp/basecode.cpp:56-79 | Bit i of number k of a string of n-bit numbers, counted from the highest, is bit k n + i of the string |
| BaseNDecoding.BaseNDecoder.DecodeValue | Pepal_for_images/cryptopp/basecode.cpp:146-162 | The or-ed bits of any value below 256 extend the bit string in the buffer by its low n bits, also when they spill into the next byte, which is always in the buffer; bits above those are or-ed into the bits before, as far as the byte goes |
| BaseNDecoding.BaseNDecoder.Put | Pepal_for_images/cryptopp/basecode.cpp:133-176 | For any table and any cut of a text into calls, what has been put out at the end is the decoding of the whole text: values of the bytes that have one, written one after the other, whole bytes only |
| BaseNDecoding.InitializeDecodingLookupArray | Pepal_for_images/cryptopp/basecode.cpp:178-197 | Every entry is the index of the last letter that the byte is read as, in either case if asked for, or -1 |
| BaseNDecoding.TableIsLookup | Pepal_for_images/cryptopp/basecode.cpp:178-197 | Every entry of such a table is a digit of the base or no value |
| BaseNDecoding.DecodeDigits | Pepal_for_images/cryptopp/basecode.cpp:133-176 | With such entries, decoding puts the digits together and mixes nothing in |
| BaseNDecoding.UpperBitsShow | Pepal_for_images/cryptopp/basecode.cpp:146-155 | Otherwise it may: with one bit to a character, the values 2 and 2 give the bits 1 and 0 in place of 0 and 0 |
| BaseNDecoding.DecodeIgnoresCase | Pepal_for_images/cryptopp/basecode.cpp:182-196 | With a case-insensitive table, texts that differ in case only are decoded alike |
| BaseNDecoding.CaseOfLetters | Pepal_for_images/cryptopp/basecode.cpp:184-190 | Upper and lower case are those of the 26 letters of ASCII, and other bytes have none |
| BaseNGrouping.Grouper.Put | Pepal_for_images/cryptopp/basecode.cpp:214-243 | For any cut into calls, the output is the whole message with a separator before every g-th byte but the first, and the terminator at the end |
| BaseNGrouping.GroupFromFront | Pepal_for_images/cryptopp/basecode.cpp:219-231 | At most a group comes out as it is; of more, a group, a separator, and the others grouped |
| BaseNGrouping.DecodeGroupedEncoding | Pepal_for_images/cryptopp/basecode.cpp:22-243 | Decoding the grouped encoding gives the message, for every base from 2 to 128, with and without padding, for every group size, when letters are distinct and padding, separator and terminator are not read as letters |
| BaseNGrouping.EncodeGroupDecode | Pepal_for_images/cryptopp/basecode.cpp:48-243 | Encoder, grouper and decoder one behind the other give back the message, in whatever pieces it comes |
| CcmBuffer.Authenticator.AuthenticateBlocks | Pepal_for_images/cryptopp/cryptlib.cpp:178-227 | Chaining with the buffer as input and output takes in all whole blocks and returns the number of bytes left over |
| CcmBuffer.Authenticator.AuthenticateData | Pepal_for_images/cryptopp/authenc.cpp:11-46 | Whatever was held and the input together are chained in whole blocks, and the rest is held; what the other bytes of the buffer are afterwards, which a later declaration of lengths reads |
| CcmBuffer.Authenticator.AuthenticateRest | Pepal_for_images/cryptopp/ccm.cpp:108-113 | An incomplete block is chained as if filled up with zeros |
| Ccm.CcmMode.SetKey | Pepal_for_images/cryptopp/ccm.cpp:11-26 | Accepts exactly ciphers with 16-byte blocks and even tag sizes from 4 to 16 |
| Ccm.CcmMode.Resynchronize | Pepal_for_images/cryptopp/authenc.cpp:62-73 | Ends with BadState before a key is set, with InvalidArgument for nonces not of 7 to 13 bytes, and otherwise starts a run with the counter behind the first key stream block, all totals and declared lengths zero, and the chaining value of the message before still in place |
| Ccm.CcmMode.SpecifyDataLengths | Pepal_for_images/cryptopp/ccm.cpp:51-91 | Ends as the three guards say. If it succeeds, whatever was given before: the chaining value is that of a first block with the lengths given and with the nonce that the buffer holds, the encoded header length is held in place of what was, and the header bytes given before stay counted. What is enciphered for it has its flags, nonce and length where RFC 3610 has them |
| Ccm.Overlay | Pepal_for_images/cryptopp/ccm.cpp:62-64 | Writing the nonce over the high bytes of the 8-byte length gives block B_0 of section 2.2 of RFC 3610 |
| CcmFormat.FirstBlockFields | Pepal_for_images/cryptopp/ccm.cpp:62-65 | B_0: the low three bits of its first byte are 14 less the length of the nonce, the next three give the tag size, 64 is set exactly if there is a header, 128 is not; then the nonce and the length, most significant byte first |
| CcmFormat.AadPrefixFields | Pepal_for_images/cryptopp/ccm.cpp:67-90 | The header length takes two bytes below 0xFF00, FF FE and four below 2^32, FF FF and eight from there on, most significant first, and none if it is zero |
| BlockChaining.PaddedContents | Pepal_for_images/cryptopp/ccm.cpp:101-130 | The blocks authenticated are the bytes in order and less than a block of zeros |
| CcmFormat.MacOfShort | Pepal_for_images/cryptopp/ccm.cpp:51-130 | For a header and a message of a block each: the message block xor the enciphered header block xor the enciphered B_0 is what is enciphered last |
| Ccm.CcmMode.Update | Pepal_for_images/cryptopp/authenc.cpp:75-102 | Takes in header before the message and a footer after it, and ends with BadState or InvalidArgument exactly as the state and the lengths say |
| Ccm.CcmMode.ProcessData | Pepal_for_images/cryptopp/authenc.cpp:104-134 | The output is the input xor the key stream from the current place, plaintext is authenticated in either direction, and the outcome is determined by state and lengths, the total being counted up first; an empty piece changes nothing that is authenticated |
| Ccm.CcmMode.TruncatedFinal | Pepal_for_images/cryptopp/authenc.cpp:136-176 | The outcome is determined by state and lengths; on success the tag of header and message given since the nonce, for lengths declared in time, and in every case the chaining value with the held bytes taken in, xor the first key stream block |
| Ccm.CcmMode.Run | Pepal_for_images/cryptopp/authenc.cpp:62-176 | For every cut of header and message into calls: output and tag are those of RFC 3610, in both directions |
| Ccm.CcmMode.RunFrom | Pepal_for_images/cryptopp/authenc.cpp:62-176 | For every part of the header given before the lengths are declared, every cut into calls and every message: the run succeeds as if it had come after, the output is the same, and the tag is made from a first block with the total lengths and the nonce the buffer holds, and from the rest of the header only |
| LateLengths.LateIsStandard | Pepal_for_images/cryptopp/ccm.cpp:51-91 | The blocks so authenticated are those of RFC 3610 for the whole header exactly if nothing came early, or all of the header is zero, what came early fits the padding of the rest, and the nonce is zero where it was written over |
| LateLengths.TagOfBlocks | Pepal_for_images/cryptopp/ccm.cpp:101-130 | The tag is made from these blocks, the first one enciphered and the others chained |
| LateLengths.TwoHeadersOneTag | Pepal_for_images/cryptopp/authenc.cpp:85-88 | Two runs whose headers differ in whole blocks given before the lengths end with the same tag |
| LateLengths.LostBlock | Pepal_for_images/cryptopp/authenc.cpp:85-88 | A block of ones given early is authenticated as a block of zeros would be, and not as RFC 3610 has it |
| LateLengths.HiddenByte | Pepal_for_images/cryptopp/authenc.cpp:85-88 | A single zero byte given early changes nothing, under any nonce |
| LateLengths.WrongNonce | Pepal_for_images/cryptopp/ccm.cpp:62-64 | After the two bytes 1 and 2, the first block is made with a nonce that starts with 2 |
| Ccm.CcmMode.RunUndeclared | Pepal_for_images/cryptopp/authenc.cpp:62-176 | A run that never declares lengths gives out a tag if and only if header and message are empty, and then it is the chaining value left over from before, xor the first key stream block |
| Ccm.CcmMode.TagAgain | Pepal_for_images/cryptopp/authenc.cpp:62-176 | After any message, such a run with the same nonce gives out that message's tag once more |
| Ccm.CcmMode.EncryptAndAuthenticate | Pepal_for_images/cryptopp/cryptlib.cpp:268-275 | The one-shot encryption and tag, and exactly when it throws |
| Ccm.CcmMode.DecryptAndVerify | Pepal_for_images/cryptopp/cryptlib.cpp:277-284 | The one-shot decryption; the tag is accepted exactly if it is a prefix of the right one, of at most the tag size |
| Ccm.RoundTrip | Pepal_for_images/cryptopp/authenc.cpp:62-176 | What one object encrypts another decrypts, in different pieces, and both compute the same tag |
| Ccm.CtrStreamIs | Pepal_for_images/cryptopp/ccm.cpp:37-46 | Counting up the whole 16-byte block from flags, nonce and zeros gives the key stream of section 2.3 of RFC 3610 for every length that fits the length field |
| CcmFormat.CryptAt | Pepal_for_images/cryptopp/ccm.cpp:37-46 | Byte i of the output is that of the input xor byte i modulo 16 of the encipherment of A_j, j being i / 16 + 1 |
| CcmFormat.TagAt | Pepal_for_images/cryptopp/ccm.cpp:132-136 | Byte i of the tag is that of the chaining value xor byte i of the encipherment of A_0 |
| CcmFormat.TagSizes | Pepal_for_images/cryptopp/ccm.cpp:21-22 | The tag sizes are 4, 6, 8, 10, 12, 14 and 16 |
| CcmFormat.CounterIsBlock | Pepal_for_images/cryptopp/ccm.cpp:37-46 | Adding a counter that fits to the start block changes its last bytes only |
| CcmFormat.CryptTwice | Pepal_for_images/cryptopp/ccm.h:70-70 | Decryption is encryption again |
| CcmFormat.BlocksDetermineInput | Pepal_for_images/cryptopp/ccm.cpp:51-130 | Two runs authenticate the same blocks only if nonce, header, message and tag size are the same |
| GaloisDoubling.MulU | Pepal_for_images/cryptopp/cmac.cpp:11-41 | In place, the value becomes its product with x reduced by the polynomial of the block size; without success exactly if a bit is carried out of a block not of 8, 16 or 32 bytes; the first byte of an odd number and the bytes around the block are untouched |
| GaloisDoubling.Shift | Pepal_for_images/cryptopp/cmac.cpp:13-21 | The loop that goes by pairs of bytes doubles the number they make and gives back the bit carried out; the first byte of an odd number stays |
| GaloisBits.TimesXBits | Pepal_for_images/cryptopp/cmac.cpp:11-41 | Bit k of the product is bit k - 1, exclusive or the top bit if k is 0, 1, 3 or 4 of 64 bits, 0, 1, 2 or 7 of 128, 0, 1, 5 or 10 of 256 |
| CmacModulus.Modulus32Factors | Pepal_for_images/cryptopp/cmac.cpp:33-36 | The polynomial for 32-byte blocks, x^256+x^10+x^5+x+1, is a product with x^2+x+1, so that it defines no field; x^256+x^10+x^5+x^2+1 has no such factor |
| Cmac.CmacBase.SetKey | Pepal_for_images/cryptopp/cmac.cpp:43-56 | The register holds zeros, K1 and K2; it fails exactly if a doubling carries out of an unsupported block size |
| Cmac.CmacBase.TakeIn | Pepal_for_images/cryptopp/cmac.cpp:58-101 | Whatever was held and the input together are chained up to the last block, which is held back even if complete |
| Cmac.CmacBase.Update | Pepal_for_images/cryptopp/cmac.cpp:58-101 | The register is that of the whole message so far |
| Cmac.CmacBase.TruncatedFinal | Pepal_for_images/cryptopp/cmac.cpp:103-122 | The first bytes of the CMAC of the message, with K1 or K2 by whether the last block is complete; then ready for the next message |
| Cmac.MacOfPieces | Pepal_for_images/cryptopp/cmac.cpp:58-122 | The CMAC does not depend on how the message is cut into calls |
| Cmac.CmacOfBlock | Pepal_for_images/cryptopp/cmac.cpp:103-122 | The CMAC of one complete block is the encipherment of it xor x L, L being the encipherment of zeros |
| Cmac.CmacOfShort | Pepal_for_images/cryptopp/cmac.cpp:103-122 | That of less than a block is the encipherment of it, 0x80 and zeros, xor x (x L) |
| Cmac.CmacOfMore | Pepal_for_images/cryptopp/cmac.cpp:58-122 | A first block that more follows is enciphered into the next block, whether that is the last one or not |
| Blake2.Blake2Base.IncrementCounter | Pepal_for_images/cryptopp/blake2.cpp:469-474 | The two counter words count modulo the square of the word size: the comparison after the addition is the carry |
| Blake2.Blake2Base.Update | Pepal_for_images/cryptopp/blake2.cpp:410-441 | The buffer holds the last 1 to BLOCKSIZE bytes, all blocks before have been compressed, each with its own count and no flag |
| Blake2.Blake2Base.TruncatedFinal | Pepal_for_images/cryptopp/blake2.cpp:444-466 | The first bytes of the hash: only the last block is flagged and padded, and it counts the input's bytes; then restarted |
| Blake2.Blake2Base.Restart | Pepal_for_images/cryptopp/blake2.cpp:372-407 | A message starts from the parameter block's state with the key block, if there is a key, as input |
| Blake2.HashOfPieces | Pepal_for_images/cryptopp/blake2.cpp:372-466 | The hash is that of section 3.3 of RFC 7693 for every cut of the message, also for the empty one with and without a key |
| Blake2Reference.FinalStateIsReference | Pepal_for_images/cryptopp/blake2.cpp:410-466 | The state is that of the standard's loop over positions: block i goes in with i + 1 times the block size in two counter words and no flags, the last one, filled up with zeros, with the input's length and the flags |
| Blake2Reference.HashIsReference | Pepal_for_images/cryptopp/blake2.cpp:372-466 | With a key, a block that starts with it and ends in zeros is hashed before the message, and nothing without one |
| Adler32.Adler.Update | Pepal_for_images/cryptopp/adler32.cpp:8-54 | The fields hold the sums reduced at every byte, for any length and any cut |
| Adler32.Accumulate | Pepal_for_images/cryptopp/adler32.cpp:31-38 | Eight additions leave s1 below twice the base and no sum above 2^32-1 |
| Adler32.AddGroups | Pepal_for_images/cryptopp/adler32.cpp:29-47 | One subtraction for each 8 bytes keeps s1 below the base, and reducing s2 every 0x8000 bytes keeps it below 2^32 all the time |
| Adler32.SumsAre | Pepal_for_images/cryptopp/adler32.cpp:8-54 | The first sum is 1 plus all bytes, the second the length plus every byte times the number of bytes from it to the end, both modulo 65521 |
| Adler32.Adler.TruncatedFinal | Pepal_for_images/cryptopp/adler32.cpp:56-80 | The first bytes of s2 and s1, most significant byte first; then reset |
| Adler32.CheckOfPieces | Pepal_for_images/cryptopp/adler32.cpp:8-80 | For every cut the four bytes are the high and low byte of the second sum and of the first, given without a loop |
| CamelliaRounds.RoundsAgree | Pepal_for_images/cryptopp/camellia.cpp:29-57 | Both macros compute the F-function of section 2.4.1 of RFC 3713, given that the large tables spread the S-box |
| CamelliaRounds.SlowMixIsP | Pepal_for_images/cryptopp/camellia.cpp:40-45 | The rotations and exclusive ors of the slow round are the P-function |
| CamelliaStandard.BoxBits | Pepal_for_images/cryptopp/camellia.cpp:31-39 | The second and the third S-box are the first one turned by a bit to the left and to the right, the fourth turns its argument to the left |
| CamelliaStandard.PColumns | Pepal_for_images/cryptopp/camellia.cpp:40-45 | To which bytes P spreads each of its eight bytes |
| CamelliaStandard.PAdds | Pepal_for_images/cryptopp/camellia.cpp:40-45 | P of an exclusive or is the exclusive or of what P gives, so that the columns say everything |
| CamelliaSchedule.RotationOf | Pepal_for_images/cryptopp/camellia.cpp:98-103 | Shifting the two 64-bit halves as the macro does is rotating the 128-bit key, for every amount in use |
| CamelliaSchedule.StoreForward | Pepal_for_images/cryptopp/camellia.cpp:84-103 | For encryption, a store through the address macro sets the subkey of its index, in either byte order |
| CamelliaSchedule.StoreBackward | Pepal_for_images/cryptopp/camellia.cpp:84-103 | For decryption, the masked address sets the same subkey counted from the back, in either byte order: the schedule in memory is reversed subkey by subkey |
| CamelliaSchedule.Stores128 | Pepal_for_images/cryptopp/camellia.cpp:124-149 | The 14 stores for a 16-byte key make the 26 subkeys of section 2.2 of RFC 3713 |
| CamelliaSchedule.Stores256 | Pepal_for_images/cryptopp/camellia.cpp:151-196 | The 17 stores for longer keys make the 34 subkeys |
| CamelliaStandard.NamedSubkeys128 | Pepal_for_images/cryptopp/camellia.cpp:121-149 | The 26 subkeys by the names of section 2.2 of RFC 3713, each with its key, rotation and half, in the order of use |
| CamelliaStandard.NamedSubkeys256 | Pepal_for_images/cryptopp/camellia.cpp:151-196 | The 34 subkeys for longer keys, likewise |
| CamelliaStandard.SigmasAreRoots | Pepal_for_images/cryptopp/camellia.cpp:138-140 | The six constants are the hexadecimal digits of the square roots of 2, 3, 5, 7, 11 and 13 from the second to the seventeenth place |
| CamelliaStandard.DerivedKeys | Pepal_for_images/cryptopp/camellia.cpp:136-192 | By which values of F the halves change, in order, on the way from KL and KR to KA and KB |
| Camellia.CamelliaBase.SetKey | Pepal_for_images/cryptopp/camellia.cpp:69-198 | The schedule in memory is that of the standard, in reverse for decryption, for keys of 16, 24 and 32 bytes |
| Camellia.CamelliaBase.ProcessAndXorBlock | Pepal_for_images/cryptopp/camellia.cpp:200-249 | Slow and fast rounds, layers and whitening together are the cipher's steps over the subkeys in memory, and the other block is mixed in at the end |
| CamelliaStandard.FlLowerBits | Pepal_for_images/cryptopp/camellia.cpp:204-208 | FL: bit i of the lower half changes by bit i - 1 of the upper half where the key has one too |
| CamelliaStandard.FlUpperBits | Pepal_for_images/cryptopp/camellia.cpp:204-208 | FL: bit i of the upper half changes by bit i of the new lower half or of the key |
| CamelliaStandard.FlInvUpperBits | Pepal_for_images/cryptopp/camellia.cpp:204-208 | FLINV: bit i of the upper half changes by bit i of the lower half or of the key |
| CamelliaStandard.FlInvLowerBits | Pepal_for_images/cryptopp/camellia.cpp:204-208 | FLINV: bit i of the lower half changes by bit i - 1 of the new upper half where the key has one too |
| CamelliaStandard.StepChanges | Pepal_for_images/cryptopp/camellia.cpp:200-249 | What each step changes, and by what: rounds one half by F of the other, whitening both by a subkey each, a layer both by FL and FLINV |
| CamelliaStandard.StepsOf128 | Pepal_for_images/cryptopp/camellia.cpp:231-248 | The 22 steps of the cipher with 18 rounds, with the subkey of each |
| CamelliaStandard.StepsOf256 | Pepal_for_images/cryptopp/camellia.cpp:231-248 | With 24 rounds, one more layer and six more rounds before the last whitening |
| CamelliaCipher.MirrorUndoes | Pepal_for_images/cryptopp/camellia.cpp:204-208 | Each step is undone by its mirror image on exchanged halves, the FL layers included |
| CamelliaCipher.ReversedKeysDecrypt | Pepal_for_images/cryptopp/camellia.cpp:69-249 | With the subkeys reversed the cipher inverts itself, for any number of rounds |
| Camellia.DecryptEncrypted | Pepal_for_images/cryptopp/camellia.cpp:69-249 | A decryption object with the same key gives back every block, whatever the byte orders of the machines |
| Cast.Cast256.Q | Pepal_for_images/cryptopp/cast.cpp:199-203 | The macro over the key array is the forward quad round of RFC 2612 |
| Cast.Cast256.QBar | Pepal_for_images/cryptopp/cast.cpp:205-209 | The macro over the key array is the reverse quad round |
| Cast.QuadsInvert | Pepal_for_images/cryptopp/cast.cpp:199-209 | Forward and reverse quad rounds undo each other |
| CastStandard.RotatedBit | Pepal_for_images/cryptopp/cast.cpp:18-29 | The rotation turns to the left: bit i of the result is the bit of the argument that is y places below it |
| CastStandard.F1Means | Pepal_for_images/cryptopp/cast.cpp:18-21 | Type 1 turns the sum of key and half and looks up its bytes, most significant first; subtracting box 3, adding box 2 and xoring box 1 leaves box 0 |
| CastStandard.F2Means | Pepal_for_images/cryptopp/cast.cpp:22-25 | Type 2 turns the exclusive or; xoring box 3, subtracting box 2 and adding box 1 leaves box 0 |
| CastStandard.F3Means | Pepal_for_images/cryptopp/cast.cpp:26-29 | Type 3 turns the key less the half; adding box 3, xoring box 2 and subtracting box 1 leaves box 0 |
| CastStandard.QuadChanges | Pepal_for_images/cryptopp/cast.cpp:199-203 | Rounds 1 to 6 of CAST-256 change C, B, A and D in turn by types 1, 2, 3 and 1, with these keys |
| CastStandard.QuadBarChanges | Pepal_for_images/cryptopp/cast.cpp:205-209 | Rounds 7 to 12 change D, A, B and C in turn |
| Cast.ReverseQuads | Pepal_for_images/cryptopp/cast.cpp:276-291 | The swaps in place put the keys of the twelve quad rounds in reverse order |
| Cast.RunBack256 | Pepal_for_images/cryptopp/cast.cpp:214-236 | With the quad rounds' keys reversed, every step of decryption takes back one of encryption |
| Cast.DecryptEncrypted256 | Pepal_for_images/cryptopp/cast.cpp:214-294 | A decryption object with the same round keys gives back every block |
| Cast.Cast128.Encrypt | Pepal_for_images/cryptopp/cast.cpp:36-64 | The straight-line code is 12 or 16 alternating rounds with the three functions in turn |
| Cast.Cast128.Decrypt | Pepal_for_images/cryptopp/cast.cpp:66-95 | The straight-line code is the same rounds, last one first |
| CastStandard.RoundChanges | Pepal_for_images/cryptopp/cast.cpp:36-64 | Each round of CAST-128 moves the right half to the left and mixes the left one with type 1, 2 or 3 of the right, by turns |
| Cast.DecryptEncrypted128 | Pepal_for_images/cryptopp/cast.cpp:36-95 | Decryption gives back every block, with twelve rounds and with sixteen |
| Blowfish.BlowfishBase.constructor | Pepal_for_images/cryptopp/blowfish.cpp:9-41 | The boxes are the expansion of the key, each pair the encryption of the one before it, with the P-array in reverse for decryption |
| BlowfishStandard.KeyBytes | Pepal_for_images/cryptopp/blowfish.cpp:19-26 | Each key word is four bytes of the key, most significant first, one after the other, starting over at its end |
| BlowfishStandard.PairOfP | Pepal_for_images/cryptopp/blowfish.cpp:28-31 | Pair k of the P-array becomes the encipherment of the pair before it, or of zeros, under the arrays as they are then; nothing else changes |
| BlowfishStandard.PairOfS | Pepal_for_images/cryptopp/blowfish.cpp:33-36 | The same for the S-boxes, which follow the last pair of the P-array |
| Blowfish.BlowfishBase.CryptBlock | Pepal_for_images/cryptopp/blowfish.cpp:44-69 | The loop makes the cipher's 18 steps and exchanges the halves |
| BlowfishStandard.FMeans | Pepal_for_images/cryptopp/blowfish.cpp:44-69 | F looks up the four bytes, most significant first; subtracting box 3, xoring box 2 and subtracting box 1 leaves box 0 |
| BlowfishStandard.CryptIsEncipher | Pepal_for_images/cryptopp/blowfish.cpp:44-69 | The cipher is sixteen rounds that mix in a key, then F, and exchange the halves, with the last exchange undone and two keys at the end |
| Blowfish.ReversedBoxDecrypts | Pepal_for_images/cryptopp/blowfish.cpp:38-97 | With the P-array reversed the cipher inverts itself |
| Blowfish.DecryptEncrypted | Pepal_for_images/cryptopp/blowfish.cpp:9-97 | A decryption object with the same key gives back every block |
| BitCalculations.FallingIsBinomial | Pepal_for_images/bit_calculations.py:8-10 | The product of r falling factors is exactly the entry of Pascal's triangle times r! |
| BitCalculations.Ncr | Pepal_for_images/bit_calculations.py:5-10 | The entry of Pascal's triangle, by one division without remainder; raises exactly outside 0 <= r <= n |
| BitCalculations.RatioBetween0And1 | Pepal_for_images/bit_calculations.py:17-17 | The ratio lies between 0 and 1 |
| BitCalculations.RatioMonotone | Pepal_for_images/bit_calculations.py:17-17 | The ratio does not fall as m grows up to (k-1) l |
| BitCalculations.GenList | Pepal_for_images/bit_calculations.py:13-19 | All entries, in order, exactly if the largest selection is at most (k-1) l; otherwise it raises |
| BitCalculations.ListFails | Pepal_for_images/bit_calculations.py:13-19 | With k = 256 it raises for l = 51, and does not for the five lengths in use |
| BitCalculations.ListIsMonotone | Pepal_for_images/bit_calculations.py:13-19 | Where the list exists, its entries lie between 0 and k and do not fall |
| BitCalculations.RatioSteps | Pepal_for_images/bit_calculations.py:17-17 | What the ratio lacks of 1 is 1 for m = 0, and is multiplied by ((k-1) l - m) / (k l - m) from m to m + 1: the product without factorials |

## Left out

- CascadeMultiplication.CascadeScalarMultiply: promises the sum for the magnitudes of the exponents, because that is what the code computes; `CascadeMeetsSignedSum` says when the signed sum is meant.
- GeneralCascade.GeneralCascadeMultiplication: `make_heap`, `push_heap` and `pop_heap` are taken by the contract of the C++ standard, as functions on sequences; `StdHeapExists` shows the contract can be met. There is at least one term, and unless there are exactly two, no exponent is negative, as `SimultaneousMultiply` asserts of its exponents.
- WindowSliding.WindowSlider.FindNextWindow: the window is kept as a number; that it fits 32 bits for windows of up to 31 bits is not stated (the sizes that are chosen automatically are at most 7).
- BlumShub.BlumBlumShub.Seek: modular exponentiation is taken as its specification; `ProcessData`, which xors the stream onto data, is not modelled.
- Nda.RunNda: the random choices are parameters; the generator is taken to generate a group of prime order (a random `G1` could be the identity), and message arrays to hold at least `message_len` bytes. Pairing, hash and AES in counter mode are uninterpreted functions; the unused zero-knowledge values `u`, `z` and `r` are left out.
- DerReencoding.DerReencode: identifiers of one octet only (low tag numbers), queues below 2^60 bytes, and nothing is said about the queues after a failure.
- AsnValues.DerEncodeUnsigned: sizes of 1 to 8 bytes.
- BaseNEncoding.InitializeEncoder: makes a new encoder where the original sets one up again; the alphabet has exactly the letters of the base, and reading the parameters by name is left out.
- BaseNDecoding.InitializeDecoder: makes a new decoder where the original sets one up again; the table has 256 entries.
- BaseNDecoding.InitializeDecodingLookupArray: letters are those of ASCII, as in the "C" locale; the debug assertions that letters are distinct are the hypothesis of the round trip.
- Ccm.CcmMode.TruncatedFinal: requires at most 16 bytes to be asked for, as for more the original reads behind the end of its 32-byte buffer, which has no defined result; counter mode is modelled by its key stream, totals are unbounded numbers, and the key is given as a keyed cipher.
- GaloisDoubling.MulU: that the polynomials for 8 and 16 bytes are irreducible, so that their rings are fields, is not proved; no theorem here needs it.
- Blake2.Blake2Base.Update: the compression function, the initial state and the output of a state are parameters, as are word size and block size; tree parameters, salt and personalisation are part of that state.
- Camellia.CamelliaBase.SetKey: user keys and blocks are given as big-endian words; the tables are arbitrary ones in which `SP` spreads `s1` (`TablesOf` makes such tables), and the sweep over the S-box against timing attacks, which leaves the words as they are, is not modelled.
- Cast.Cast256.constructor: takes the derived round keys; their derivation by `Omega`, and the key schedule of CAST-128, are the same for both directions and not modelled.
- Blowfish.BlowfishBase.constructor: the initial boxes are parameters.
- BitCalculations.GenList: values are exact reals, before rounding; the list of percentages and `ot_cord` are left out.
- Big integers are unbounded `int`s; the original's bookkeeping of machine words is not part of this model.
- The PBC and GMP wrappers, watermarking, image splitting, temporary files and timing in `NDA.cc`, `Sender.h` and `Recipient.h` are left out.
- AES, SHA-256, other ciphers and hashes of the library, its SIMD variants, filters' blocking and flushing, and `EncodedObjectFilter` are left out.

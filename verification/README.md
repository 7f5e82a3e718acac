# Proofs about the pool's algorithmic cores

A mining pool rests on a handful of self-contained algorithms: proof-of-work functions and
their fast implementations, the verifier for Equihash solutions, the serialiser that has to
put a miner's extra nonce into exactly the right bytes, the slots of merged-mined chains, and
a compiler that turns interface descriptions into printing and parsing code. This project
models those algorithms in Dafny and proves what they are for.

| part | modules |
|---|---|
| OdoCrypt cipher | `OdoLinear`, `OdoLayers`, `OdoCipher`, `OdoBits`, `OdoChain`, `OdoRandom`, `OdoCrypt`, `OdoSchedule` |
| SIMD number-theoretic transform | `AlphaTable`, `SimdSpectrum`, `SimdFft`, `SimdInverse` |
| Equihash | `BitPacking`, `EquihashTree`, `Equihash`, `EquihashBits`, `EquihashVerifier` |
| scrypt, scalar and SSE2 | `SalsaSpec`, `SalsaExample`, `Scrypt`, `Integerify`, `ScryptSse` |
| merged-mining slots | `ChainMap` |
| streaming hashes | `Streaming`, `BlakeSpec`, `Blake`, `Sha256Spec`, `Sha256Constants`, `Sha256`, `Sha256Example`, `KeccakSpec`, `Keccak`, `Sha3`, `KeccakHash`, `KeccakBits` |
| IDL compiler | `GeneratedCode`, `ArrayLayout`, `ArrayLayoutPrinter`, `ArrayLayoutParser`, `PresenceMask`, `MemberCommas`, `StructOrder`, `StructContext`, `ParameterNames`, `StructAnalysis` |
| Bitcoin transactions and coinbase | `BtcStream`, `BtcTransaction`, `BtcWire`, `BtcCoinbase` |
| prime chains, Ethash | `Reciprocals`, `DivisionChecker`, `PrimeChain`, `PrimeCertificate`, `Ethash` |
| shared | `Words`, `Arithmetic`, `Primes`, `Arrays` |

Each algorithm has a function that says what it computes (`...Spec` modules follow the
published standard), imperative methods in the form of the source that are proved equal to
that function, and lemmas that prove what the source promises about it. Beside them stand
descriptions that use none of these definitions: laws of single bits and digits, closed forms,
and the published examples. Emitted C++ is a small instruction list with an evaluator, not text.

What the code does where its own comments or intentions say otherwise:

- `FFT_LOOP` in `src/blockmaker/simd.cpp:100` allows inputs up to 8388608; the product with
  the table entry 256 then leaves the signed 32-bit range. The exact bound is 8388607
  (`SimdFft.LoopBoundExact`). The transform itself stays far below it.
- `buildChainMap` tries no tree for 129 chains or more and then reports success with every
  chain in slot 0 (`ChainMap.AnswerBySize`).
- A transaction without inputs but with outputs does not survive serialising and reading back
  (`BtcTransaction.NoInputs`), and the extra-nonce offset is right only below 253 bytes of
  scriptSig (`BtcCoinbase.OverwriteWorksBelow253`).
- A value of an array-layout struct can lose everything after the first absent field that
  denies null (`ArrayLayoutParser.LosesAfterBarrier`), and its printed form is refused when a
  field whose presence is required was not printed (`ArrayLayoutParser.RefusedWithoutPresence`).
  `ArrayLayoutParser.RoundTripIsExact` says when it comes back whole.
- `calculateFullDatasetNumItems` and `getLightCacheSize` compute in a signed 32-bit word, which
  epochs that `ethashGetEpochNumber` can return overflow: the light cache exactly from epoch
  16257 on (`Ethash.LightBytesFit`), the full dataset from epoch 32640 on (`Ethash.BoundsAre`).
- `emitDerivedInlineSerialize` would test a default that reads the clock at run time, although
  the comma scheme counts it as unconditional (`MemberCommas.GuardIsMarked`); no field is ever
  captured that way.

## Model

| member | source | states |
|---|---|---|
| OdoCrypt.RoundTrip | src/blockmaker/odocrypt.cpp:110-156 | for every seed and every 80-byte block, decrypting what was encrypted gives the block back |
| OdoCipher.DecipherEncipher | src/blockmaker/odocrypt.cpp:110-156 | for every well-formed key and every block, the decryption function undoes the encryption function |
| OdoCipher.EncipherIsOneToOne | src/include/blockmaker/odocrypt.h:49-50 | under one key two blocks have the same cipher block only when they are the same block |
| OdoCipher.RoundsInverse | src/blockmaker/odocrypt.cpp:115-122 | undoing any number of rounds, last one first, restores the state |
| OdoCipher.RoundInverse | src/blockmaker/odocrypt.cpp:144-153 | one decryption round undoes the encryption round with the same round key |
| OdoLinear.LinearSquare | src/blockmaker/odocrypt.cpp:286-296 | applying the layer with word shift d and rotations r twice is applying it once with shift 2d and rotations 2r, all cyclically |
| OdoLinear.IteratePower | src/blockmaker/odocrypt.cpp:286-296 | squaring k times doubles the word shift and every rotation k times |
| OdoLinear.WordBitsIterationsShift | src/blockmaker/odocrypt.cpp:286-296 | 64 applications of the layer are a pure shift of the words, because six doublings turn every rotation into a multiple of 64 and the rotation count is even |
| OdoLinear.FiveWordBitsIterations | src/blockmaker/odocrypt.cpp:147-149 | already 320 applications, the least common multiple of 10 and 64, are the identity, as the comment there says |
| OdoLinear.IterateOrder | src/blockmaker/odocrypt.cpp:147-149 | 640 applications of the layer are the identity |
| OdoLinear.LinearInverse | src/blockmaker/odocrypt.cpp:147-149 | 639 further applications undo one: the loop of `Decrypt` inverts `ApplyRotations` |
| OdoLayers.PreMixInvolution | src/blockmaker/odocrypt.cpp:182-190 | applying the pre-mix twice gives the state back |
| OdoLayers.MaskedSwapsInvolution | src/blockmaker/odocrypt.cpp:218-229 | the same masked swaps applied twice give the state back |
| OdoLayers.WordShuffleInverse | src/blockmaker/odocrypt.cpp:231-239 | shuffling by 3 and then by 7 puts all ten words back |
| OdoLayers.PboxRotationsInverse | src/blockmaker/odocrypt.cpp:246-256 | rotating by 64 - r undoes rotating by r |
| OdoLayers.PboxInverse | src/blockmaker/odocrypt.cpp:258-284 | `ApplyInvPbox` undoes `ApplyPbox` for every mask and rotation table |
| OdoLayers.SboxesInverse | src/blockmaker/odocrypt.cpp:192-216 | substituting with inverse tables undoes substituting, the four pairs of 6-bit and 10-bit slices tiling each word |
| OdoLayers.RoundKeyInvolution | src/blockmaker/odocrypt.cpp:298-302 | applying a round key twice gives the state back |
| OdoCipher.PackedUnpacked | src/blockmaker/odocrypt.cpp:158-180 | packing what was unpacked gives the 80 bytes back |
| OdoCipher.UnpackedPacked | src/blockmaker/odocrypt.cpp:158-180 | unpacking what was packed gives the ten words back |
| OdoCipher.InverseUnique | src/blockmaker/odocrypt.cpp:126-132 | the inverse of a permutation table is the only table that sends each entry back to its index |
| OdoRandom.LeapsStep | src/blockmaker/odocrypt.cpp:25-31 | advancing the two fields turns the map that takes k steps of the plain generator into the one that takes k + 1 steps |
| OdoRandom.Generator.NextInt | src/blockmaker/odocrypt.cpp:25-31 | returns the upper half of output number 1 + ... + n of the plain generator started at the seed |
| OdoRandom.Generator.NextLong | src/blockmaker/odocrypt.cpp:33-37 | returns two consecutive draws, the first in the upper half |
| OdoRandom.Generator.Next | src/blockmaker/odocrypt.cpp:39-42 | returns a draw scaled below N |
| OdoRandom.DrawBelowBound | src/blockmaker/odocrypt.cpp:39-42 | the scaled draw is always below N |
| OdoRandom.Generator.Permutation | src/blockmaker/odocrypt.cpp:44-51 | fills the array with the shuffle that the next draws determine |
| OdoRandom.ShuffleIsPermutation | src/blockmaker/odocrypt.cpp:44-51 | for every seed and every size the shuffle is a true permutation |
| OdoCrypt.SearchStops | src/blockmaker/odocrypt.cpp:95-102 | whatever the candidates, one that makes the sum odd comes before the candidates run out |
| OdoCrypt.RotationsAreSound | src/blockmaker/odocrypt.cpp:84-103 | the six rotations are distinct, lie in 1..63 and have an odd sum |
| OdoCrypt.KeyOfIsKey | src/blockmaker/odocrypt.cpp:58-108 | every seed gives permutations for all fifty S-boxes, rotation counts in range for both P-boxes and for the linear layer, and 84 round keys |
| OdoCrypt.RandomRotations | src/blockmaker/odocrypt.cpp:84-103 | draws the candidates and returns the chosen rotations, never reading past the table |
| OdoCrypt.RandomPbox | src/blockmaker/odocrypt.cpp:72-82 | draws masks and rotations in the order the seed determines |
| OdoCrypt.OdoCrypt.constructor | src/blockmaker/odocrypt.cpp:58-108 | the object holds exactly the key that the seed determines |
| OdoCrypt.OdoCrypt.Encrypt | src/blockmaker/odocrypt.cpp:110-124 | the output buffer holds the enciphered input, which is the end of the chain of bit relations from the input; the input is untouched |
| OdoCrypt.OdoCrypt.Decrypt | src/blockmaker/odocrypt.cpp:134-156 | the output buffer holds the deciphered input |
| OdoCrypt.RotateBack | src/blockmaker/odocrypt.cpp:147-149 | 639 passes over the array give the state that one forward pass came from |
| OdoCrypt.Unpack | src/blockmaker/odocrypt.cpp:158-168 | or-ing shifted bytes fills the array with the little-endian words |
| OdoCrypt.Pack | src/blockmaker/odocrypt.cpp:170-180 | the bytes of the words, least significant first |
| OdoCrypt.PreMix | src/blockmaker/odocrypt.cpp:182-190 | the array holds the pre-mixed state |
| OdoCrypt.ApplySboxes | src/blockmaker/odocrypt.cpp:192-216 | the array holds the substituted state; every table access is in range |
| OdoCrypt.ApplyMaskedSwaps | src/blockmaker/odocrypt.cpp:218-229 | the array holds the state with the masked bits of neighbouring words exchanged |
| OdoCrypt.ApplyWordShuffle | src/blockmaker/odocrypt.cpp:231-239 | word i has moved to place m * i modulo ten |
| OdoCrypt.ApplyPboxRotations | src/blockmaker/odocrypt.cpp:246-256 | the even words are rotated, the odd ones are not |
| OdoCrypt.ApplyPbox | src/blockmaker/odocrypt.cpp:258-270 | the array holds the state after all subrounds |
| OdoCrypt.ApplyInvPbox | src/blockmaker/odocrypt.cpp:272-284 | the array holds the state after all inverse subrounds |
| OdoCrypt.ApplyRotations | src/blockmaker/odocrypt.cpp:286-296 | each word becomes its successor plus its own six rotations |
| OdoCrypt.ApplyRoundKey | src/blockmaker/odocrypt.cpp:298-302 | bit i of the round key is added to bit 0 of word i |
| OdoCrypt.InvertMapping | src/blockmaker/odocrypt.cpp:126-132 | every row of the result sends each entry of the mapping back to its index |
| OdoChain.EncipherIsTheChain | src/blockmaker/odocrypt.cpp:110-124 | a block is the cipher block exactly when a chain of states, each related to the next by the bits of one layer, leads to it from the plain block: load, stir, 84 rounds of permute, substitute, permute, mix and key, store |
| OdoChain.LastRoundKey | src/blockmaker/odocrypt.cpp:115-122 | two keys that differ in the last round key alone give cipher blocks that differ exactly in bit 0 of the words whose bits of the two round keys differ |
| OdoBits.UnpackedBit | src/blockmaker/odocrypt.cpp:158-168 | bit 8j + b of word i is bit b of byte 8i + j |
| OdoBits.PackedBit | src/blockmaker/odocrypt.cpp:170-180 | bit b of byte 8i + j is bit 8j + b of word i |
| OdoBits.PreMixedBit | src/blockmaker/odocrypt.cpp:182-190 | bit b of every word is flipped exactly when bits b and b + 32 of all words together hold an odd number of ones |
| OdoBits.MaskedSwapsBit | src/blockmaker/odocrypt.cpp:218-229 | a bit comes from the other word of its pair exactly where the mask is set |
| OdoBits.PboxStepBit | src/blockmaker/odocrypt.cpp:258-269 | one subround sends the bit that the mask chooses to word 3i modulo ten, in an even word turned up by the rotation of its pair |
| OdoBits.SboxesBit | src/blockmaker/odocrypt.cpp:192-216 | box 4i + j replaces bits 16j to 16j + 5 of word i and large box i the ten bits above, entries and indices least significant bit first |
| OdoBits.LinearBit | src/blockmaker/odocrypt.cpp:286-296 | bit b of word i is that of the next word plus the parity of the bits that the rotations bring there |
| OdoBits.RoundKeyBit | src/blockmaker/odocrypt.cpp:298-302 | a round key flips bit 0 of the words that its own bits name and nothing else |
| OdoSchedule.DrawIsOutput | src/blockmaker/odocrypt.cpp:10-31 | draw n is the upper half of output 1 + ... + (n + 1) of the linear congruential generator with the multiplier and addend written out |
| OdoSchedule.ShuffleFollowsRun | src/blockmaker/odocrypt.cpp:44-51 | the shuffle is the end of any run whose step n exchanges place n with the place at or below it that the scaled draw names |
| OdoSchedule.BoxesAreShuffles | src/blockmaker/odocrypt.cpp:62-70 | forty shuffles of 64 with 63 draws each come first, then ten of 1024 with 1023 draws each |
| OdoSchedule.MaskBitIsDrawn | src/blockmaker/odocrypt.cpp:73-78 | which bit of which draw every mask bit is, the upper half of a mask word drawn first |
| OdoSchedule.TurnsAreDrawn | src/blockmaker/odocrypt.cpp:79-81 | which draw every rotation of both P-boxes is scaled from, into 1..63 |
| OdoSchedule.RotationsAreChosen | src/blockmaker/odocrypt.cpp:84-103 | the first five entries of the table and the first later one that makes the sum odd, each plus one |
| OdoSchedule.RoundKeysAreDrawn | src/blockmaker/odocrypt.cpp:105-107 | the last 84 draws give ten bits each |
| AlphaTable.AlphaStep | src/blockmaker/simd.cpp:60-86 | each table entry is 41 times the one before, modulo 257 |
| SimdSpectrum.AlphaIsRoot | src/blockmaker/simd.cpp:60-86 | table entry v is 41 to the v, modulo 257 |
| SimdSpectrum.RootHalfTurn | src/blockmaker/simd.cpp:102-134 | 128 further powers of 41 change the sign |
| SimdSpectrum.Split | src/blockmaker/simd.cpp:147-281 | the direct transform is the sum of the transforms of the even and odd places, the odd one twisted |
| SimdSpectrum.DirectPeriod | src/blockmaker/simd.cpp:147-281 | the half-size transforms repeat after half the outputs |
| SimdSpectrum.Butterfly | src/blockmaker/simd.cpp:102-134 | sum and difference of the two half-size outputs, the odd one times the twiddle factor, are outputs i and i + h of the whole |
| SimdFft.FftLoop | src/blockmaker/simd.cpp:96-134 | merges two transforms into one of twice the size, doubling the range, without overflow of a 32-bit word |
| SimdFft.LoopBoundExact | src/blockmaker/simd.cpp:96-101 | the product in the loop fits a signed 32-bit word for all inputs within N if and only if N <= 8388607; the comment allows one more |
| SimdFft.Reds1 | src/blockmaker/simd.cpp:88-93 | congruent to its argument modulo 257, and within -383..383 for arguments from -32768 to 98302 |
| SimdFft.Reds2 | src/blockmaker/simd.cpp:88-94 | congruent to its argument modulo 257, and within -32768..98302 for every 32-bit argument |
| SimdFft.Fft8 | src/blockmaker/simd.cpp:136-168 | the eight values are the transform of four inputs with root 4, each within its commented range |
| SimdFft.Fft16 | src/blockmaker/simd.cpp:170-197 | the sixteen entries hold the transform of eight inputs with root 2, within -591471..591723 |
| SimdFft.Fft32 | src/blockmaker/simd.cpp:199-206 | 32 outputs of the transform, at most 1183446 in size |
| SimdFft.Fft64 | src/blockmaker/simd.cpp:208-215 | 64 outputs of the transform, at most 2366892 in size |
| SimdFft.Fft128 | src/blockmaker/simd.cpp:273-281 | 128 outputs of the transform, at most 4733784 in size |
| SimdFft.Fft256 | src/blockmaker/simd.cpp:259-281 | for every 128-byte block, entry i is congruent modulo 257 to the sum of x[j] * 41^(i * j), and at most 9467568 in size |
| SimdFft.CentredUnique | src/blockmaker/simd.cpp:1389-1410 | there is only one representative in -128..128 |
| SimdFft.TransformBlock | src/blockmaker/simd.cpp:1389-1410 | after the offset loop entry i is the representative in -128..128 of the direct transform plus the offset |
| SimdInverse.PowersCancel | src/blockmaker/simd.cpp:60-86 | over a whole number of turns the powers of 41^e cancel modulo 257 unless all are one |
| SimdInverse.InverseTransform | src/blockmaker/simd.cpp:259-281 | the sum over all 256 outputs times 41^(-i * j) is minus input j modulo 257, and zero for the padding |
| SimdInverse.TransformIsOneToOne | src/blockmaker/simd.cpp:259-281 | two blocks of bytes with congruent outputs are the same block |
| SimdInverse.OutputsDetermineBlock | src/blockmaker/simd.cpp:1389-1410 | the centred outputs, offsets added, belong to one block of bytes only |
| BitPacking.StoredByteIs | src/blockmaker/zec.cpp:85-92 | the shifted and masked word that is stored is one byte of the current group, although older bits remain above it |
| BitPacking.AppendByte | src/blockmaker/zec.cpp:74-75 | after a byte is taken in, the low bits of the 32-bit accumulator are the unread input bits, whatever was shifted out |
| BitPacking.TakeGroup | src/blockmaker/zec.cpp:79-80 | the group above the remaining bits is the next group of the input |
| BitPacking.ExpandArray | src/blockmaker/zec.cpp:57-96 | the output is exactly the big-endian groups of the input, each zero-padded to the output width |
| BitPacking.ExpandInvertsPacking | src/blockmaker/zec.cpp:57-96 | expanding values packed in bit_len bits gives the values back, as big-endian rows |
| BitPacking.BitsOfBytesOf | src/blockmaker/zec.cpp:57-96 | packing bits into bytes loses none |
| Equihash.GetIndicesFromMinimal | src/blockmaker/zec.cpp:210-223 | returns the groups of the encoding as numbers |
| Equihash.RowsOrder | src/blockmaker/zec.cpp:167 | comparing big-endian index rows bytewise is comparing the index lists lexicographically |
| Equihash.BigEndianOrder | src/blockmaker/zec.cpp:51-55 | big-endian bytes order like the numbers |
| EquihashTree.NodeEquivalence | src/blockmaker/zec.cpp:284-294 | given checked children, a collision on one group, ordered and disjoint indices are the birthday condition at the parent |
| EquihashTree.CheckedIsBirthday | src/blockmaker/zec.cpp:282-302 | the checks at all nodes hold exactly when the indices are distinct and form a generalised-birthday tree |
| EquihashTree.XorRangeSplit | src/blockmaker/zec.cpp:152-153 | the exclusive-or of a range is that of its two halves |
| EquihashVerifier.LeafRow | src/blockmaker/zec.cpp:110-113 | a row is the expanded hash followed by the big-endian index |
| EquihashVerifier.HasCollision | src/blockmaker/zec.cpp:225-234 | true exactly when the first l bytes agree |
| EquihashVerifier.DistinctIndices | src/blockmaker/zec.cpp:178-189 | true exactly when no index of one row is an index of the other |
| EquihashVerifier.IsZero | src/blockmaker/zec.cpp:119-126 | true exactly when the first len bytes are zero |
| EquihashVerifier.MergeRows | src/blockmaker/zec.cpp:149-161 | the xored hashes without the collision group, then the indices of the earlier row, then those of the later |
| EquihashVerifier.RowFits | src/blockmaker/zec.cpp:245-246 | hash and indices stay inside the row width in every round |
| EquihashVerifier.ChecksAre | src/blockmaker/zec.cpp:285-293 | the three checks on two neighbouring rows are the checks of their parent node |
| EquihashVerifier.MergedRow | src/blockmaker/zec.cpp:294 | merging the rows of a node that passes gives the row of the node |
| EquihashVerifier.MergePair | src/blockmaker/zec.cpp:284-295 | a failed check means the solution is invalid; otherwise the merged row is the checked row of the parent |
| EquihashVerifier.Round | src/blockmaker/zec.cpp:283-298 | one pass halves the rows, each belonging to its checked node, or finds the solution invalid |
| EquihashVerifier.IsValidSolution | src/blockmaker/zec.cpp:267-303 | accepts exactly when the width is right, all decoded indices are distinct, every node is zero on its collision groups with its left subtree first, and the total is zero |
| EquihashVerifier.SlotsInOrder | src/blockmaker/zec.cpp:271-278 | generated hash g holds the leaf hashes g * per to g * per + per - 1 side by side from its start, per being the largest number of n-bit hashes in 512 bits |
| EquihashVerifier.SlotsTile | src/blockmaker/zec.cpp:271-278 | every byte of a generated hash belongs to exactly one leaf hash |
| EquihashVerifier.ZcashSizes | src/blockmaker/zec.cpp:240-249 | for N = 200 and K = 9: two hashes of 25 bytes from 50, rows of 30 bytes of hash, solutions of 1344 bytes |
| EquihashBits.IndexBit | src/blockmaker/zec.cpp:210-223 | bit k of index m is the bit k places before the end of group m of the encoding, strings read most significant bit first |
| EquihashBits.ExpandedDigit | src/blockmaker/zec.cpp:57-93 | every group of bits is written as a big-endian number of the padded width |
| EquihashBits.BigEndianDigit | src/blockmaker/zec.cpp:51-55 | byte x of w has weight 256^(w - 1 - x) |
| EquihashBits.XorByteBit | src/blockmaker/zec.cpp:152-153 | the xor of two bytes, bit by bit |
| Scrypt.ScalarDoubleRound | src/blockmaker/scrypt.c:149-168 | the 32 steps are a column round followed by a row round of RFC 7914 |
| Scrypt.XorSalsa8 | src/blockmaker/scrypt.c:127-186 | the target block becomes Salsa20/8 of the exclusive-or of both blocks; the other is untouched |
| Scrypt.ScalarBlockMix | src/blockmaker/scrypt.c:263-264 | the two calls are scryptBlockMix |
| Scrypt.ScalarFill | src/blockmaker/scrypt.c:261-265 | entry i of the scratchpad holds the i-th state |
| Scrypt.ScalarMix | src/blockmaker/scrypt.c:266-272 | the data-dependent reads give scryptROMix |
| Scrypt.ScryptGeneric | src/blockmaker/scrypt.c:247-278 | computes scrypt with N = 1024 and r = p = 1, whatever the scratchpad held |
| ScryptSse.TwoShiftsRotate | src/blockmaker/scrypt.c:202-213 | xoring both shifted halves in turn xors the rotated word |
| ScryptSse.StepLanes | src/blockmaker/scrypt.c:202-204 | five vector instructions are one quarter-round step in every lane |
| ScryptSse.ShufflesTurn | src/blockmaker/scrypt.c:216-218 | the three shuffle constants rotate the lanes by one, two and three places |
| ScryptSse.ColumnHalf | src/blockmaker/scrypt.c:202-213 | the first half of the loop body is a column round of the block held along its diagonals |
| ScryptSse.RowHalf | src/blockmaker/scrypt.c:216-237 | the second half is a row round, and the diagonals are restored |
| ScryptSse.XorSalsa8 | src/blockmaker/scrypt.c:189-244 | on the diagonal layout the vector code computes what the scalar code computes |
| ScryptSse.LoadedPair | src/blockmaker/scrypt.c:295-299 | words loaded at i * 5 modulo 16 are the block along its diagonals |
| ScryptSse.SseFill | src/blockmaker/scrypt.c:301-306 | every scratchpad entry keeps the diagonal layout |
| ScryptSse.SseMix | src/blockmaker/scrypt.c:307-313 | lane word 16 is the word the standard reads the index from, so the same entries are read |
| ScryptSse.Unload | src/blockmaker/scrypt.c:315-319 | storing at i * 5 modulo 16 gives the words of the block in order |
| ScryptSse.ScryptSse2 | src/blockmaker/scrypt.c:281-322 | the SSE2 form computes scrypt with N = 1024 and r = p = 1 |
| ScryptSse.BothAgree | src/blockmaker/scrypt.c:247-322 | both forms return the same bytes for every input |
| Integerify.LowBitsIsRemainder | src/blockmaker/scrypt.c:267 | masking a word with 1023 is its remainder modulo N |
| Integerify.ReadIndexIsIntegerify | src/blockmaker/scrypt.c:267 | the entry read is the one at the little-endian integer of the last 64 bytes modulo N, Integerify of RFC 7914 section 5 |
| Integerify.RoMixEndsTheRun | src/blockmaker/scrypt.c:261-272 | 1024 written states and 1024 data-dependent reads, indexed by that integer, end in the ROMix function |
| SalsaExample.BlockMixExample | src/blockmaker/scrypt.c:127-186 | the pair of blocks of RFC 7914 section 9 is mixed to the published words |
| ChainMap.PathSizeIsCeilLog2 | src/blockmaker/doge.cpp:7-10 | up to 2^31 chains the path size is the binary logarithm, rounded up |
| ChainMap.LcgCollision | src/blockmaker/doge.cpp:15-17 | one generator step neither joins nor splits residues modulo a power of two up to 128 |
| ChainMap.IndexCollision | src/blockmaker/doge.cpp:12-20 | two chains get the same slot exactly when their ids agree modulo the width, for every nonce |
| ChainMap.DistinctUpward | src/blockmaker/doge.cpp:30-55 | ids distinct at one height are distinct at every greater one |
| ChainMap.DistinctAreFew | src/blockmaker/doge.cpp:36-47 | distinct ids are at most as many as the tree has slots |
| ChainMap.HeightExists | src/blockmaker/doge.cpp:30-55 | from any starting height below 8 a fitting one exists exactly when the ids are distinct modulo 128 |
| ChainMap.TryNonce | src/blockmaker/doge.cpp:34-47 | finishes exactly when the ids are distinct at this height, and then every chain has its own expected slot |
| ChainMap.BuildChainMap | src/blockmaker/doge.cpp:24-58 | non-empty exactly when there are chains and either no height is tried or the ids are distinct modulo 128; on success the nonce is 0, the height is the least fitting one, and the slots are distinct, in range and the expected ones |
| ChainMap.AnswerBySize | src/blockmaker/doge.cpp:24-58 | for 1 to 128 chains a map is found if and only if the ids are distinct modulo 128; from 129 to 2^31 the answer is a list of zeros although the chains share a slot |
| ChainMap.IndexClosedForm | src/blockmaker/doge.cpp:12-20 | for every width up to 2^32 the slot is ((nonce * a + c + id) * a + c) modulo the width with a = 1103515245 and c = 12345, without the wraps |
| ChainMap.NextChainId | src/blockmaker/doge.cpp:12-20 | the next chain id moves the slot by 1103515245 modulo the width |
| ChainMap.NextNonce | src/blockmaker/doge.cpp:12-20 | the next nonce moves every slot by the square of 1103515245 modulo the width |
| ChainMap.SlotsInClosedForm | src/blockmaker/doge.cpp:38-45 | an allocated slot is the closed form of the upper half of the version |
| ArrayLayout.CountMeans | src/idltool/codegen.cpp:2277-2310 | the printed elements are the mandatory fields and the trailing ones up to the last significant one before the first barrier |
| ArrayLayout.NoDeniedNull | src/idltool/codegen.cpp:2277-2310 | no null is printed for a field that denies it |
| ArrayLayout.TruncationIsStable | src/idltool/codegen.cpp:2277-2310 | the truncated value prints the same elements again |
| ArrayLayoutPrinter.GeneratePrinter | src/idltool/codegen.cpp:2230-2341 | the lines appended one by one are the printing program of the schema |
| ArrayLayoutPrinter.RunMarks | src/idltool/codegen.cpp:2280-2310 | the marking code, with or without its one-pass loop, leaves the number of elements to print |
| ArrayLayoutPrinter.PrinterPrints | src/idltool/codegen.cpp:2258-2341 | running the program prints brackets, the counted elements in order and one comma between neighbours |
| ArrayLayoutPrinter.Print | src/idltool/codegen.cpp:2258-2341 | generating and running prints a value that fits the schema in that form |
| ArrayLayoutParser.GenerateParser | src/idltool/codegen.cpp:1322-1442 | the appended lines are the parsing program, and as many blocks are closed as were opened |
| ArrayLayoutParser.SkipTrailing | src/idltool/codegen.cpp:1388-1431 | from anywhere in the trailing code, leaving a block lands on the closing braces |
| ArrayLayoutParser.ParserReads | src/idltool/codegen.cpp:1322-1442 | printed tokens are accepted with nothing left over, giving the value truncated at its first barrier, exactly when every field whose presence is required was printed |
| ArrayLayoutParser.RoundTripIsExact | src/idltool/codegen.cpp:1322-2341 | the generated parser gives the printed value back if and only if nothing from the first absent null-denying field on differs from what a field holds before reading, and every field whose presence is required is printed |
| ArrayLayoutParser.LosesAfterBarrier | src/idltool/codegen.cpp:2277-2310 | a schema and value whose printed form is accepted but comes back with the last field lost |
| ArrayLayoutParser.RefusedWithoutPresence | src/idltool/codegen.cpp:1436-1442 | a schema and value whose printed form the parser refuses, because a field whose presence is required was not printed |
| ArrayLayoutParser.AlwaysAccepted | src/idltool/codegen.cpp:1322-1442 | without such fields whatever is printed is accepted |
| ArrayLayoutParser.RoundTrip | src/idltool/codegen.cpp:1322-2341 | both generated programs, run one after the other, on every schema and value: the exact outcome, and when it is the value itself |
| ArrayLayoutParser.FindRequired | src/idltool/codegen.cpp:2394-2408 | the required fields are the mandatory ones and those whose presence is required |
| PresenceMask.MakeMask | src/idltool/codegen.cpp:1436-1442 | the mask in the emitted code is defined exactly for up to 63 required fields, and then the comparison with it tests that all of them were found |
| MemberCommas.Generate | src/idltool/codegen.cpp:1988-2015 | the loop emits the program that the two generation-time flags determine |
| MemberCommas.RunMember | src/idltool/codegen.cpp:2003-2015 | one member keeps the agreement between the flags and what was printed |
| MemberCommas.Print | src/idltool/codegen.cpp:1983-2154 | for every list of fields and every value, the generated code prints the fields that have something to print in order, with exactly one comma between neighbours and none elsewhere |
| MemberCommas.GuardIsMarked | src/idltool/codegen.cpp:118-123 | whatever the emitters test at run time counts as conditional, except exactly an inline field whose default reads the clock, a capture that the analysis never chooses |
| MemberCommas.RightExactly | src/idltool/codegen.cpp:1988-2015 | for every list of raw members the commas are right for all presences if and only if no unmarked tested member, reached with nothing printed and no run-time flag, has a printed member after it |
| MemberCommas.ExposedBreaks | src/idltool/codegen.cpp:1998-2015 | where there is such a member, every value that leaves it out and prints a later one starts with a comma |
| MemberCommas.NoFieldIsExposed | src/idltool/codegen.cpp:1826-1979 | the emitters never produce such a member, for any list of fields |
| StructOrder.TopologicalSort | src/idltool/ast.cpp:553-607 | succeeds exactly when no struct depends on itself through others, and then lists each struct once, after all its dependencies |
| StructOrder.BuildReverse | src/idltool/ast.cpp:568-572 | the list of every struct holds exactly its dependents, each once |
| StructOrder.Step | src/idltool/ast.cpp:580-588 | taking one struct from the queue keeps every degree equal to the number of unlisted dependencies |
| StructOrder.OrderedHasNoCycle | src/idltool/ast.cpp:590-593 | an order with dependencies first rules out a cycle |
| StructOrder.StuckHasCycle | src/idltool/ast.cpp:590-593 | structs that all wait for one another contain a cycle |
| StructContext.BuildGraph | src/idltool/ast.cpp:529-551 | the dependencies of a struct are its references and those of its variants |
| StructContext.DependsThroughField | src/idltool/ast.cpp:529-551 | a struct depends on another exactly when a field refers to it or lists it among its variants |
| StructContext.OrderStructs | src/idltool/ast.cpp:506-608 | ordering succeeds exactly when the reference graph of the file has no cycle |
| StructContext.NeedsByField | src/idltool/ast.cpp:632-645 | a derived field is reachable from a struct exactly when one of its fields is derived or refers to such a struct |
| StructContext.FieldsNeeding | src/idltool/ast.cpp:630-645 | with the summaries of earlier structs each field gets its exact answer |
| StructContext.CheckGroups | src/idltool/ast.cpp:647-683 | accepts exactly when verbose parsing is not asked for in vain, every listed field exists, needs context and is listed once, and groups imply context |
| StructContext.ValidateContextGroups | src/idltool/ast.cpp:614-689 | one pass accepts exactly the files whose structs all satisfy this, and marks a struct exactly when a derived field is reachable from it through plain references |
| StructAnalysis.AssignGroups | src/idltool/codegen.cpp:159-169 | a declared group holds the names it lists, every listed name has a group, any other group holds one field, and every field that needs context has a group |
| StructAnalysis.MergeNeed | src/idltool/codegen.cpp:180-200 | adds what a field asks for to its group, keeping one use a slot with its scalar and vector flags |
| StructAnalysis.SlotWasAsked | src/idltool/codegen.cpp:202-241 | nothing is asked of a group but by a field of that group |
| StructAnalysis.AsksAre | src/idltool/codegen.cpp:202-241 | a field asks exactly for one value of its derived type, or for every parameter of the struct it refers to, as a vector when that is one or the field is an array |
| ParameterNames.NameDetermines | src/idltool/codegen.cpp:125-130 | a parameter name belongs to one type, and to one number where a struct takes several parameters of the type |
| ParameterNames.NameForm | src/idltool/codegen.cpp:125-130 | the type, Ctx, and where there are several the number in decimal, counted from 1 |
| StructAnalysis.NamesDiffer | src/idltool/codegen.cpp:249-261 | different uses have different parameters with different names |
| StructAnalysis.NumbersHaveNoGaps | src/idltool/codegen.cpp:249-261 | the parameters of one type are numbered from 0 without gaps |
| StructAnalysis.NeedsAreNumbered | src/idltool/codegen.cpp:249-261 | the number of a parameter is that of the earlier ones of its type, and its name is made from it and their total |
| StructAnalysis.NumberGroups | src/idltool/codegen.cpp:243-261 | one parameter a use, numbered and named, and the record of every group leads to its own parameters |
| StructAnalysis.CaptureFields | src/idltool/codegen.cpp:263-278 | every slot of every field gets the parameter of its group and slot |
| StructAnalysis.VectorMeans | src/idltool/codegen.cpp:254 | a parameter is a vector exactly when no field of its group needs one value for the slot |
| StructAnalysis.AnalyzeContext | src/idltool/codegen.cpp:137-281 | there are parameters exactly when a field asks for one, with different names; each field is handed for each slot it asks for a parameter of that type, as a vector exactly when no field of its group needs one value; two fields are handed the same parameter exactly when they are in one group and ask for the same slot |
| StructAnalysis.AnalyzeAll | src/idltool/codegen.cpp:2777-2782 | over the ordered structs every struct gets an analysis with all these promises, and there are parameters exactly where a derived field is reachable |
| StructAnalysis.Resolve | src/idltool/ast.cpp:691-694 | ordering, validation and analysis accept the same files and agree on every struct, and every struct of an accepted file is analysed with all these promises |
| BlakeSpec.PaddedIsLeast | src/blockmaker/blake.c:866-884 | the padded message is the message extended to the least whole number of blocks that holds two padding bits and the length |
| Blake.CounterMovesOn | src/blockmaker/blake.c:827-828 | adding a block with carry is adding its bits to the two-word counter |
| Blake.RewindIsRight | src/blockmaker/blake.c:857-865 | the rewound counter plus one block is the number of message bits through the last message block, or zero when the block holds only padding |
| Blake.ZeroAgain | src/blockmaker/blake.c:876-877 | the counter set for the padding-only block comes to zero |
| Blake.LengthWords | src/blockmaker/blake.c:855-856 | the two encoded length words are the message length in bits |
| Blake.FoldFollows | src/blockmaker/blake.c:816-832 | every full message block is compressed with the bits through that block |
| Blake.Context.Update | src/blockmaker/blake.c:799-835 | any piece of data moves the context to the state that absorbing it bytewise defines |
| Blake.Context.FinishShort | src/blockmaker/blake.c:866-872 | the last block holds tail bits, zeros, marker and length, and sees the right counter |
| Blake.Context.FinishLong | src/blockmaker/blake.c:873-884 | the message ends in one block and the length stands in a second, which sees a zero counter |
| Blake.Context.Close | src/blockmaker/blake.c:837-888 | the output words are those of the padded message folded with the standard counters |
| Blake.HashPieces | src/blockmaker/blake.c:904-993 | for either word size, every message, bit tail and split into updates the result is that of the whole message |
| BlakeSpec.TailByteBits | src/blockmaker/blake.c:853-854 | bit by bit the tail byte is the first n bits given, then a one, then zeros |
| BlakeSpec.LengthFieldDigit | src/blockmaker/blake.c:855-856 | the length field is the number of bits as a big-endian number |
| Streaming.AbsorbAppend | src/blockmaker/sha256.c:334-368 | splitting data between two updates changes nothing |
| Streaming.AbsorbIsFold | src/blockmaker/sha256.c:393-406 | absorbing is folding the whole blocks and keeping the rest |
| Streaming.FoldWhole | src/blockmaker/sha256.c:393-431 | the whole blocks of a message come first, whatever follows its rest |
| Sha256.SameFunctions | src/blockmaker/sha256.c:17-28 | the left rotations are the standard right rotations |
| Sha256.RoundInPlace | src/blockmaker/sha256.c:30-36 | changing two of eight variables is one round with the variables renamed |
| Sha256.EightRounds | src/blockmaker/sha256.c:60-67 | eight calls with rotated arguments are eight rounds, with every variable back in place |
| Sha256.NextSchedule | src/blockmaker/sha256.c:77-78 | the in-place update turns schedule words t..t+15 into t+16..t+31 |
| Sha256.Transform | src/blockmaker/sha256.c:38-142 | the transform is the standard computation on one block |
| Sha256.TailIsPadding | src/blockmaker/sha256.c:370-388 | both closing branches append the standard padding |
| Sha256.Context.Update | src/blockmaker/sha256.c:334-368 | any piece of data moves the context to the state that absorbing it defines |
| Sha256.Context.Close | src/blockmaker/sha256.c:375-388 | the one or two closing blocks are the rest, the padding and the length |
| Sha256.Context.Final | src/blockmaker/sha256.c:370-391 | returns the digest of everything absorbed |
| Sha256.OneShot | src/blockmaker/sha256.c:393-432 | returns the digest of its argument |
| Sha256.HashPieces | src/blockmaker/sha256.c:327-432 | for every message and every chunking the incremental and the one-shot result are the digest of the whole |
| Sha256Constants.ConstantsAreCubeRoots | src/blockmaker/sha256.c:60-125 | constant t is made of the first 32 bits of the fractional part of the cube root of the t-th prime, FIPS 180-4 section 4.2.2 |
| Sha256Constants.InitialHashIsSquareRoots | src/blockmaker/sha256.c:295-305 | the initial words come from the square roots of the first eight primes, FIPS 180-4 section 5.3.3 |
| Sha256Example.DigestOfAbc | src/blockmaker/sha256.c:38-142 | the digest of the message abc has the words that NIST publishes for FIPS 180-4 |
| Sha256Spec.HashBytesDigit | src/blockmaker/sha256.c:316-325 | the digest bytes are those of the eight words in order, most significant first |
| KeccakSpec.OffsetsAreTheWalk | src/blockmaker/sha3.c:220-245 | the rotation offsets are the triangular numbers along the standard walk over the lanes |
| KeccakSpec.ConstantsAreTheRegister | src/blockmaker/sha3.c:21-30 | the round constants hold the bits of the shift register of FIPS 202, algorithms 5 and 6, in every round |
| KeccakBits.ThetaBit | src/blockmaker/sha3.c:180-218 | every bit gets the parities of column x - 1 and, one place below, of column x + 1, FIPS 202 section 3.2.1 |
| KeccakBits.RhoBit | src/blockmaker/sha3.c:220-245 | lane t of the walk moves up (t + 1)(t + 2) / 2 places, section 3.2.2 |
| KeccakBits.PiBit | src/blockmaker/sha3.c:220-245 | lane (x, y) comes from lane (x + 3y, x), section 3.2.3 |
| KeccakBits.ChiBit | src/blockmaker/sha3.c:247-289 | a bit flips exactly when the next in its row is zero and the one after is one, section 3.2.4 |
| KeccakBits.IotaBit | src/blockmaker/sha3.c:291-292 | the round constant is added to lane (0, 0) only |
| KeccakBits.KeccakFEndsTheChain | src/blockmaker/sha3.c:295-299 | the permuted state string ends a chain of 24 rounds in which every step mapping is an equation between bits of the standard |
| Keccak.ShiftsRotate | src/blockmaker/sha3.c:9-12 | the two shifts are the rotation of a lane |
| Keccak.ThetaInPlace | src/blockmaker/sha3.c:180-218 | the array holds the state after theta |
| Keccak.MovesAreRhoPi | src/blockmaker/sha3.c:220-245 | the chain of 24 moves is rho followed by pi |
| Keccak.RhoPiInPlace | src/blockmaker/sha3.c:220-245 | the array holds the state after rho and pi |
| Keccak.ChiInPlace | src/blockmaker/sha3.c:247-289 | the array holds the state after chi, although two lanes of each row are overwritten early |
| Keccak.RoundInPlace | src/blockmaker/sha3.c:176-293 | one call is one round of KECCAK-f[1600] |
| Keccak.Transform | src/blockmaker/sha3.c:295-299 | 24 calls are the permutation |
| Sha3.MemXor | src/blockmaker/sha3.c:42-55 | eight bytes at a time and then the rest is a bytewise exclusive-or |
| Sha3.XorPieces | src/blockmaker/sha3.c:309-342 | data xored in two pieces is data xored at once |
| Sha3.PaddingByXor | src/blockmaker/sha3.c:348-349 | the two single-byte xors are the domain bits and the padding, also when both fall on one byte |
| Sha3.Context.Update | src/blockmaker/sha3.c:309-342 | the state is the sponge state with the unfinished block xored in |
| Sha3.Context.Final | src/blockmaker/sha3.c:344-352 | returns the first bytes of the sponge after the padded message |
| Sha3.OneShot | src/blockmaker/sha3.c:354-379 | returns the same for its argument |
| Sha3.HashPieces | src/blockmaker/sha3.c:301-379 | for every message and every chunking both forms give the sponge of the padded message |
| KeccakHash.LaneIsLittleEndian | src/blockmaker/sha3.c:295-299 | a lane of the state is eight of its bytes, as the standard maps a state string to lanes |
| KeccakHash.LaneValue | src/blockmaker/sha3.c:295-299 | the number in a lane is the little-endian value of its bytes |
| KeccakHash.Transform | src/blockmaker/sha3.c:295-299 | the 200 bytes of the state are permuted by KECCAK-f[1600] on their bit string |
| KeccakHash.PaddingBits | src/blockmaker/sha3.c:348-349 | the padding bytes are the suffix bits and pad10*1 |
| KeccakHash.DigestIsStandard | src/blockmaker/sha3.c:301-379 | for every message the digest of the sponge with this permutation is the SHA3 or Keccak digest that FIPS 202 defines on bit strings |
| KeccakHash.Hash | src/blockmaker/sha3.c:301-379 | every chunking of a message and the one-shot form compute that digest |
| BtcStream.VarSizeRoundTrip | src/include/blockmaker/serialize.h:62-89 | a variable-size count reads back, whatever follows |
| BtcStream.VarSizeLengthIsRight | src/include/blockmaker/serialize.h:91-102 | the computed length is the number of bytes written |
| BtcStream.LittleEndianDigit | src/include/blockmaker/serialize.h:122 | byte i of a word has weight 256^i |
| BtcStream.VarSizeForm | src/include/blockmaker/serialize.h:62-76 | a count below 253 is one byte; else 253, 254 or 255 and the shortest of 2, 4 or 8 little-endian bytes that holds it |
| BtcStream.VectorRoundTrip | src/include/blockmaker/serialize.h:164-182 | a vector whose elements read back reads back, and its count passes the check against what is left |
| BtcStream.Stream.TakeByteVector | src/include/blockmaker/serialize.h:233-251 | reading a byte vector from the stream is parsing it, and running short marks the stream |
| BtcTransaction.WriteTransaction | src/blockmaker/btc.cpp:74-93 | appends the legacy or the witness form |
| BtcTransaction.TakeTransaction | src/blockmaker/btc.cpp:95-128 | reading from the stream is parsing: same value and rest, or the failure mark |
| BtcTransaction.InReadsBack | src/blockmaker/btc.cpp:37-51 | an input reads back without its witness |
| BtcTransaction.OutReadsBack | src/blockmaker/btc.cpp:62-72 | an output reads back |
| BtcTransaction.LegacyRoundTrip | src/blockmaker/btc.cpp:74-128 | a transaction with inputs reads back from the legacy form without its witness |
| BtcTransaction.WitnessRoundTrip | src/blockmaker/btc.cpp:74-128 | a transaction with a witness reads back whole from the witness form |
| BtcTransaction.NoInputs | src/blockmaker/btc.cpp:97-108 | without inputs a transaction reads back only if it has no outputs: its output count is taken for the flags |
| BtcTransaction.RoundTrip | src/blockmaker/btc.cpp:74-128 | reading undoes writing, whatever follows, if and only if there is an input or no output |
| BtcWire.WireEnds | src/blockmaker/btc.cpp:74-93 | bytes 0 to 3 are the version and the last four the lock time, least significant first |
| BtcWire.WireMiddle | src/blockmaker/btc.cpp:74-93 | between them stand the marker and flag exactly when a witness is written, the counted inputs, the counted outputs and the witness stacks |
| BtcWire.InForm | src/blockmaker/btc.cpp:37-43 | an input is its hash, its index, the counted script and the sequence number |
| BtcWire.OutForm | src/blockmaker/btc.cpp:62-66 | an output is its value and the counted script |
| BtcWire.ListInOrder | src/include/blockmaker/serialize.h:164-171 | the elements of a vector are written in their order |
| BtcCoinbase.OffsetIsBefore | src/blockmaker/btc.cpp:53-60 | the offset functions count exactly the bytes before the first scriptSig |
| BtcCoinbase.OverwriteSerializes | src/blockmaker/btc.cpp:182-196 | below 253 bytes of scriptSig, overwriting the extra nonce in either form is serialising with the new extra nonce |
| BtcCoinbase.OverwriteWorksBelow253 | src/blockmaker/btc.cpp:387-390 | overwriting is right for every extra nonce if and only if the scriptSig is below 253 bytes |
| BtcCoinbase.OverwriteMisses | src/blockmaker/btc.cpp:387-390 | from 253 bytes on, an extra nonce that differs in its last byte only is written to the wrong place |
| BtcCoinbase.Build | src/blockmaker/btc.cpp:345-437 | both forms and all four offsets of the coinbase transaction |
| BtcCoinbase.WriteExtraNonce | src/blockmaker/btc.cpp:500-517 | refuses a submitted part of the wrong size, otherwise overwrites exactly the extra nonce |
| BtcCoinbase.BuildAndPrepare | src/blockmaker/btc.cpp:345-517 | building and then writing gives the serialisations of the coinbase transaction with that extra nonce |
| BtcCoinbase.SkeletonIsCoinbase | src/blockmaker/btc.cpp:353-374 | one input, the null outpoint with index 2^32 - 1, no lock time, and with segregated witness version 2 and one reserved value of 32 zero bytes |
| BtcCoinbase.CoinbaseOnWire | src/blockmaker/btc.cpp:361-366 | whatever the script, the input is written as 32 zero bytes, four bytes 255, the script and four bytes 255 |
| PrimeChain.NextFirst | src/blockmaker/xpm.cpp:317-319 | doubling, adding one and reducing is the remainder of the next member of the first kind |
| PrimeChain.NextSecond | src/blockmaker/xpm.cpp:342-344 | doubling, subtracting one and reducing is the remainder of the next member of the second kind |
| PrimeChain.TestFirst | src/blockmaker/xpm.cpp:304-320 | true exactly when the prime divides one of the tested members 2^k * origin - 1; the remainder stays in 0..prime-1 |
| PrimeChain.TestSecond | src/blockmaker/xpm.cpp:329-345 | true exactly when the prime divides one of the tested members 2^k * origin + 1; the remainder stays in 0..prime-1 |
| Reciprocals.MultiplyShift | src/include/blockmaker/divisionChecker.h:78-92 | multiplying by the reciprocal and shifting is division, for every dividend of the width it was searched for |
| Reciprocals.FindMultiplier | src/include/blockmaker/divisionChecker.h:68-94 | finds the least exponent that is enough, and its multiplier cut to 64 bits |
| Reciprocals.FirstSearch | src/include/blockmaker/divisionChecker.h:40-43 | the search for 63 bits ends at an exponent of at least 63, and at 63 only where the divisor divides 2^63 + 1 |
| Reciprocals.SecondSearch | src/include/blockmaker/divisionChecker.h:40-43 | the search for 64 bits ends at an exponent of at least 64 in that case, so that the shift is not negative |
| Reciprocals.ReciprocalFits | src/include/blockmaker/divisionChecker.h:40-43 | the multiplier that is used fits 64 bits |
| Reciprocals.FindReciprocal | src/include/blockmaker/divisionChecker.h:37-43 | multiplier and shift of every prime divide every number below 2^63 |
| DivisionChecker.Sieve | src/include/blockmaker/divisionChecker.h:20-35 | the table holds the first primes in order, all below the limit or as many as fit |
| DivisionChecker.FoldedFits | src/include/blockmaker/divisionChecker.h:59-61 | the folded sum of the limbs stays below 2^63 for every allowed number of limbs and keeps the remainder |
| DivisionChecker.Checker.constructor | src/include/blockmaker/divisionChecker.h:8-52 | the table is filled for every prime the sieve found |
| DivisionChecker.Checker.Mod32 | src/include/blockmaker/divisionChecker.h:56-65 | the remainder of the whole number for every allowed number of limbs |
| DivisionChecker.LimbIsDigit | src/include/blockmaker/divisionChecker.h:56-65 | limb i of a number has weight 2^(32 i) |
| PrimeChain.SmallestDivisor | src/blockmaker/xpm.cpp:286-401 | the least index in the range whose prime divides a tested member of the chain, or -1 as an unsigned word if there is none, with remainders computed from the limbs of the origin |
| PrimeChain.LeastOfAll | src/blockmaker/xpm.cpp:713-720 | searched from the start of the table, the prime found is the smallest of all primes that divide a tested member |
| PrimeChain.HitsAreMembers | src/blockmaker/xpm.cpp:286-401 | a prime is a hit exactly when it divides one of the first members of the chain; a bi-twin chain alternates 2^k * origin - 1 and 2^k * origin + 1 |
| PrimeChain.MembersDouble | src/blockmaker/xpm.cpp:317-344 | each member of a chain is twice the one before, plus or minus one, and the two kinds differ by two |
| Ethash.NoSmallDivisor | src/blockmaker/ethash.c:40-52 | an odd number without an odd divisor up to its root is prime |
| Ethash.IsOddPrime | src/blockmaker/ethash.c:40-52 | true exactly for the primes among the odd numbers from 3 on |
| Ethash.FindLargestPrime | src/blockmaker/ethash.c:54-73 | terminates with the largest prime not above the bound, or 0 below 2 |
| Ethash.CreateDagSizes | src/blockmaker/ethash.c:219-225 | the numbers of items are the largest primes not above their bounds, and the signed 32-bit arithmetic leaves its range exactly above epoch 16256 |
| Ethash.LightBytesFit | src/blockmaker/ethash.c:75-102 | the byte size of the light cache fits exactly up to epoch 16256 |
| Ethash.BoundsAre | src/blockmaker/ethash.c:75-97 | the bound of the full dataset fits exactly up to epoch 32639, that of the light cache for every epoch |
| Ethash.BoundsGrow | src/blockmaker/ethash.c:75-97 | 16 MiB and 128 KiB an epoch of 64-byte items, 1 GiB and 8 MiB an epoch of 128-byte items |
| PrimeCertificate.CertifiedPrime | src/blockmaker/ethash.c:40-73 | a number with an element of prime order above its root, different from 1 modulo every divisor, is prime; with it the least epoch that overflows is shown to |
| Ethash.EpochCache.GetEpochNumber | src/blockmaker/ethash.c:196-217 | the least epoch below 65536 with this seed, or -1; the cache keeps holding a right answer |
| Ethash.OneAnswer | src/blockmaker/ethash.c:196-217 | only one answer is right, so a cached answer is the recomputed one |
| Ethash.AnswerAll | src/blockmaker/ethash.c:196-217 | over any sequence of calls every answer is the one computed afresh |

## Left out

- PBKDF2 and HMAC in scrypt are two arbitrary functions; what is proved holds for any.
- The Equihash hash generator (BLAKE2b) is an arbitrary function of the right output length; K is at least 3, so that a solution is a whole number of bytes, as for every parameter set in use.
- The compression function of BLAKE is arbitrary.
- Lanes are read and stored little-endian, as on the machines the source is built for; a big-endian machine is not modelled.
- `sha256TransformShaNI` and the other hash compressions (bmw, cubehash, echo, groestl, jh, luffa, shavite, skein, the AES tables): instruction semantics and constant tables.
- The one-shot `sha256` and `sha3` count their blocks in a 32-bit word; messages of 2^32 blocks or more are not modelled.
- KeccakHash.DigestIsStandard: covers digests up to the rate, because the source copies a longer one from the state and never squeezes again.
- The rest of SIMD's compression after the transform, and the offset tables, which are any tables of 16-bit numbers here.
- `sha3llRound800`: its shift counts reach the word size, which C leaves undefined.
- The small-footprint variants of the transform, which are switched off by default.
- ArrayLayoutParser.RoundTrip: does not model how a single value is written and read, because one value is one token here; run-time defaults and contexts are not modelled. The required fields found are a set; PresenceMask.MakeMask says when the word in the emitted code is that set.
- MemberCommas.Print: does not model how a key and its value are written, because they are one token here.
- StructOrder.TopologicalSort: does not model imported structs and mixins, which are placed before the sorted ones.
- BtcCoinbase.Build: does not model the height push, the outputs' scripts and the reward rules; they are parameters.
- ZEC, LTC, DASH and DGB transaction and header formats, block templates, JSON notifications and share checks: long field lists or I/O.
- PrimeChain.SmallestDivisor: takes the limbs of the origin from GMP as a parameter, at least one and no more than the table is made for; for an origin of zero the source reads a limb that was never written.
- DivisionChecker.Checker.constructor: takes the sieve's limit, which the source computes with floating-point logarithms, as a parameter, and uses the table only as far as the sieve filled it.
- Prime-chain length and share work: rest on GMP and floating point.
- The contents of the Ethash light cache and dataset.

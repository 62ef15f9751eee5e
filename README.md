# Toy McEliece over GF(2): a verified Dafny model

This project models a small McEliece cryptosystem over GF(2) and proves properties of the model. The system has two variants:

- **Hamming variant.** The secret code is L copies of the (15, 11) Hamming code side by side. The public key is `G_pub = S·G_total·P`, with error budget t = L.
  - Encryption in "controlled" mode puts one error in each 15-bit block and then permutes.
  - Encryption in "public" mode adds t errors at distinct positions to `msg·G_pub`.
  - Decryption undoes P, decodes each 15-bit block by its syndrome, concatenates the blocks and undoes S.
- **BCH variant.** The component code is the (15, 7) BCH code, whose generator and decoder come from a finite-field library. The error budget is t = 2L.

The model has these parts:

- **GF(2) layer** (`gf2.dfy`, `gauss_jordan.dfy`): bit vectors, matrices, the mod-2 product, and inversion by Gauss-Jordan elimination. These stand in for the numpy `@` and `np.linalg.inv` on GF(2) arrays.
- **Hamming code** (`hamming_code.dfy`): the class `HammingCode`. Its constructor fills H and G with loops, and its `Decode` is a method. Lemmas prove:
  - H·Gᵀ = 0;
  - the code is systematic;
  - every single error is corrected.
- **Shared helpers** (`utils.dfy`, `bits.dfy`):
  - permutation matrices;
  - the search for an invertible S;
  - the 8-bits-per-character text codec and its round trip.
- **Generic McEliece structure** (`mceliece.dfy`):
  - the block-diagonal generator and the loop that builds it;
  - error vectors;
  - block-wise decryption;
  - the theorem that decryption undoes encryption whenever each block has no more errors than the block decoder corrects.
- **Hamming variant**: `hamming_keygen.dfy`, `hamming_encrypt.dfy`, `hamming_decrypt.dfy`.
- **BCH variant**: `bch_code.dfy`, `bch_keygen.dfy`, `bch_decrypt.dfy`.

Random draws become inputs:

- the permutation vector behind P;
- the list of candidate matrices tried for S;
- the error positions.

In key generation, encryption and decryption, each numpy or Python exception becomes an `Err` value of a `Result`:

- a shape mismatch in a product;
- an error index past the end;
- sampling more positions than exist;
- a singular matrix;
- concatenating an empty list.

## Model

| member | source | states |
|---|---|---|
| GaussJordan.Invert | code/hamming_mceliece/decrypt.py:25 | `np.linalg.inv`: gives a two-sided inverse when one exists, and None exactly when the matrix is not square or is singular |
| GF2.InverseUnique | code/hamming_mceliece/decrypt.py:25 | a GF(2) inverse is unique, so whatever inversion returns is the inverse |
| GF2.VecMatInverse | code/hamming_mceliece/decrypt.py:50-53 | unscrambling alone: (m·S)·S⁻¹ = m for an inverse pair |
| GF2.VecMatAssoc | code/hamming_mceliece/keygen.py:49 | (v·A)·B = v·(A·B), which makes msg·S·G_total·P equal to msg·G_pub |
| Bits.MsbValueOfBits | code/utils.py:65-90 | reading x's k bits MSB first by shift-and-add gives back x when x < 2^k |
| Hamming.ParityCheckColumn | code/hamming_mceliece/hamming_code.py:25-28 | column i of H is the 4-bit little-endian binary form of i+1 |
| Hamming.ParityCheckColumnsDistinct | code/hamming_mceliece/hamming_code.py:25-28 | the columns of H are non-zero and pairwise distinct |
| Hamming.PositionsPartition | code/hamming_mceliece/hamming_code.py:40-63 | parity slots {0,1,3,7} and the data slots are disjoint and cover 0..14; data slots increase; parity slot b is 2^b - 1 |
| Hamming.GeneratorEntries | code/hamming_mceliece/hamming_code.py:58-80 | row m of G has a 1 at its data slot, a 1 at parity slot b exactly when bit b of (data slot + 1) is set, and 0 elsewhere |
| Hamming.ParityCheckTimesGeneratorTransposed | code/hamming_mceliece/hamming_code.py:25-83 | H·Gᵀ is the 4 x 11 zero matrix |
| Hamming.CodewordSyndrome | code/hamming_mceliece/hamming_code.py:96-116 | every codeword msg·G has zero syndrome |
| Hamming.ExtractEncoded | code/hamming_mceliece/hamming_code.py:130-133 | the data slots of msg·G carry msg verbatim |
| Hamming.DecodeEncoded | code/hamming_mceliece/hamming_code.py:101-135 | an error-free codeword is left unchanged and decodes to its message |
| Hamming.SingleErrorSyndrome | code/hamming_mceliece/hamming_code.py:116-123 | flipping slot p of a codeword gives a non-zero syndrome whose value is p+1 |
| Hamming.CorrectsSingleError | code/hamming_mceliece/hamming_code.py:116-135 | any single flipped bit is repaired and the message comes back |
| Hamming.CorrectsUpToOneError | code/hamming_mceliece/hamming_code.py:101-135 | a codeword with at most one error decodes to its message |
| Hamming.CorrectionIsLocal | code/hamming_mceliece/hamming_code.py:119-128 | decoding changes at most one bit: none when the syndrome is zero; otherwise exactly the bit at syndrome value - 1, and that value always lies in 1..15 |
| Hamming.BuildParityCheck | code/hamming_mceliece/hamming_code.py:25-28 | the nested loop `H[j, i] = ((i + 1) >> j) & 1` produces H |
| Hamming.GeneratorRowFor | code/hamming_mceliece/hamming_code.py:66-80 | one loop pass sets the data bit and the parity bits chosen by the binary form of pos+1 |
| Hamming.BuildGenerator | code/hamming_mceliece/hamming_code.py:58-80 | the loop over the 11 message bits produces G |
| Hamming.HammingCode.constructor | code/hamming_mceliece/hamming_code.py:14-84 | n = 15, k = 11, t = 1, r = 4, with H, G and the data slots as above |
| Hamming.HammingCode.Encode | code/hamming_mceliece/hamming_code.py:86-99 | `msg @ G` has 15 bits, zero syndrome, and msg in its data slots |
| Hamming.HammingCode.Decode | code/hamming_mceliece/hamming_code.py:101-135 | the syndrome loop, the guarded flip and the extraction loop compute Decoded (which the lemmas above characterise) |
| Utils.PermutationMatrixRows | code/utils.py:46-50 | row i of `identity[perm]` is identity row perm[i]: a single 1, at column perm[i] |
| Utils.PermutationMatrixColumns | code/utils.py:46-50 | every column of a permutation matrix holds exactly one 1 |
| Utils.PermutationMatrixInverse | code/utils.py:46-50 | the transpose of a permutation matrix is its inverse, so P is invertible |
| Utils.GenerateInvertibleMatrix | code/utils.py:20-30 | returns the first invertible n x n candidate, skipping singular ones; None exactly when none is invertible |
| Utils.TextBitsChunk | code/utils.py:63-68 | bits 8i..8i+7 are the low 8 bits of ord(s[i]), MSB first |
| Utils.StrToBits | code/utils.py:53-68 | the nested loop emits TextBits(s), 8·len(s) bits |
| Utils.Padded | code/utils.py:82-84 | padding keeps the bits as a prefix and appends fewer than 8 zeros, reaching a multiple of 8 |
| Utils.PadBits | code/utils.py:82-84 | the `while` loop computes the padding |
| Utils.ReadByte | code/utils.py:88-90 | the shift accumulator reads 8 bits MSB first |
| Utils.ByteText | code/utils.py:88-92 | a byte yields no character exactly when it is zero, and otherwise the character with its value |
| Utils.BytesText | code/utils.py:86-93 | at most one character per byte, and never a null character |
| Utils.BitsText | code/utils.py:71-94 | the text has at most ⌈len/8⌉ characters |
| Utils.BitsToStr | code/utils.py:71-94 | `bits_to_str` computes BitsText: pad, then one character per non-zero byte |
| Utils.CharRoundTrip | code/utils.py:63-92 | a character with code 1..255 comes back from its 8 bits |
| Utils.BytesRoundTrip | code/utils.py:63-92 | byte-by-byte decoding of TextBits(s) gives s when every code is 1..255 |
| Utils.TextRoundTrip | code/utils.py:53-94 | `bits_to_str(str_to_bits(s)) == s` when every character has code 1..255 |
| McEliece.BlockDiagonalRow | code/hamming_mceliece/keygen.py:33-40 | row k·i + a of G_total is zeros, then row a of G in columns n·i..n·i+n-1, then zeros |
| McEliece.BlockDiagonalSplit | code/hamming_mceliece/keygen.py:35-40 | the L-block matrix is the (L-1)-block matrix joined diagonally with one more G |
| McEliece.WithBlockEntry | code/hamming_mceliece/keygen.py:40 | a slice assignment overwrites exactly the rectangle and keeps every other entry |
| McEliece.BuildBlockDiagonal | code/hamming_mceliece/keygen.py:33-40 | the zero matrix with G written into each diagonal block is BlockDiagonal(G, L) |
| McEliece.VecMatDiagJoin | code/hamming_mceliece/decrypt.py:37-44 | a vector times [[A, 0], [0, B]] is its two halves multiplied separately, side by side |
| McEliece.CodewordBlock | code/hamming_mceliece/keygen.py:35-40 | block i of u·G_total is (block i of u)·G |
| McEliece.Indicator | code/hamming_mceliece/encrypt.py:42-50 | the error vector has a 1 exactly at the given positions |
| McEliece.IndicatorWeight | code/hamming_mceliece/encrypt.py:64-69 | t distinct positions give an error of weight t |
| McEliece.OnePerBlockDistinct | code/hamming_mceliece/encrypt.py:45-50 | positions drawn one per block are distinct |
| McEliece.IndicatorBlock | code/hamming_mceliece/encrypt.py:45-50 | block j of the controlled error is the unit vector at the drawn offset when j < t, and zero after |
| McEliece.OnlyDrawInBlock | code/hamming_mceliece/encrypt.py:45-50 | only the draw for block j can land in block j |
| McEliece.OneErrorPerBlock | code/hamming_mceliece/encrypt.py:38-50 | block j of the controlled error has weight 1 when j < t, and 0 after |
| McEliece.ConcatDecodedStep | code/hamming_mceliece/decrypt.py:37-47 | appending the decoding of block i extends the concatenation of blocks 0..i-1 |
| McEliece.DecodeBlocksPrefix | code/hamming_mceliece/decrypt.py:34-44 | only the first 15L bits of c' affect the decoded blocks |
| McEliece.DecodeBlocksLength | code/hamming_mceliece/decrypt.py:37-47 | L blocks decoded to k bits each give k·L bits |
| McEliece.UnpermuteInverts | code/hamming_mceliece/decrypt.py:25-29 | c' = c·P⁻¹ satisfies c'·P = c |
| McEliece.DecryptedShape | code/hamming_mceliece/decrypt.py:25-55 | decryption succeeds exactly when P and S are invertible, c fits P, c holds at least one block, and S is (kL) x (kL); the output then has k·L bits |
| McEliece.DecodeBlocksUpTo | code/hamming_mceliece/decrypt.py:37-47 | decoding the first L blocks gives the first L message blocks when each block decodes to its own |
| McEliece.DecodeBlockCodewords | code/hamming_mceliece/decrypt.py:37-47 | block-wise decoding of u·G_total + e gives u when no block of e has more errors than the decoder corrects |
| McEliece.DecryptRoundTrip | code/hamming_mceliece/decrypt.py:25-55 | ((msg·S)·G_total + e)·P decrypts to msg under that condition |
| HammingKeygen.GenerateKeys | code/hamming_mceliece/keygen.py:22-57 | G_total is L diagonal Hamming generators; S is the first invertible (11L) x (11L) candidate; P = PermutationMatrix(perm); G_pub = S·G_total·P; t = L; None exactly when every candidate is singular |
| HammingEncrypt.Encrypt | code/hamming_mceliece/encrypt.py:8-73 | the error loops compute Encrypted: controlled mode exactly when S, G_total and P are all given, public mode otherwise, with each exception at its point |
| HammingEncrypt.DrawsFit | code/hamming_mceliece/encrypt.py:45-50 | every draw lies inside the codeword when the t blocks do |
| HammingEncrypt.DrawsOverflow | code/hamming_mceliece/encrypt.py:45-50 | the last draw lies past the codeword when the codeword ends before block t-1 begins |
| HammingEncrypt.ControlledShape | code/hamming_mceliece/encrypt.py:28-56 | the controlled mode succeeds exactly when the shapes fit (given t blocks fit), raises IndexError when block t-1 lies past the end, and yields P.cols bits |
| HammingEncrypt.PublicShape | code/hamming_mceliece/encrypt.py:60-71 | the public mode succeeds exactly when msg fits G_pub and t ≤ n_total, and yields n_total bits |
| HammingEncrypt.ControlledIsPublic | code/hamming_mceliece/encrypt.py:31-56 | the controlled ciphertext is msg·(S·G_total·P) + e·P; e has weight t, weight 1 in each block below t and 0 in later blocks |
| HammingEncrypt.PublicErrorWeight | code/hamming_mceliece/encrypt.py:60-71 | the public ciphertext differs from msg·G_pub in exactly t bits |
| HammingDecrypt.Decrypt | code/hamming_mceliece/decrypt.py:8-55 | the block loop and the products compute Decrypted with the Hamming decoder, each numpy failure in order |
| HammingDecrypt.DecryptShape | code/hamming_mceliece/decrypt.py:32-55 | success conditions as above, and an output of 11·(len(c) div 15) bits |
| HammingDecrypt.HammingCorrects | code/hamming_mceliece/hamming_code.py:101-135 | the Hamming decoder corrects one error in any 15-bit codeword |
| HammingDecrypt.RoundTrip | code/hamming_mceliece/decrypt.py:25-55 | for generated keys and L > 0, a controlled-mode encryption of an 11L-bit message succeeds and decrypts to the message |
| Bch.BchCode.constructor | code/bch_mceliece/bch_code.py:14-21 | n = 15, k = 7, t = 2, with the library's generator and decoder |
| Bch.BchCode.Encode | code/bch_mceliece/bch_code.py:23-36 | the codeword has 15 bits, and a 2-error-correcting decoder maps it back to msg |
| Bch.BchCode.Decode | code/bch_mceliece/bch_code.py:38-52 | returns the library decoder's 7-bit answer; when the decoder corrects 2 errors, v·G with at most 2 flipped bits decodes to v |
| BchKeygen.GenerateKeys | code/bch_mceliece/keygen.py:22-61 | G_total is L diagonal copies of G_bch; S is the first invertible (7L) x (7L) candidate; P = PermutationMatrix(perm); G_pub = S·G_total·P; t = 2L; None exactly when every candidate is singular |
| BchDecrypt.Decrypt | code/bch_mceliece/decrypt.py:8-55 | the block loop and the products compute Decrypted with the BCH decoder |
| BchDecrypt.DecryptShape | code/bch_mceliece/decrypt.py:32-55 | success conditions as above, and an output of 7·(len(c) div 15) bits |
| BchDecrypt.RoundTrip | code/bch_mceliece/decrypt.py:25-55 | if the decoder corrects 2 errors per block, then ((msg·S)·G_total + e)·P with at most 2 errors per block decrypts to msg |

## Left out

- Random draws are inputs:
  - `np.random.randint` in the controlled mode becomes `draws`, one position in each of the first t blocks;
  - `np.random.choice` becomes `sample`, t distinct in-range positions;
  - `np.random.permutation` becomes `perm`;
  - the random matrices tried for S become `candidates`.
- Utils.GenerateInvertibleMatrix: the source retries forever until it finds an invertible matrix. The model tries a finite candidate list and returns None when the list runs out, so key generation can also return None.
- The BCH algebra (`galois.BCH(15, 7)`) is not modelled. Its generator is an opaque 7 x 15 matrix and its decoder a function value.
  - The decoder's promise to correct 2 errors is the predicate `Corrects`, taken as a hypothesis of BchDecrypt.RoundTrip.
  - Bch.BchCode.Encode takes the library's encoder to be the product msg·G.
- The BCH variant's encryption is not part of this model. BchDecrypt.RoundTrip is stated for the ciphertext ((msg·S)·G_total + e)·P directly.
- `H_data` and `H_parity` in the Hamming constructor are computed and never used, so they are not modelled.
- numpy and galois internals are not modelled: array types, `reshape`, `flatten`, `GF2(...)` conversion. A bit is a `bool`, and a message, codeword or ciphertext is a `seq<bool>`.
- `np.linalg.inv` on a GF(2) array is modelled by its own Gauss-Jordan elimination. Inverses are unique, so the result is the same matrix.
- Hamming.HammingCode.Decode requires a 15-bit word. The source would raise a shape error on any other length, and its one caller, hamming_mceliece/decrypt.py:43, passes 15-bit blocks.
- Hamming.HammingCode.Encode requires an 11-bit message. The source's `msg @ self.G` raises a ValueError on any other length, and no core file calls `encode`.
- Bch.BchCode.Encode requires a 7-bit message. The library encoder raises on any other length, and no core file calls `encode`.
- Bch.BchCode.Decode requires a 15-bit word. The library decoder raises on any other length, and its one caller, bch_mceliece/decrypt.py:43, passes 15-bit blocks.
- Hamming.HammingCode.Decode, HammingDecrypt.Decrypt, BchDecrypt.Decrypt, HammingEncrypt.Encrypt, Utils.StrToBits and Utils.BitsToStr build their results as values. The in-place updates of numpy arrays and Python lists are modelled by reassigning immutable sequences.
- McEliece.BuildBlockDiagonal models the in-place slice assignment into a zero matrix by reassigning a matrix value.
- Decryption receives G_total and never reads it; the model does the same.
- A ciphertext shorter than one block makes the decryption loop run zero times, and `np.concatenate([])` then raises. This is the `NothingToConcatenate` error.
- The controlled mode's 15-bit block size is hard-coded, as in the source.
- Characters with code above 255 are modelled as `str_to_bits` treats them: only their low 8 bits are kept. They are excluded from Utils.TextRoundTrip because they do not survive the round trip. So is the null character, which `bits_to_str` drops.
- `run_benchmark.py` and `run_bch_demo.py` are not modelled. They are driver scripts whose content is timing, floating-point statistics and printing.

# A verified model of concrete's polynomial arithmetic, GLWE secret key and software CSPRNG

This project models three sequential pieces of the Rust library *concrete* in Dafny and proves
what each one computes.

- **Negacyclic polynomials** (`Polynomial`, `concrete-core/src/math/polynomial/polynomial.rs`).
  - A polynomial is a buffer of N unsigned w-bit coefficients, an element of Z_{2^w}[X]/(X^N + 1).
  - The model is the class `Polynomials.Polynomial`: a coefficient `array<int>` and the width w.
    Every `fill_*`/`update_*` method rewrites the array in place with the loops of the source,
    except the rotations, which write each coefficient from a snapshot of the array.
  - Each method is proved to compute a pure specification function of module `Negacyclic`.
  - Lemmas about those functions give the algebra:
    - the product is the ordinary product reduced with X^N = −1;
    - subtraction undoes addition, and the subtracting multisum undoes the adding one;
    - division by X^d undoes multiplication by X^d for every d;
    - multiplying by X^r is the negacyclic product with X^r, and multiplying by X^(d + N) negates
      the product with X^d, so the closed form is the product with X^d for every d.
  - Module `DocVectors` restates the examples from the documentation on the specification
    functions and proves them.
  - Module `Wrapping` holds the reduction modulo 2^w behind Rust's `wrapping_*` operations.
- **GLWE secret key** (`GlweSecretKey`, `concrete-core/src/crypto/secret/glwe.rs`), in module `Glwe`.
  - The key is a datatype: its bits and its polynomial size N.
  - GLWE ciphertexts, lists of them and GGSW ciphertexts are classes whose buffers the
    encryption routines overwrite.
  - The mask and noise samples are parameters. Encryption and decryption are therefore
    deterministic, and the round trip decrypt(encrypt(p)) = p + e is proved exactly, in wrapping
    arithmetic.
  - The GGSW routines are proved to zero-encrypt every row and then add the scaled plaintext on
    the diagonal of each level matrix. The rows of a level matrix are proved to decrypt to the
    constant plus noise (the body row) and to noise − delta·S_r (mask row r).
- **Software random generator** (`RandomGenerator`, `concrete-csprng/src/software.rs`), in module `Csprng`.
  - AES-128 in counter mode (NIST SP 800-38A, section 6.5) fills a 128-byte buffer, which is
    handed out one byte at a time.
  - The block cipher (FIPS 197) is a function parameter `aes(key, counter)` that yields 16 bytes.
  - The class `RandomGenerator` updates its counter, buffer and index in place. Its
    `GenerateNext` is proved equal to the transition function `Next`.
  - Lemmas about `Next` prove:
    - refills happen exactly when the index reaches 127, and each one advances the counter by 8
      modulo 2^128 before encrypting the eight counters from there;
    - 128·q requests from a new generator hand out the counter-mode keystream from state + 8 on,
      as long as no counter reaches 2^128.
  - Determinism holds for every state. `Next` and `Run` are functions of the state, the key and
    the cipher, and `GenerateNext` is proved equal to `Next`, so two generators built from the
    same key and state hand out the same bytes. The counter-mode lemmas add the closed form of
    those bytes within the range where no counter wraps.

## Model

| member | source | states |
|---|---|---|
| Wrapping.WrapIsMod | concrete-core/src/math/polynomial/polynomial.rs:519-531 | the reduction used for every `wrapping_*` operation is the remainder modulo 2^w |
| Negacyclic.NegacyclicProductIsReducedProduct | concrete-core/src/math/polynomial/polynomial.rs:255-270 | coefficient t of the negacyclic product is (c_t − c_{t+N}) mod 2^w, where c is the ordinary integer product of the two polynomials |
| Negacyclic.MonomialMulIsProduct | concrete-core/src/math/polynomial/polynomial.rs:560-594 | for r < N, multiplication by the monic monomial X^r equals the negacyclic product with the polynomial X^r |
| Negacyclic.MonomialMulPastN | concrete-core/src/math/polynomial/polynomial.rs:573-594 | multiplying by X^(d + N) negates every coefficient of the product with X^d (X^N = −1), which extends the product form to every degree d |
| Negacyclic.SubUndoesAdd | concrete-core/src/math/polynomial/polynomial.rs:506-558 | sub(add(p, q), q) = p for every p whose coefficients are in range |
| Negacyclic.AddUndoesSub | concrete-core/src/math/polynomial/polynomial.rs:506-558 | add(sub(p, q), q) = p |
| Negacyclic.AddToZero | concrete-core/src/math/polynomial/polynomial.rs:300-306 | adding q to the zero polynomial yields q, so a product that zeroes first and then accumulates yields the product itself |
| Negacyclic.AddMultisumIsAddSeveral | concrete-core/src/math/polynomial/polynomial.rs:309-351 | folding "add P_j·B_j" over the pairs equals adding the list of products P_j·B_j, one after the other |
| Negacyclic.SubMultisumIsSubSeveral | concrete-core/src/math/polynomial/polynomial.rs:353-395 | folding "subtract P_j·B_j" over the pairs equals subtracting the list of products; the code subtracts, although the formula in its documentation adds |
| Negacyclic.SubMultisumUndoesAddMultisum | concrete-core/src/math/polynomial/polynomial.rs:309-395 | the subtracting multisum with the same lists restores the buffer that the adding multisum changed |
| Negacyclic.AddSeveralCoefficient | concrete-core/src/math/polynomial/polynomial.rs:633-659 | coefficient i after adding several polynomials is (p_i + Σ_j L_j[i]) mod 2^w |
| Negacyclic.SubSeveralCoefficient | concrete-core/src/math/polynomial/polynomial.rs:661-687 | coefficient i after subtracting several polynomials is (p_i − Σ_j L_j[i]) mod 2^w |
| Negacyclic.AddSeveralInRange | concrete-core/src/math/polynomial/polynomial.rs:633-659 | adding several polynomials keeps the length and every coefficient a w-bit value |
| Negacyclic.SubSeveralUndoesAddSeveral | concrete-core/src/math/polynomial/polynomial.rs:633-687 | subtracting a list of polynomials undoes adding the same list |
| Negacyclic.DivUndoesMul | concrete-core/src/math/polynomial/polynomial.rs:560-631 | for every degree d and every N > 0, division by X^d undoes multiplication by X^d |
| Negacyclic.MulUndoesDiv | concrete-core/src/math/polynomial/polynomial.rs:560-631 | for every degree d and every N > 0, multiplication by X^d undoes division by X^d |
| Polynomials.MonomialMulStages | concrete-core/src/math/polynomial/polynomial.rs:578-593 | negating everything when ⌊d/N⌋ is odd, rotating right by r = d mod N and negating the first r coefficients give coefficient i = s·p_{i−r} for i ≥ r and −s·p_{i−r+N} for i < r |
| Polynomials.MonomialDivStages | concrete-core/src/math/polynomial/polynomial.rs:614-630 | the same stages with a left rotation and the last r negated give the signed left rotation |
| Polynomials.Polynomial.Allocate | concrete-core/src/math/polynomial/polynomial.rs:33-45 | a fresh buffer of N coefficients, all equal to the given value |
| Polynomials.Polynomial.FromContainer | concrete-core/src/math/polynomial/polynomial.rs:48-62 | the polynomial takes over the container; its size is the container's length |
| Polynomials.Polynomial.Zero | concrete-core/src/math/polynomial/polynomial.rs:254 | every coefficient becomes 0 |
| Polynomials.Polynomial.Assign | concrete-core/src/crypto/secret/glwe.rs:404-406 | the buffer becomes a copy of the given coefficients |
| Polynomials.Polynomial.FillWithWrappingMul | concrete-core/src/math/polynomial/polynomial.rs:228-272 | the buffer becomes the negacyclic product of lhs and rhs, whatever it held before |
| Polynomials.Polynomial.FillWithWrappingBinaryMul | concrete-core/src/math/polynomial/polynomial.rs:274-307 | the buffer becomes the negacyclic product of poly and the 0/1 polynomial, whatever it held before |
| Polynomials.Polynomial.UpdateWithWrappingAddBinaryMul | concrete-core/src/math/polynomial/polynomial.rs:396-448 | the new buffer is the old buffer plus the negacyclic product of poly and the 0/1 polynomial |
| Polynomials.Polynomial.UpdateWithWrappingSubBinaryMul | concrete-core/src/math/polynomial/polynomial.rs:450-504 | the new buffer is the old buffer minus that product |
| Polynomials.Polynomial.UpdateWithWrappingAddBinaryMultisum | concrete-core/src/math/polynomial/polynomial.rs:309-351 | the new buffer is the old buffer plus Σ_j P_j·B_j, over the pairs of the two lists zipped |
| Polynomials.Polynomial.UpdateWithWrappingSubBinaryMultisum | concrete-core/src/math/polynomial/polynomial.rs:353-395 | the new buffer is the old buffer minus Σ_j P_j·B_j, over the zipped pairs |
| Polynomials.Polynomial.UpdateWithWrappingAdd | concrete-core/src/math/polynomial/polynomial.rs:506-531 | coefficient-wise addition modulo 2^w of an operand of the same size |
| Polynomials.Polynomial.UpdateWithWrappingSub | concrete-core/src/math/polynomial/polynomial.rs:533-558 | coefficient-wise subtraction modulo 2^w of an operand of the same size |
| Polynomials.Polynomial.UpdateWithWrappingAddSeveral | concrete-core/src/math/polynomial/polynomial.rs:633-659 | the new buffer is the left fold of the addition over the list |
| Polynomials.Polynomial.UpdateWithWrappingSubSeveral | concrete-core/src/math/polynomial/polynomial.rs:661-687 | the new buffer is the left fold of the subtraction over the list |
| Polynomials.Polynomial.NegateRange | concrete-core/src/math/polynomial/polynomial.rs:589-593 | negates, modulo 2^w, exactly the coefficients in the given range |
| Polynomials.Polynomial.RotateRight | concrete-core/src/math/polynomial/polynomial.rs:585-588 | the coefficient at position i moves to position (i + r) mod N |
| Polynomials.Polynomial.RotateLeft | concrete-core/src/math/polynomial/polynomial.rs:621-624 | the coefficient at position i moves to position (i − r) mod N |
| Polynomials.Polynomial.UpdateWithWrappingMonicMonomialMul | concrete-core/src/math/polynomial/polynomial.rs:560-594 | the new buffer is the old one times X^d modulo X^N + 1, in the signed-rotation form |
| Polynomials.Polynomial.UpdateWithWrappingUnitMonomialDiv | concrete-core/src/math/polynomial/polynomial.rs:596-631 | the new buffer is the old one divided by X^d modulo X^N + 1 |
| DocVectors.ProductVector | concrete-core/src/math/polynomial/polynomial.rs:234-241 | [4, 5, 0]·[7, 9, 0] mod (X^3 + 1) is [28, 71, 45] in u8 |
| DocVectors.BinaryProductVector | concrete-core/src/math/polynomial/polynomial.rs:280-288 | [1, 2, 3]·(X + X^2) is [251, 254, 3] in u8 |
| DocVectors.BinaryMulVectors | concrete-core/src/math/polynomial/polynomial.rs:402-463 | adding that product to [1, 0, 253] gives [252, 254, 0]; subtracting it from [255, 255, 1] gives [4, 1, 254] |
| DocVectors.MultisumVectors | concrete-core/src/math/polynomial/polynomial.rs:321-378 | from 250 everywhere, the adding multisum gives [231, 96, 120] and the subtracting one gives [13, 148, 124] |
| DocVectors.AddSubVectors | concrete-core/src/math/polynomial/polynomial.rs:511-544 | [1, 2, 3] + [255, 255, 255] is [0, 1, 2], and [1, 2, 3] − [4, 5, 6] is [253, 253, 253] |
| DocVectors.MonomialVectors | concrete-core/src/math/polynomial/polynomial.rs:566-607 | [1, 2, 3]·X^2 is [254, 253, 1], and [1, 2, 3]/X^2 is [3, 255, 254] |
| DocVectors.AddSeveralVector | concrete-core/src/math/polynomial/polynomial.rs:640-645 | [1, 2, 3] + [4, 5, 6] + [7, 8, 9] is [12, 15, 18] |
| DocVectors.SubSeveralVector | concrete-core/src/math/polynomial/polynomial.rs:668-673 | [1, 2, 3] − [4, 5, 6] − [7, 8, 9] wraps to [4294967286, 4294967285, 4294967284] in u32 |
| Glwe.GlweSecretKey.FromContainer | concrete-core/src/crypto/secret/glwe.rs:89-120 | a container whose length is a multiple of N becomes a key with the same bits, N as polynomial size and key size len / N |
| Glwe.GlweSecretKey.Generate | concrete-core/src/crypto/secret/glwe.rs:41-46 | the key holds the N·k sampled bits, so its key size is the requested dimension k |
| Glwe.GlweSecretKey.IntoLweSecretKey | concrete-core/src/crypto/secret/glwe.rs:63-65 | the LWE key keeps the same bits, so its dimension is k·N |
| Glwe.GlweSecretKey.KeyPolynomials | concrete-core/src/crypto/secret/glwe.rs:154-159 | the key read as k binary polynomials of N bits each |
| Glwe.GlweSecretKey.KeyPolynomialsCover | concrete-core/src/crypto/secret/glwe.rs:154-159 | the key polynomials laid end to end give back exactly the key bits |
| Glwe.TilesOfMultiple | concrete-core/src/crypto/secret/glwe.rs:115-120 | when N divides the length, the key size (whole blocks of N) is length / N and the blocks cover the bits |
| Glwe.GlweSecretKey.EncryptGlwe | concrete-core/src/crypto/secret/glwe.rs:217-238 | the mask becomes the sample, and the body becomes noise + Σ_i A_i·S_i + plaintext |
| Glwe.GlweSecretKey.EncryptZeroGlwe | concrete-core/src/crypto/secret/glwe.rs:267-284 | the mask becomes the sample, and the body becomes noise + Σ_i A_i·S_i |
| Glwe.GlweSecretKey.DecryptGlwe | concrete-core/src/crypto/secret/glwe.rs:392-413 | the output becomes body − Σ_i A_i·S_i |
| Glwe.DecryptUndoesEncrypt | concrete-core/src/crypto/secret/glwe.rs:217-238 | decrypting an encryption of p with noise e gives p + e exactly, modulo 2^w |
| Glwe.DecryptZeroIsNoise | concrete-core/src/crypto/secret/glwe.rs:267-284 | decrypting an encryption of zero gives exactly the noise |
| Glwe.ZeroEncryptionIsEncryptionOfZero | concrete-core/src/crypto/secret/glwe.rs:267-284 | encrypting zero is encrypting the all-zero plaintext |
| Glwe.GlweSecretKey.EncryptGlweList | concrete-core/src/crypto/secret/glwe.rs:319-341 | ciphertext j is an encryption of plaintexts jN .. (j+1)N − 1, with mask sample j and noise j |
| Glwe.GlweSecretKey.EncryptZeroGlweList | concrete-core/src/crypto/secret/glwe.rs:375-387 | every ciphertext of the list is an encryption of zero with its own samples |
| Glwe.GlweSecretKey.DecryptGlweList | concrete-core/src/crypto/secret/glwe.rs:418-437 | output slice j (positions jN .. (j+1)N − 1) is the decryption of ciphertext j, and every output value is a w-bit value |
| Glwe.GlweSecretKey.ListRoundTrip | concrete-core/src/crypto/secret/glwe.rs:296-316 | after a list is encrypted, ciphertext j decrypts to chunk j of the plaintexts plus its own noise, so decrypting the list gives back the plaintexts plus the noise, chunk by chunk |
| Glwe.GlweSecretKey.DecryptAll | concrete-core/src/crypto/secret/glwe.rs:431-436 | after the loop the output holds the decryptions of all ciphertexts, end to end and in order |
| Glwe.GlweCiphertext.AddToFirstCoefficient | concrete-core/src/crypto/secret/glwe.rs:491-495 | wrapping addition to coefficient 0 of one polynomial of the ciphertext; nothing else changes |
| Glwe.GlweCiphertext.FillTrivial | concrete-core/src/crypto/secret/glwe.rs:540-544 | the masks become zero polynomials and the body becomes the noise sample |
| Glwe.GlweList.FillTrivial | concrete-core/src/crypto/secret/glwe.rs:540-544 | every ciphertext of the list becomes a trivial encryption of zero with its own noise |
| Glwe.GlweList.AddToDiagonal | concrete-core/src/crypto/secret/glwe.rs:486-496 | for every row r, coefficient 0 of polynomial r of row r grows by delta; nothing else changes |
| Glwe.GgswCiphertext.AddScaledDiagonals | concrete-core/src/crypto/secret/glwe.rs:480-497 | level matrix l gets encoded·2^(w − baseLog·(level + 1)) added on its diagonal, where level is the decomposition level the matrix reports |
| Glwe.GgswCiphertext.FillTrivial | concrete-core/src/crypto/secret/glwe.rs:540-544 | every row of every level matrix becomes a trivial encryption of zero |
| Glwe.GlweSecretKey.EncryptZeroLevels | concrete-core/src/crypto/secret/glwe.rs:478 | every row of every level matrix becomes an encryption of zero with its own samples |
| Glwe.GlweSecretKey.EncryptConstantGgsw | concrete-core/src/crypto/secret/glwe.rs:465-498 | row r of level matrix l is an encryption of zero with coefficient 0 of polynomial r raised by the level's factor; nothing else changes |
| Glwe.GlweSecretKey.TrivialEncryptConstantGgsw | concrete-core/src/crypto/secret/glwe.rs:526-564 | row r of level matrix l has zero masks and its noise sample as body, with the same diagonal raise |
| Glwe.DiagonalBodyRow | concrete-core/src/crypto/secret/glwe.rs:486-496 | the body row of a level matrix keeps its mask, is an encryption of the constant delta, and decrypts to delta + noise |
| Glwe.DiagonalMaskRow | concrete-core/src/crypto/secret/glwe.rs:486-496 | mask row r of a level matrix decrypts to noise − delta·S_r |
| Glwe.TrivialRowIsZeroRow | concrete-core/src/crypto/secret/glwe.rs:540-544 | a trivial encryption of zero is the encryption of zero whose masks are all zero |
| Csprng.WrappingAdd128 | concrete-csprng/src/software.rs:95-97 | the u128 sum: x + y, less 2^128 when it overflows |
| Csprng.AesEncryptManyBlock | concrete-csprng/src/software.rs:112-153 | bytes 16j .. 16j + 15 of the output are the encryption of message j |
| Csprng.CountersDistinct | concrete-csprng/src/software.rs:79-89 | the eight counters state + j (j = 0..7, as u128 wrapping sums) that one refill encrypts are pairwise distinct, even across the wrap at 2^128 |
| Csprng.RefillIsKeystream | concrete-csprng/src/software.rs:79-89 | a refill that does not overflow holds the counter-mode keystream of the eight counters from the state on |
| Csprng.FirstRequestRefills | concrete-csprng/src/software.rs:61-91 | a new generator starts with index 127, so its first request advances the counter by 8 and refills the buffer with the encryptions of the eight counters from there |
| Csprng.Next | concrete-csprng/src/software.rs:71-93 | after a request the index is in [0, 127], and the byte returned is the buffer byte at the index |
| Csprng.NextStep | concrete-csprng/src/software.rs:71-97 | a request refills exactly when the index is 127, and otherwise only the index moves, by one; every refill advances the counter by 8 modulo 2^128 and loads the encryptions of the eight counters from there, which is the keystream after the advance when no counter overflows |
| Csprng.Drain | concrete-csprng/src/software.rs:72-74 | requests without a refill hand out the rest of the buffer in order |
| Csprng.RefillRound | concrete-csprng/src/software.rs:71-97 | from an exhausted buffer, in every state, 128 requests refill once and hand out exactly the new buffer: the encryptions of the eight counters after the advance by 8, all modulo 2^128 |
| Csprng.OneRefill | concrete-csprng/src/software.rs:71-93 | while the counter stays below 2^128 − 16 (state + 16 ≤ 2^128), the buffer handed out by a refill round is the keystream of the eight counters after the advance |
| Csprng.CounterMode | concrete-csprng/src/software.rs:71-97 | from an exhausted buffer at counter c, 128·q requests hand out the keystream of counters c + 8, c + 9, ... in order |
| Csprng.FreshOutput | concrete-csprng/src/software.rs:200-214 | the first 128·q bytes of a new generator depend only on the key and the state: they are the keystream from state + 8 on |
| Csprng.RandomGenerator.New | concrete-csprng/src/software.rs:46-69 | the generator keeps the key and the cipher, and its state is the initial state for the given counter |
| Csprng.RandomGenerator.UpdateState | concrete-csprng/src/software.rs:95-97 | the state advances by 8 modulo 2^128; nothing else changes |
| Csprng.RandomGenerator.GenerateNext | concrete-csprng/src/software.rs:71-93 | the new state and the byte returned are exactly those of the transition `Next` |

## Left out

- Random sampling is not modelled. The Gaussian noise, the uniform masks and the uniform key bits are parameters. The floating-point standard deviations (`DispersionParameter`, `LogStandardDev`) are left out.
- The statistical checks are not modelled: the distance bound in the documentation of `encrypt_glwe` and `assert_delta_std_dev` in `concrete-core/src/crypto/glwe/tests.rs`. The exact round trip `Glwe.DecryptUndoesEncrypt` stands in for them.
- The AES-128 block cipher is a function parameter. So is the native-endian byte encoding of the key and the counters. The FIPS 197 test vector at software.rs:160-181 therefore cannot be restated.
- The uniformity test at software.rs:183-198 is statistical and is left out.
- `generate_initialization_vector` reads `/dev/random`. `new` takes the key and the state explicitly instead.
- The CPU feature check and `println!` in `new` are left out, as are the `Debug`, `Display` and `Default` impls and the serde derives.
- The FFT module (`concrete-core/src/math/fft/mod.rs`) is floating-point code over a foreign library and is left out.
- `Tensor`, `PolynomialList`, `PlaintextList` and the ciphertext layout types are not part of this model. Read-only operands are `seq` snapshots (Rust forbids them to alias the buffer being written). Lists of polynomials are `seq<seq<int>>`.
- Ciphertext layout is assumed from the call sites: a GLWE ciphertext holds its k mask polynomials and then its body. A GGSW ciphertext is a sequence of level matrices, each holding k + 1 rows. Each level matrix carries the decomposition level it reports.
- The debug-build dimension checks (`ck_dim_eq!`, `ck_dim_div!`) are preconditions rather than panics.
- The multisums and the GLWE routines require the zipped operands to have N coefficients each, which is what those checks enforce inside the per-pair products.
- The in-place `rotate_right`/`rotate_left` are modelled by one simultaneous assignment from a snapshot. The source's swap sequence is not modelled.
- Glwe.GlweSecretKey.DecryptGlweList decrypts each ciphertext into a polynomial of its own and copies it into output slice j. The source decrypts straight into a mutable view of that slice, and writing through a sub-slice view is not modelled. The values written are the same.
- Polynomials.Polynomial.UpdateWithWrappingMonicMonomialMul requires N > 0, because the source divides by N.
- Polynomials.Polynomial.UpdateWithWrappingUnitMonomialDiv requires N > 0 for the same reason.
- Polynomials.Polynomial.FillWithWrappingMul follows a release build at N = 0 (an empty product). A debug build panics computing N − 1.
- Polynomials.Polynomial.UpdateWithWrappingAddBinaryMul and UpdateWithWrappingSubBinaryMul are modelled the same way at N = 0.
- Glwe.GgswCiphertext.AddScaledDiagonals requires `Scalable`: 0 < baseLog·(level + 1) ≤ w for every level. Otherwise the source's unsigned subtraction underflows or its shift is by w bits or more.
- Glwe.DiagonalFactor: the product `encoded · 2^…` is not bounded by 2^w. The wrapping addition that consumes it reduces it exactly as a release build's wrapping product would. A debug build panics on that overflow instead.
- Csprng.Next follows a release build, where `state + j` wraps modulo 2^128. A debug build panics when the advanced state exceeds 2^128 − 8; the predicate `Csprng.NoOverflow` names that condition.
- Csprng.OneRefill requires state + 16 ≤ 2^128, so that no counter of the round reaches 2^128. Csprng.RefillRound states the round in every state, wrapped counters included.
- Csprng.CounterMode and Csprng.FreshOutput are stated only while no counter reaches 2^128. Past that point the keystream wraps around.
- Csprng.AesEncryptMany is a pure function. The source writes eight local block buffers in place before concatenating them, and that mutation is not modelled.
- The formula in the documentation of `update_with_wrapping_sub_binary_multisum` (polynomial.rs:359) writes "+". The code subtracts, and the model follows the code.

# RC6-32/20/b in Dafny

This is a model of a command-line RC6 block cipher written in C++ (rc6.cpp),
with proofs about it. The program reads a direction ("Encryption" or
anything else for decryption), a block of up to 16 bytes and a key of b bytes.
It then:

- packs the key into b/4 little-endian 32-bit words L;
- expands L into the subkey table S of 2r + 4 = 44 words (r = 20 rounds);
- loads the block into the registers A, B, C, D;
- runs `encrypt_vec` or `decrypt_vec`;
- writes the four registers as 16 bytes, least significant byte first.

The model keeps the program's form:

- The loops that change arrays and registers are methods with loop
  invariants: the key and text packing, `key_schedule`, `encrypt_vec` and
  `decrypt_vec`.
- Each method is proved equal to a function on values.
- The properties the cipher promises are proved as lemmas about those
  functions. The main ones are:
  - decryption undoes encryption and encryption undoes decryption, per
    round and for the whole block;
  - every rotation amount round-trips;
  - the subkey table starts from the magic-constant progression;
  - the mixing loop's indices stay in bounds;
  - reading back the written bytes gives back the registers.

Modules:

- `Words`: 32-bit words (`bv32`, so `+`, `-` and `*` wrap modulo 2^32, as
  `uint32_t` does), `rotate_left` / `rotate_right`, and byte lanes.
- `Packing`: the byte-to-word loop shared by the key packing in `main` and
  `load_registers`.
- `KeySchedule`: `key_schedule`, split into its two loops (`FillMagicTable`
  and the mixing steps `MixStep`).
- `BlockCipher`: `encrypt_vec` and `decrypt_vec`.
- `Rc6`: the body of `main` from the parsed input to the output bytes.

`S_len = 2 * r + 4` is 44 words, and `encrypt_vec`/`decrypt_vec` read exactly
S[0] .. S[2r+3]; the model uses 44 (`BlockCipher.SubkeyCount`,
`Rc6.ExpandKey`).

## Model

| member | source | states |
|---|---|---|
| Words.RotateLeft | rc6.cpp:295-301 | `rotate_left`: the offset masked to its low five bits, then `val << n` ORed with `val >> (32 - n)`, with n = 0 the identity; its meaning is stated by the rotation lemmas below |
| Words.RotateRight | rc6.cpp:304-310 | `rotate_right`: the offset masked to its low five bits, then `val >> n` ORed with `val << (32 - n)`, with n = 0 the identity |
| Words.OffsetMaskIsLowFiveBits | rc6.cpp:296-297 | the mask `0xFFFFFFFF >> (32 - log2(32))` is 0x1F, so only the low five bits of an offset are used |
| Words.RotateLeftIsRotation | rc6.cpp:295-301 | `rotate_left` is the circular left rotation by offset mod 32, stated against an independent 64-bit definition |
| Words.RotateRightIsRotation | rc6.cpp:304-310 | `rotate_right` is the circular right rotation by offset mod 32, stated against the same 64-bit definition |
| Words.ShiftRightLeftCircular | rc6.cpp:295-310 | for every masked amount below 32, the right shift-or expression undoes the left one |
| Words.ShiftLeftRightCircular | rc6.cpp:295-310 | for every masked amount below 32, the left shift-or expression undoes the right one |
| Words.RotateRightLeft | rc6.cpp:295-310 | `rotate_right(rotate_left(x, n), n) == x` for every x and every offset n |
| Words.RotateLeftRight | rc6.cpp:295-310 | `rotate_left(rotate_right(x, n), n) == x` for every x and every offset n |
| Words.RotateLowBitsOnly | rc6.cpp:298 | both rotations give the same result for n and n mod 32 |
| Words.SubAdd | rc6.cpp:268-269 | on `uint32_t` subtracting k undoes adding k, wrap-around included |
| Words.AddSub | rc6.cpp:245-246 | on `uint32_t` adding k undoes subtracting k |
| Words.XorXor | rc6.cpp:253-254 | xoring the same mask twice gives the word back |
| Words.ByteOfOr | rc6.cpp:356-359 | each extracted byte `(X >> 8m) & 0xFF` of an OR is the OR of the bytes |
| Words.ByteOfLane | rc6.cpp:151-153 | a byte shifted into lane j is byte j of the word and the other three bytes are 0 |
| Words.ByteOfOrLane | rc6.cpp:150-156 | ORing a byte into lane j ORs it into byte j and leaves the other bytes unchanged |
| Words.WordFromBytes | rc6.cpp:356-359 | two words whose four extracted bytes agree are equal |
| Packing.ShiftIsLane | rc6.cpp:151-154 | `(uint32_t)byte << (8*j)` masked by 0xFFFFFFFF is the byte placed in lane j |
| Packing.OrByteByte | rc6.cpp:150-156 | one packing step changes only byte i mod 4 of word i / 4, by ORing the input byte |
| Packing.PackedByte | rc6.cpp:145-157 | after n bytes, byte m of word k is its old value ORed with input byte 4k+m when 4k+m < n |
| Packing.PackZerosByte | rc6.cpp:136-157 | packing into zeroed words is little-endian: byte m of word k is input byte 4k+m, or 0 past the input |
| Packing.ResetIndex | rc6.cpp:145-149 | with `i == 4 * key_index + j` and `j <= 4`, the `j > 3` reset leaves `key_index == i / 4` and `j == i % 4` |
| Packing.PackStep | rc6.cpp:150-156 | given `i == 4 * q + j`, ORing byte i into lane j of word q gives the packing of the first i + 1 bytes, and q is in bounds |
| Packing.PackInto | rc6.cpp:145-157 | the words after ORing every input byte, in order, into its lane; its little-endian layout is stated by `PackedByte` and `PackZerosByte` |
| Packing.PackBytes | rc6.cpp:145-157 | the packing loop leaves the words equal to the input bytes ORed into their lanes and changes nothing else |
| Packing.PackKey | rc6.cpp:136-157 | `L` has b/4 words, starts zeroed and holds the key bytes little-endian |
| Packing.LoadRegisters | rc6.cpp:194-215 | the registers start from A, B, C, D, and text byte 4k+m is ORed into byte m of register k |
| KeySchedule.MagicTable | rc6.cpp:218-224 | the table has the requested length, starts with P32 = 0xB7E15163, and each entry is the previous one plus Q32 = 0x9E3779B9 mod 2^32 |
| KeySchedule.MagicTableClosedForm | rc6.cpp:218-224 | entry i of the table is P32 plus i additions of Q32 (mod 2^32), whatever the table length n |
| KeySchedule.FillMagicTable | rc6.cpp:220-224 | the first loop leaves S[0 .. S_Len) equal to the table and the entries past S_Len unchanged |
| KeySchedule.Step | rc6.cpp:232-241 | a mixing step keeps both indices in bounds and advances them cyclically, `(i + 1) % S_Len` and `(j + 1) % L_Len` |
| KeySchedule.StepKeepsRegisters | rc6.cpp:233-238 | after a step A is the S entry just written and B the L entry just written |
| KeySchedule.StepWritesOneEntry | rc6.cpp:233-238 | a step changes no entry of S other than S[i] and no entry of L other than L[j] |
| KeySchedule.Mixes | rc6.cpp:232-241 | after k steps both indices are in bounds and equal to their start plus k, modulo the table length |
| KeySchedule.MixesRegisters | rc6.cpp:232-241 | after step k + 1, A is the S entry at position k mod S_Len and B the L entry at position k mod L_Len |
| KeySchedule.Schedule | rc6.cpp:217-242 | the tables after the magic-constant fill and `3 * max(L_Len, S_Len)` mixing steps from A = B = i = j = 0; S keeps length S_Len and L length L_Len |
| KeySchedule.MixStep | rc6.cpp:233-240 | one mixing iteration on the arrays equals `Step` on their contents, and entries past L_Len and S_Len are unchanged |
| KeySchedule.KeySchedule | rc6.cpp:217-242 | on the arrays, S[0 .. S_Len) and L[0 .. L_Len) become the result of exactly `3 * max(L_Len, S_Len)` mixing steps from the magic table and the incoming key words, and no other entry changes |
| BlockCipher.EncryptRound | rc6.cpp:247-262 | one iteration of the encryption loop: A and C updated from t and u, then (A, B, C, D) := (B, C, D, A); inverted by `DecryptRound` |
| BlockCipher.DecryptRound | rc6.cpp:270-288 | one iteration of the decryption loop: (A, B, C, D) := (D, A, B, C), then C and A recovered; inverted by `EncryptRound` |
| BlockCipher.Encrypt | rc6.cpp:244-265 | `encrypt_vec` on values: pre-whitening of B and D, rounds 1 .. r, post-whitening of A and C |
| BlockCipher.Decrypt | rc6.cpp:267-291 | `decrypt_vec` on values: undo the post-whitening, rounds r .. 1, undo the pre-whitening |
| BlockCipher.DecryptRoundInverse | rc6.cpp:247-264 | the decryption round i undoes the encryption round i for every block and every subkey table |
| BlockCipher.EncryptRoundInverse | rc6.cpp:270-289 | the encryption round i undoes the decryption round i |
| BlockCipher.DecryptEncryptRounds | rc6.cpp:247-264 | rounds k .. 1 of decryption undo rounds 1 .. k of encryption |
| BlockCipher.EncryptDecryptRounds | rc6.cpp:270-289 | rounds 1 .. k of encryption undo rounds k .. 1 of decryption |
| BlockCipher.DecryptEncrypt | rc6.cpp:244-291 | `decrypt_vec` after `encrypt_vec` with the same S gives back the block |
| BlockCipher.EncryptDecrypt | rc6.cpp:244-291 | `encrypt_vec` after `decrypt_vec` with the same S gives back the block |
| BlockCipher.EncryptReadsPrefix | rc6.cpp:244-265 | encryption with r rounds depends only on S[0 .. 2r+3] |
| BlockCipher.DecryptReadsPrefix | rc6.cpp:267-291 | decryption with r rounds depends only on S[0 .. 2r+3] |
| BlockCipher.EncryptVec | rc6.cpp:244-265 | `encrypt_vec` on the registers computes `Encrypt` of the incoming block, given at least 2r+4 subkeys, and leaves S unchanged |
| BlockCipher.DecryptVec | rc6.cpp:267-291 | `decrypt_vec` on the registers computes `Decrypt` of the incoming block, and leaves S unchanged |
| Rc6.ExpandKey | rc6.cpp:136-160 | the subkey table derived from the key has 2r + 4 = 44 words |
| Rc6.LoadBlock | rc6.cpp:194-215 | `load_registers` from A = B = C = D = 0, as `main` calls it |
| Rc6.BlockBytes | rc6.cpp:356-359 | the 16 bytes `write_output` prints: `(X >> 8m) & 0xFF` for m = 0 .. 3, for A, B, C, D in turn |
| Rc6.Output | rc6.cpp:132-168 | the bytes `main` writes for a key, a text and a direction: load, expand the key, encrypt or decrypt, serialise |
| Rc6.BlockBytesByte | rc6.cpp:356-359 | output byte 4k+m is `(X >> 8m) & 0xFF` of register k (A, B, C, D in order) |
| Rc6.BlockBytesLoadBlock | rc6.cpp:194-215 | writing the registers loaded from a text gives back the text, padded with zero bytes to 16 |
| Rc6.LoadBlockBytesRegister | rc6.cpp:194-215 | register k loaded from a block's output bytes is register k of that block |
| Rc6.LoadBlockBytes | rc6.cpp:356-359 | loading the 16 output bytes of a block gives back the block |
| Rc6.DecryptOutputEncryptOutput | rc6.cpp:132-168 | running the program in decryption mode on its own ciphertext, with the same key, outputs the plaintext (zero-padded to 16 bytes) |
| Rc6.EncryptOutputDecryptOutput | rc6.cpp:132-168 | running it in encryption mode on its own decryption output outputs the ciphertext it was given |
| Rc6.SubkeyTable | rc6.cpp:136-160 | packing the key, allocating `S_len = 2r + 4` zeroed words and running `key_schedule` leaves S equal to `ExpandKey` of the key |
| Rc6.Run | rc6.cpp:132-168 | the pipeline of `main` (pack, schedule, load, encrypt or decrypt, write) outputs `Output` of the key, the text and the direction |

## Left out

- Reading and parsing the input file, `create_hex_vec`, command-line arguments, and writing the output file. `Rc6.Run` takes the parsed direction, text and key, and returns the output bytes. The text labels ("plaintext: ", "ciphertext: ") and the hex formatting are not modelled.
- `print_vec`, `print_key_list`, `print_reg` and `print_output` only print to the console. `print_output` extracts bytes with the same expression as `write_output` (`Rc6.BlockBytes`).
- Floating point. `pow(2, 32)` and `log2(32)` are folded into constants: `% 2^32` becomes `bv32` wrap-around and the offset becomes `Words.LgW = 5`. The `% (int64_t)pow(2, 32)` after a `uint32_t` subtraction or multiplication leaves the value unchanged, since it is already below 2^32.
- Rotation by an offset whose low five bits are 0: `rotate_left` and `rotate_right` then shift a `uint32_t` by 32, which C++ leaves undefined. The model defines that case as the identity, which is what a rotation by 0 means (`Words.ShiftLeftCircular`, `Words.ShiftRightCircular`).
- Packing.PackKey: a key length that is not a multiple of 4 makes the source write past the end of `L`. The model requires b % 4 == 0.
- Rc6.ValidKey: a key shorter than 4 bytes makes `L_Len` zero, and `j % L_Len` divides by zero. The model requires at least 4 bytes.
- Packing.LoadRegisters: more than 16 text bytes index past `reg[4]`. The model requires at most 16.
- KeySchedule.KeySchedule: the round-count parameter `r` of `key_schedule` is never used in its body, so it is dropped. The two arrays are required to be distinct, as they are in `main`.
- The two loops of `key_schedule` are split out as the methods `FillMagicTable` and `MixStep`. `KeySchedule.KeySchedule` calls them in the source's order.
- The two identical packing loops (in `main` and in `load_registers`) are one method, `Packing.PackBytes`, called by both.
- The `delete[]` of `L` and `S` at the end of `main` is not modelled: Dafny arrays are not freed explicitly. Their allocation is modelled as fresh zero-initialised arrays.
- KeySchedule.MagicTableClosedForm: states entry i as P32 plus i additions of Q32, not as the product i * Q32 mod 2^32; the two agree, but a proof about 32-bit multiplication is beyond what the solver does within its budget.
- No known-answer test vector is computed. The model proves structural properties and the inverse relations, not concrete ciphertexts.

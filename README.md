# CTS-3 ciphertext stealing and PKCS #7 padding, modelled in Dafny

This project models two small packages of a Go cryptography library.

**`cts`: the CTS-3 (Kerberos) ciphertext-stealing block mode.**
- It is CBC built on a block cipher of block size `n`. It encrypts and decrypts any message longer than one block and returns a ciphertext of exactly the message's length.
- The encrypter runs standard CBC over all blocks but the last. It stores the last CBC block one place further on. Go's `copy` cuts that block to the space left in `dst`.
- The encrypter then zero-pads the final, partial block, chains and encrypts it, and writes the result into the place before.
- The decrypter runs CBC decryption over all blocks but the last two. It then rebuilds the stolen block from the transmitted tail and the decryption of the block before it.
- The two directions end on different chaining values. The encrypter ends on ciphertext block `numBlocks-2`; the decrypter, as written, on the rebuilt block. The model shows the difference on a concrete input and also gives a decrypter that ends on block `numBlocks-2` (see "Findings").

**`pkcs7`: PKCS #7 padding, section 6.3 of RFC 5652.**
- `PadLen` computes the padding length.
- `Pad` appends padding.
- `UnPad` strips as many bytes as the last byte says.
- `UnPadCheck` also checks every padding byte, with an or-accumulator loop.

The model follows the code's own form:
- **The mode state is a class.** `Cts` holds the block cipher and its chaining value `iv` and scratch blocks `tmp` and `tmp2`, which are arrays. `CtsEncrypter` and `CtsDecrypter` wrap it.
- **Each `CryptBlocks` is a method.** Its loop and every `copy`, xor loop and cipher call are statements on those arrays and on `dst`.
- **Methods are proved against functions.** Each `CryptBlocks` is proved against the functions in `CtsSpec`:
  - `Encrypt`, the ciphertext, and `EncryptLayout`, every byte written to `dst`;
  - `Decrypt`;
  - `EncryptNextIV`, `DecryptNextIV` and `FinalInput`, the chaining value and scratch contents left behind;
  - `Penultimate`, ciphertext block `numBlocks-2`, which the corrected decrypter ends on.
- **What is proved about those functions:**
  - each direction undoes the other;
  - the decrypter is plain CBC decryption over all blocks but the last two, followed by the last two;
  - for a whole number of blocks, the ciphertext is plain CBC with its last two blocks exchanged;
  - the block count and tail computed with `/` and `%` describe the message.
- **The cipher is a parameter.** It is a value `Cipher`: a block size and two functions on blocks. `Invertible` and `Surjective` are the hypotheses of the round trips.
- **PKCS #7 is mixed, as the source is.**
  - `PadLen` and `UnPad` are functions.
  - `Pad` and `UnPadCheck` are methods with the source's loops.
  - `UnPadCheck`'s accumulator is an eight-bit value. Every operand is below 256, so it holds what Go's `int` holds.

**Behaviours the contracts pin down:**
- **Panics.** Both `CryptBlocks` panic on a message of at most one block, then on an output shorter than the input, and before writing anything. They succeed exactly when neither applies.
- **Encrypter writes past the message.** When `dst` is longer than `src` and the last block is partial, the encrypter writes as much of the stolen block as fits in `dst`. That is at most `n - tail` bytes beyond `len(src)`, so at most `n - 1`. The decrypter writes exactly `len(src)` bytes.
- **The padding round trip.** Pad then unpad, checked or not, gives back the message for every block size from 1 to 255.
- **Block size 256 breaks the round trip.** `byte(256)` is zero.

## Model

| member | source | states |
|---|---|---|
| Bytes.Copy | cts/cts.go:84-87 | Go's `copy(dst[off:], src)`: returns `min(len(dst)-off, len(src))` and overwrites exactly those bytes of `dst` with the first bytes of `src`; every other byte is unchanged |
| Bytes.Load | cts/cts.go:77 | `copy(x.tmp, src[i*bs:])` with enough input fills the whole block with the first `len(tmp)` source bytes |
| Bytes.Clone | cts/cts.go:34 | `bytes.Clone`: a fresh array with the same contents |
| Bytes.XorInto | cts/cts.go:141-143 | the loop `dst[off+j] ^= iv[j]` xors the mask into that block of `dst` and changes no other byte |
| Bytes.XorBlock | cts/cts.go:78-80 | the loop `tmp[j] ^= iv[j]` leaves `tmp` xored with the mask |
| BlockCipher.EncryptBlock | cts/cts.go:81 | `b.Encrypt(dst[off:], src)` writes the encryption of the first block of `src` at `off` and nothing else |
| BlockCipher.DecryptBlock | cts/cts.go:140 | `b.Decrypt(dst[off:], src)` writes the decryption of the first block of `src` at `off` and nothing else |
| Cbc.CbcEncrypt | cts/cts.go:75-89 | standard CBC encryption keeps the length |
| Cbc.CbcChain | cts/cts.go:75-89 | the chaining value after standard CBC encryption is one block long |
| Cbc.CbcDecrypt | cts/cts.go:138-145 | standard CBC decryption keeps the length |
| Cbc.DecryptChain | cts/cts.go:138-145 | the chaining value after standard CBC decryption is one block long |
| Cbc.CbcChainIsLastBlock | cts/cts.go:75-89 | after standard CBC the chaining value is the last ciphertext block |
| Cbc.CbcRoundTrip | cts/cts.go:75-89 | CBC decryption undoes CBC encryption when the cipher is invertible |
| Cbc.CbcDecryptRoundTrip | cts/cts.go:138-145 | CBC encryption undoes CBC decryption when the cipher is a permutation |
| Cbc.CbcDecryptChainAgrees | cts/cts.go:138-145 | re-encrypting a CBC decryption ends on the chaining value the decryption ended on |
| CtsSpec.NumBlocks | cts/cts.go:59-66 | the block count is the quotient or one more, is zero only for the empty message, and its blocks cover the message |
| CtsSpec.Tail | cts/cts.go:59-66 | the last block holds between 1 and `n` bytes, and for a non-empty message no more than the message |
| CtsSpec.LastStart | cts/cts.go:92 | the start of the last block is a block boundary strictly below the length and at most one block below it |
| CtsSpec.BlockCount | cts/cts.go:59-66 | `tail` is in `1..n`, `(numBlocks-1)*n + tail == len(src)`, `numBlocks` is the length divided by `n` rounded up, and `numBlocks >= 2` exactly when the message is longer than one block |
| CtsSpec.LastStartIsLastBlock | cts/cts.go:59-66 | the offset `(numBlocks-1)*blockSize` is the start of the last block, and `tail` is its length |
| CtsSpec.ModeBlocks | cts/cts.go:59-70 | the panic test `numBlocks < 2` rejects exactly the messages of at most one block; otherwise block `numBlocks-1` starts the last block |
| CtsSpec.ExactMultiple | cts/cts.go:62-66 | for a length of exactly `k` blocks there are `k` blocks and the last one is full (`tail = blockSize`) |
| CtsSpec.StolenBlock | cts/cts.go:75-89 | the CBC output for block `numBlocks-2`, the block stolen from, is one block long |
| CtsSpec.FinalInput | cts/cts.go:91-98 | the zero-padded final block xored with the stolen block is one block long |
| CtsSpec.EncryptNextIV | cts/cts.go:99 | the encrypter's final IV, the encryption of the final input, is one block long |
| CtsSpec.EncryptLayout | cts/cts.go:75-100 | the bytes written to `dst` cover the message and reach less than one block beyond it |
| CtsSpec.Encrypt | cts/cts.go:75-100 | the ciphertext is exactly as long as the message |
| CtsSpec.Rebuilt | cts/cts.go:148-152 | the rebuilt block is one block long |
| CtsSpec.FinalOutput | cts/cts.go:161-164 | the final output block is one block long |
| CtsSpec.DecryptNextIV | cts/cts.go:159 | the decrypter's final IV, the rebuilt block, is one block long |
| CtsSpec.Decrypt | cts/cts.go:138-165 | the plaintext is exactly as long as the ciphertext |
| CtsSpec.Penultimate | cts/cts.go:148 | ciphertext block `numBlocks-2` is one block long |
| CtsSpec.PenultimateAt | cts/cts.go:148 | ciphertext block `numBlocks-2` is the block just before the start of the last block |
| CtsSpec.PenultimateBlock | cts/cts.go:148 | with the mode's block count, block `numBlocks-2` starts at `(numBlocks-2)*blockSize` and ends within the message |
| CtsSpec.NextIVMismatch | cts/cts.go:159 | with one-byte identity blocks, IV `[0]` and message `[1, 2]`, the encrypter ends on `[3]` and the decrypter, given the ciphertext `[3, 1]`, on `[1]` |
| CtsSpec.DecryptIsCbcThenLastTwo | cts/cts.go:138-165 | before the last two blocks the plaintext is CBC decryption, and the last two are decrypted from the chaining value CBC ends on; the final IV depends on the last two blocks alone |
| CtsSpec.EncryptIsLayoutPrefix | cts/cts.go:84-100 | the ciphertext is the bytes written, cut to the message length |
| CtsSpec.EncryptNextIVIsPenultimate | cts/cts.go:96-100 | the encrypter's final IV is ciphertext block `numBlocks-2` |
| CtsSpec.EncryptIsSwappedCbc | cts/cts.go:75-100 | the layout written is CBC over the zero-padded message with the last two blocks exchanged, and the final IV is CBC's final chaining value |
| CtsSpec.EncryptExactMultiple | cts/cts.go:75-100 | for a message of `k >= 2` whole blocks the ciphertext is plain CBC with the last two blocks exchanged |
| CtsSpec.RoundTripLast | cts/cts.go:147-165 | on the last two blocks, decryption gives back the plaintext and ends on the stolen block |
| CtsSpec.RoundTrip | cts/cts.go:58-166 | the decrypter gives back any plaintext longer than a block from the encrypter's ciphertext under the same IV, and ends on the block the encrypter stole from |
| CtsSpec.DecryptRoundTripLast | cts/cts.go:91-100 | on the last two blocks, encrypting a decryption gives back the ciphertext |
| CtsSpec.DecryptRoundTrip | cts/cts.go:58-166 | when the cipher is a permutation, the encrypter gives back any ciphertext from the decrypter's output, and steals from the block the decrypter rebuilt |
| CtsMode.Cts.constructor | cts/cts.go:30-38 | `newCTS`: a private copy of the IV and two zeroed scratch blocks; the state is well formed exactly when the IV is one block long |
| CtsMode.Cts.ChainEncrypt | cts/cts.go:78-81 | `tmp` becomes `tmp xor iv` and `iv` its encryption |
| CtsMode.Cts.EncryptStore | cts/cts.go:77-88 | one loop round of the encrypter: `tmp` becomes the next block xored with the chaining value, the chaining value becomes its encryption, and that is stored at the given offset |
| CtsMode.Cts.DecryptChain | cts/cts.go:140-143 | the block of `dst` at `off` becomes the decryption of the input block xored with `iv`; nothing else in `dst` changes |
| CtsMode.Cts.PadLast | cts/cts.go:92-95 | `tmp` holds the final `tail` bytes followed by zeros |
| CtsMode.Cts.EncryptLast | cts/cts.go:92-100 | `tmp` is the zero-padded final block xored with `iv`, `iv` becomes its encryption, and that is written in the place of block `numBlocks-2` |
| CtsMode.Cts.RebuildLast | cts/cts.go:148-152 | `tmp` is the decryption of block `numBlocks-2`; `tmp2` is the transmitted tail followed by the rest of that decryption |
| CtsMode.Cts.DecryptRebuilt | cts/cts.go:155-159 | the rebuilt block is decrypted, chained into block `numBlocks-2` of `dst`, and becomes `iv` |
| CtsMode.Cts.FinishLast | cts/cts.go:162-165 | `tmp` is xored with `iv`, and its first `tail` bytes are the end of the output |
| CtsMode.Cts.DecryptLast | cts/cts.go:147-165 | the last two blocks: `dst` gets the decrypted rebuilt block and the first `tail` bytes of the final output, and `iv` is left equal to the rebuilt block |
| CtsMode.CountStart | cts/cts.go:59-76 | before the loop, the message holds at least two blocks, and the offsets and remaining length of the loop's counting hold for block 0 |
| CtsMode.CountStep | cts/cts.go:76 | moving to the next block keeps the offset and remaining length in step with `i` |
| CtsMode.EncryptStart | cts/cts.go:75-76 | the encrypter's loop invariant holds before the first round |
| CtsMode.EncryptRound | cts/cts.go:82-84 | a round storing a standard CBC block keeps the loop invariant |
| CtsMode.CbcEncryptStep | cts/cts.go:82-84 | the CBC block written ahead of the remaining layout extends the output written so far |
| CtsMode.EncryptStolen | cts/cts.go:85-88 | the round that stores the last CBC block one block further on keeps the loop invariant |
| CtsMode.EncryptFinish | cts/cts.go:91-100 | after the final block, `dst` holds the whole layout, its first `len(src)` bytes are the ciphertext, and `iv` and `tmp` are the final IV and final input |
| CtsMode.DecryptStart | cts/cts.go:138-139 | the decrypter's loop invariant holds before the first round |
| CtsMode.DecryptRound | cts/cts.go:139-145 | a round of CBC decryption keeps the loop invariant |
| CtsMode.CbcStep | cts/cts.go:140-144 | the block decrypted in place extends the plaintext written so far |
| CtsMode.LastTwo | cts/cts.go:147-165 | the plaintext is the CBC part followed by the decrypted rebuilt block and the first `tail` bytes of the final output |
| CtsMode.DecryptFinish | cts/cts.go:147-165 | after the last two blocks, `dst` holds exactly the plaintext and `iv` the rebuilt block |
| CtsMode.CtsEncrypter.CryptBlocks | cts/cts.go:58-101 | it panics with `InputTooShort` on at most one block, then with `OutputTooSmall`, changing nothing. Otherwise `dst` is written with exactly the ciphertext layout, `dst[:len(src)]` is the ciphertext, and `iv` and `tmp` are the final IV and final input |
| CtsMode.CtsEncrypter.CbcBlocks | cts/cts.go:75-89 | after the loop, the first `numBlocks-2` CBC blocks are in place and the last CBC block is one place further on |
| CtsMode.CtsEncrypter.LastBlock | cts/cts.go:91-100 | the final block completes the ciphertext layout and leaves its encryption as the IV |
| CtsMode.CtsDecrypter.CryptBlocks | cts/cts.go:121-166 | the same panics. Otherwise `dst` holds the plaintext and nothing beyond it, `iv` and `tmp2` are the rebuilt block, and `tmp` is the final output block |
| CtsMode.CtsDecrypter.CbcBlocks | cts/cts.go:138-145 | after the loop, the first `numBlocks-2` blocks are CBC-decrypted in place, and the plaintext still to come is the decryption of the last two blocks under the current `iv` |
| CtsMode.CtsDecrypter.LastBlocks | cts/cts.go:147-165 | the last two blocks complete the plaintext and leave the rebuilt block as the IV |
| CtsMode.CtsEncrypter.constructor | cts/cts.go:40 | the encrypter view of a mode state |
| CtsMode.CtsDecrypter.constructor | cts/cts.go:103 | the decrypter view of a mode state |
| CtsMode.NewCtsEncrypter | cts/cts.go:45-50 | fails exactly when the IV is not one block long; otherwise a fresh, well-formed state over a copy of the IV |
| CtsMode.NewCtsDecrypter | cts/cts.go:108-113 | likewise for the decrypter |
| CtsMode.EncryptThenDecrypt | cts/cts.go:30-38 | encrypting with one instance and decrypting with another built from the same IV gives back the message, because each instance clones the IV; with the corrected decrypter both instances end on the encrypter's final IV |
| CtsMode.CtsDecrypter.CryptBlocksChained | cts/cts.go:121-166 | the corrected decrypter: the same panics, the same plaintext and scratch blocks, and `iv` is ciphertext block `numBlocks-2` |
| CtsMode.CtsDecrypter.ChainPenultimate | cts/cts.go:159 | the corrected chaining step: `iv` becomes ciphertext block `numBlocks-2` |
| Pkcs7.GoRem | pkcs7/padding.go:22 | Go's `%`: the remainder has the sign of the dividend, is smaller in magnitude than the divisor, differs from the dividend by a multiple of the divisor, and is Euclid's for non-negative operands |
| Pkcs7.ToByte | pkcs7/padding.go:35 | `byte(padLen)` is `padLen` modulo 256 |
| Pkcs7.PadLen | pkcs7/padding.go:21-28 | `paddedLen = length + padLen`. For a length and a positive block size: `1 <= padLen <= blockSize`, and `paddedLen` is the next multiple of the block size strictly above `length` |
| Pkcs7.PadLenNeverZero | pkcs7/padding.go:22-25 | the `padLen == 0` branch is dead for every length and non-zero block size |
| Pkcs7.PadLenUnique | pkcs7/padding.go:21-28 | any multiple of the block size strictly above `length` and at most one block above it is `paddedLen` |
| Pkcs7.Padded | pkcs7/padding.go:31-39 | the padded string keeps `buf` as its prefix, has the padded length, and every appended byte is `byte` of the padding length |
| Pkcs7.Pad | pkcs7/padding.go:31-39 | the append loop returns exactly the padded string |
| Pkcs7.PaddedShape | pkcs7/padding.go:31-39 | for block sizes 1 to 255, the padded length is a multiple of the block size and at most one block more. The last byte, and every padding byte, is the padding length |
| Pkcs7.UnPad | pkcs7/padding.go:43-52 | fails exactly on an empty buffer or a last byte larger than the length. Otherwise it returns the prefix that is shorter by the value of the last byte |
| Pkcs7.PaddingValid | pkcs7/padding.go:58-77 | a valid padding by `UnPadCheck`'s test is one `UnPad` accepts |
| Pkcs7.UnPadCheck | pkcs7/padding.go:58-77 | succeeds exactly when the buffer is non-empty, the last byte `k` is at most the length, and the last `k` bytes all equal `k`; on success its result is `UnPad`'s |
| Pkcs7.OrXorZero | pkcs7/padding.go:68-74 | the accumulator stays zero exactly while every byte seen equals the padding length |
| Pkcs7.UnPadPad | pkcs7/padding.go:31-52 | unpadding a padded string gives back the original for block sizes 1 to 255 |
| Pkcs7.PaddedValid | pkcs7/padding.go:31-77 | a padded string passes `UnPadCheck`'s test for block sizes 1 to 255 |
| Pkcs7.WideBlockBreaksRoundTrip | pkcs7/padding.go:35 | with block size 256 the empty message pads to 256 zero bytes, which unpad to themselves |
| Pkcs7.ZeroPadAccepted | pkcs7/padding.go:62-76 | a buffer ending in a zero byte passes `UnPadCheck`'s test and `UnPad` returns it whole |
| Pkcs7.UnPadCheckStrict | pkcs7/padding.go:58-77 | the corrected check: succeeds exactly on valid paddings whose last byte is not zero, agrees with `UnPad` then, and always removes at least one byte |
| Pkcs7.PaddedStrictValid | pkcs7/padding.go:31-77 | a padded string passes the corrected check for block sizes 1 to 255 |
| Pkcs7.PadRoundTrip | pkcs7/padding_test.go:60-95 | `Pad` followed by `UnPad`, `UnPadCheck` or the corrected check gives back the message |

## Left out

- The block cipher: AES, or any `cipher.Block`, is not modelled. The mode takes a value `Cipher` with a positive block size and two functions that map blocks to blocks. The round trips assume it is invertible, or a permutation.
- `blockSize` field: it is `b.size`, the cipher's own `BlockSize()`, which `newCTS` stores.
- `BlockSize` accessors: not modelled (cts/cts.go:52-55, 115-118). They only return that field.
- Interface assertions: not modelled (cts/cts.go:17-20). They are compile-time only.
- Overlapping buffers: `src` is an immutable byte sequence, so the model does not cover a `dst` that overlaps `src`, such as in-place use. `dst` must be distinct from the mode's private `iv`, `tmp` and `tmp2`. Those are always fresh copies, so no caller can pass them.
- Panics: a Go panic is the result `Panic(error)`. The model states that nothing was changed, since every panic comes before the first write. `NewCTSEncrypter` and `NewCTSDecrypter` panics are a `Failure` result.
- Loop offsets: the offset `i*x.blockSize` is kept in a running offset and the remaining message. `Mul` and `CountStep` relate them to the block index.
- The tests of `cts/cts_test.go`: not modelled. They compare against AES vectors, which need the real cipher.
- CtsMode.CtsEncrypter.CbcBlocks: leaves `tmp` unspecified. `PadLast` overwrites all of it before it is read again, and `CryptBlocks` states its final contents.
- CtsMode.CtsDecrypter.CryptBlocks: models the decrypter as written, ending on the rebuilt block. `CryptBlocksChained` is the corrected variant.
- Pkcs7.PadLen: Go's `int` is 64 bits wide; the model's integers are unbounded. It does not model overflow of `length + padLen`, which cannot happen for the length of a real slice.
- Pkcs7.PadLen, Pkcs7.Padded, Pkcs7.Pad: a zero block size makes Go panic on the division. The model makes it a precondition.
- Pkcs7.Pad, Pkcs7.UnPad, Pkcs7.UnPadCheck: the model works on byte sequences. It does not model that `append` may reuse the spare capacity of `buf`, or that the unpadded result shares the argument's backing array.

## Findings

| source | as written | input that shows it | evidently intended | confidence | as-written member | corrected member |
|---|---|---|---|---|---|---|
| pkcs7/padding.go:62-76 | a last byte of 0 gives a padding length of 0. The check loop runs no rounds and the whole buffer is returned as unpadded data (`UnPad`, pkcs7/padding.go:47-51, does the same) | `[0x00]`, or any non-empty buffer ending in `0x00` | reject it: a PKCS #7 padding is 1 to 255 bytes, so the function documented as checking the padding against PKCS #7 should refuse a zero length | medium, not executed | Pkcs7.ZeroPadAccepted | Pkcs7.UnPadCheckStrict |
| cts/cts.go:159 | the decrypter leaves `iv` equal to the rebuilt block `tmp2`. The encrypter leaves it equal to ciphertext block `numBlocks-2` (cts/cts.go:99-100), so after a round trip the two instances hold different chaining values | one-byte identity blocks, IV `[0]`, message `[1, 2]`: ciphertext `[3, 1]`, encrypter IV `[3]`, decrypter IV `[1]` | end on ciphertext block `numBlocks-2`, as CBC decryption ends on the last ciphertext block it consumed, so that both directions carry the same chaining value into a further call | low, not executed | CtsSpec.NextIVMismatch | CtsMode.CtsDecrypter.CryptBlocksChained |

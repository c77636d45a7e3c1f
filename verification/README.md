# Verified models of the pilot cryptography, the CAN transmit path and the ping checksum

This project models four parts of the seL4 CAmkES VM examples in Dafny and proves them correct:

1. **AES-GCM** (`aeslib`): that the ring GF(2^128) is built on is a field; its multipliers on packed
   32-bit words with all four table layouts, the incremental hashing and counter mode, the tag, and
   whole-message encryption and decryption, against NIST SP 800-38D. The block cipher is an arbitrary function on blocks, so every
   statement holds for every key, and every test of pointer alignment is an arbitrary boolean, so both
   branches are proved. The configuration is the one the sources select: LB representation, 32-bit
   little-endian units, 4K tables, 64-bit length arithmetic.
2. **AES-128** (`aeslib`): table rounds, both key schedules with the shortcut for decryption, and the
   equivalent inverse cipher, against FIPS 197 on bytes.
3. **The package protocol** (`commsec.c`): the context as a class on caller memory, and a state machine
   on values with its guarantees over whole runs, ending in delivery from sender to receiver. Its two
   directions are keyed with the AES model.
4. **The CAN transmit path** (`queue.c`, `irq.c`, `dev.c`) as a concurrent state machine in which every
   load of an index by a test, every move of an index, every copy of a frame and every lock and unlock is
   a step, and **the Internet checksum** (`ping_client.c`).

Code that updates memory is modelled by methods on arrays and by classes, each proved against a
specification function; the laws of those functions are lemmas.

## How the files fit together

| files | contents |
|---|---|
| `Bytes`, `Octets` | byte buffers, 32-bit units, bytes as numbers |
| `Gf128`, `LbBlocks` | the field as polynomials; blocks as field elements |
| `GfMulLo`, `GfTables`, `Gf128Mul` | multiplication by x, x^4, x^8; table entries; the five multipliers |
| `GfSquare`, `GfIdempotent`, `GfField` | squares; elements that are their own square; inverses and products that vanish |
| `GcmSpec`, `GcmHash`, `GcmAuth`, `GcmCrypt`, `GcmTag`, `Gcm` | NIST SP 800-38D; deferred hashing; text; tag; the context |
| `GcmLaws` | counters, key stream, hashed strings, tag and sealing in bytes and numbers |
| `AesField`, `AesWords`, `AesSpec`, `AesRounds`, `AesKey`, `AesCrypt` | S-boxes; columns and tables; FIPS 197; rounds; schedules; the contexts |
| `AesBytes` | key expansion and cipher byte by byte |
| `CommsecSpec`, `CommsecRuns`, `CommsecDelivery`, `Commsec` | protocol on values; runs; delivery; the context on memory |
| `CommsecWire`, `CommsecExact` | packages in bytes and numbers; when exactly each call succeeds |
| `CanRing`, `CanQueue`, `CanConcurrent`, `CanTransmit`, `CanRuns`, `CanAccount` | circular buffers; sequential and concurrent queues; the handler; whole runs; what a run did and that it can go on |
| `Checksum`, `ChecksumLaws` | the code against one's complement arithmetic; its laws |

## Where the code and its promises part

- The bit length of an IV goes through a 32-bit variable, so the first counter block of section 7.1 of
  NIST SP 800-38D is computed exactly for IVs below 2^29 bytes, or under the hash key zero
  (`GcmTag.CodeJ0Exact`).
- The number of text blocks is computed in 32 bits, so a text total above 2^32 - 16 bytes gets another
  tag than the standard's, unless the hash key is 0 or 1 of the field or the padded header hashes to
  zero, as no header and a header of zero bytes do; the tag is right exactly then
  (`GcmTag.WrappedCountExact`, `GcmTag.CodeTagExact`). A header of one nonzero block always fails under
  the other hash keys (`GcmTag.OneBlockHeaderFails`).
- An empty message is encrypted without complaint, but its package is one byte too short for the
  receiver (`CommsecDelivery.OpenPackage`).
- An odd last byte is added with its own value, not as the first byte of a padded word, so the bytes
  stored depend on the byte order of the host unless that byte is zero (`ChecksumLaws.ByteOrderIff`); a
  sum that overflows 32 bits makes them differ as well (`ChecksumLaws.ByteOrderExact`).
- `gcm_decrypt_message` leaves the decrypted text in the buffer when the tag is wrong
  (`Gcm.GcmCtx.DecryptMessage`), and so does `securePkg_dec` (`Commsec.CommsecCtx.Dec`).
- RFC 1071 asks that the sum not overflow; the verification law holds even when it does
  (`ChecksumLaws.StoredChecksumVerifies`), the exact value does not (`ChecksumLaws.ExactIff`,
  `ChecksumLaws.SafeLengthIsTight`).

## Model

| member | source | states |
|---|---|---|
| Gf128.MulIsProductModulo | apps/Arm/odroid_vm/components/pilot/src/aeslib/gf128mul.h:27-31 | an element is a remainder of the polynomial product of a and b by x^128 + x^7 + x^2 + x + 1 if and only if it is the field product: the product every multiplier below is measured against exists and is unique |
| Gf128.MulComm | apps/Arm/odroid_vm/components/pilot/src/aeslib/gf128mul.c:56-90 | the product is commutative |
| Gf128.MulAssoc | apps/Arm/odroid_vm/components/pilot/src/aeslib/gf128mul.c:56-90 | the product is associative |
| Gf128.MulDistributes | apps/Arm/odroid_vm/components/pilot/src/aeslib/gf128mul.c:56-90 | the product distributes over XOR |
| Gf128.PowSquare | apps/Arm/odroid_vm/components/pilot/src/aeslib/gcm.c:404-413 | h^(2n) is (h * h)^n, the identity behind each turn of the squaring loop |
| GfSquare.SquareAt | apps/Arm/odroid_vm/components/pilot/src/aeslib/gf128mul.c:56-90 | every coefficient of a square, as an explicit sum of coefficients of its root |
| GfSquare.SquareZero | apps/Arm/odroid_vm/components/pilot/src/aeslib/gf128mul.h:27-31 | no element but zero has square zero |
| GfIdempotent.Idempotent | apps/Arm/odroid_vm/components/pilot/src/aeslib/gf128mul.h:27-31 | only 0 and 1 are their own squares |
| GfField.Inverse | apps/Arm/odroid_vm/components/pilot/src/aeslib/gf128mul.h:27-31 | every element but zero has an inverse |
| GfField.ProductZero | apps/Arm/odroid_vm/components/pilot/src/aeslib/gf128mul.h:27-31 | a product is zero if and only if a factor is, so the ring of the modulus is a field |
| Gf128.ShiftAndAddIsMul | apps/Arm/odroid_vm/components/pilot/src/aeslib/gf128mul.c:56-90 | the bit-serial shift-and-add form of section 6.3 of NIST SP 800-38D computes the same product |
| LbBlocks.BlockOfPolyOf | apps/Arm/odroid_vm/components/pilot/src/aeslib/gf128mul.h:94-95 | reading a block as a polynomial in the LB bit order and writing it back is the identity |
| LbBlocks.PolyOfBlockOf | apps/Arm/odroid_vm/components/pilot/src/aeslib/gf128mul.h:94-95 | and the other way round: blocks and field elements are in bijection |
| LbBlocks.PolyOfXor | apps/Arm/odroid_vm/components/pilot/src/aeslib/gf128mul.c:56-90 | XOR of blocks is addition of polynomials |
| GfMulLo.ShiftIsTimesX | apps/Arm/odroid_vm/components/pilot/src/aeslib/gf_mul_lo.h:157-175 | moving the bytes of a block by 1, 4 or 8 bit places and adding the entry of gf_tab for what falls out multiplies by x, x^4 and x^8; each further place is one more multiplication by x |
| GfMulLo.MulX1 | apps/Arm/odroid_vm/components/pilot/src/aeslib/gf_mul_lo.h:548-557 | on packed 32-bit units, the result is x times the operand, also when both are the same buffer |
| GfMulLo.MulX4 | apps/Arm/odroid_vm/components/pilot/src/aeslib/gf_mul_lo.h:559-568 | in place, the block is multiplied by x^4 |
| GfMulLo.MulX8 | apps/Arm/odroid_vm/components/pilot/src/aeslib/gf_mul_lo.h:570-579 | in place, the block is multiplied by x^8 |
| Gf128Mul.MulTMD | apps/Arm/odroid_vm/components/pilot/src/aeslib/gf128mul.c:56-90 | the bit-serial multiplier leaves the field product in a, also when a and b are one buffer |
| Gf128Mul.Init4k | apps/Arm/odroid_vm/components/pilot/src/aeslib/gf128mul.c:334-357 | entry b of the table is the generator times the polynomial of byte b, for all 256 bytes |
| Gf128Mul.Mul4k | apps/Arm/odroid_vm/components/pilot/src/aeslib/gf128mul.c:372-385 | with that table the product with the generator is left in a: the same product as MulTMD |
| Gf128Mul.Init256 | apps/Arm/odroid_vm/components/pilot/src/aeslib/gf128mul.c:411-441 | the sixteen-entry table holds the generator times every 4-bit polynomial |
| Gf128Mul.Mul256 | apps/Arm/odroid_vm/components/pilot/src/aeslib/gf128mul.c:456-469 | the nibble-wise multiplier computes the same product |
| Gf128Mul.Init64k | apps/Arm/odroid_vm/components/pilot/src/aeslib/gf128mul.c:107-174 | row i of the sixteen holds x^(8 i) times the generator times every byte |
| Gf128Mul.Mul64k | apps/Arm/odroid_vm/components/pilot/src/aeslib/gf128mul.c:193-206 | the sum of one entry from each row is the same product |
| Gf128Mul.Init8k | apps/Arm/odroid_vm/components/pilot/src/aeslib/gf128mul.c:220-278 | row i of the thirty-two holds the generator times every 4-bit polynomial at its place |
| Gf128Mul.Mul8k | apps/Arm/odroid_vm/components/pilot/src/aeslib/gf128mul.c:297-312 | the sum of one entry from each of the 32 rows is the same product |
| Bytes.XorBlockAligned | apps/Arm/odroid_vm/components/pilot/src/aeslib/mode_hdr.h:228-237 | four 32-bit steps XOR sixteen bytes |
| GcmSpec.GhashConcat | apps/Arm/odroid_vm/components/pilot/src/aeslib/gcm.c:394-417 | the hash of two strings of whole blocks is the first hash times h^n plus the second, n being the number of blocks of the second |
| GcmSpec.GctrInvolution | apps/Arm/odroid_vm/components/pilot/src/aeslib/gcm.c:320-379 | counter-mode encryption twice from the same first counter block restores the text |
| GcmSpec.GctrConcat | apps/Arm/odroid_vm/components/pilot/src/aeslib/gcm.c:320-379 | encrypting in pieces, each with its own offset, is encrypting the whole |
| GcmSpec.OpenSeal | apps/Arm/odroid_vm/components/pilot/src/aeslib/gcm.c:511-546 | what GCM-AE produced passes the tag test of GCM-AD and decrypts to the text it came from |
| GcmLaws.CounterValue | apps/Arm/odroid_vm/components/pilot/src/aeslib/gcm.c:97-98 | counter block n of a message keeps the first twelve bytes, and the number in its last four is that of the first block plus n modulo 2^32 |
| GcmLaws.CountersDistinct | apps/Arm/odroid_vm/components/pilot/src/aeslib/gcm.c:343-375 | two counter blocks of a message are equal if and only if their numbers agree modulo 2^32 |
| GcmLaws.GctrAt | apps/Arm/odroid_vm/components/pilot/src/aeslib/gcm.c:343-375 | byte i of a piece of text is XORed with byte (offset + i) mod 16 of the encryption of that block which has the first twelve bytes of J0 and the number of J0 plus 1 plus (offset + i) / 16 |
| GcmLaws.MaskApart | apps/Arm/odroid_vm/components/pilot/src/aeslib/gcm.c:343-375 | the block that masks the tag is none of the first 2^32 - 1 that encrypt text |
| GcmLaws.Be64Value | apps/Arm/odroid_vm/components/pilot/src/aeslib/gcm.c:445-453 | the eight bytes of a length, most significant first, are its value modulo 2^64 |
| GcmLaws.TagStringIs | apps/Arm/odroid_vm/components/pilot/src/aeslib/gcm.c:391-472 | a byte string is the one hashed for the tag if and only if it is header and text, each filled up with zeros to whole blocks, then the number of header bits and that of text bits in eight bytes each |
| GcmLaws.IvStringIs | apps/Arm/odroid_vm/components/pilot/src/aeslib/gcm.c:175-195 | and the one hashed for an IV if and only if it is the IV filled up to whole blocks, eight zero bytes and the bit length in eight bytes |
| GcmLaws.J0OfTwelve | apps/Arm/odroid_vm/components/pilot/src/aeslib/gcm.c:170-174 | an IV of twelve bytes is followed by the number 1 in four bytes, in the code and in the standard |
| GcmLaws.J0OfOthers | apps/Arm/odroid_vm/components/pilot/src/aeslib/gcm.c:175-195 | the first counter block of any other IV is the hash of the string so characterised |
| GcmTag.OneBlockHash | apps/Arm/odroid_vm/components/pilot/src/aeslib/gcm.c:263-317 | the hash of one block is its product with the hash key; with GhashConcat this determines the hash of every string |
| GcmLaws.TagUnderZeroKey | apps/Arm/odroid_vm/components/pilot/src/aeslib/gcm.c:474-478 | under the hash key zero the tag is E(J0), whatever header and text are, in the code and in the standard |
| GcmLaws.TagMasks | apps/Arm/odroid_vm/components/pilot/src/aeslib/gcm.c:474-478 | under every hash key, tags of the same data from two first counter blocks differ by the XOR of their encryptions |
| GcmLaws.TagIs | apps/Arm/odroid_vm/components/pilot/src/aeslib/gcm.c:391-478 | the tag XOR E(J0) is the GHASH of the string characterised in TagStringIs |
| GcmLaws.AcceptedIffSealed | apps/Arm/odroid_vm/components/pilot/src/aeslib/gcm.c:528-546 | ciphertext and tag pass the tag test if and only if they are the sealing of some text, and that text is what decryption gives |
| GcmLaws.SealedTag | apps/Arm/odroid_vm/components/pilot/src/aeslib/gcm.c:511-526 | the tag of a sealing is the beginning of the XOR of E(J0) and the hash, under E(0), of header, ciphertext and lengths |
| GcmLaws.SealedText | apps/Arm/odroid_vm/components/pilot/src/aeslib/gcm.c:511-526 | each byte of its text is the XOR of a byte of the message and of the counter block characterised in GctrAt |
| GcmHash.AccIsGhash | apps/Arm/odroid_vm/components/pilot/src/aeslib/gcm.c:206-318 | an accumulator that holds all bytes but still owes its last multiplication becomes, by that multiplication, the GHASH of the zero-padded bytes |
| GcmAuth.MulHH | apps/Arm/odroid_vm/components/pilot/src/aeslib/gcm.c:132-161 | the table multiplier for the hash key |
| GcmAuth.Absorb | apps/Arm/odroid_vm/components/pilot/src/aeslib/gcm.c:206-261 | through either alignment branch, the accumulator of s becomes the accumulator of s followed by the new data |
| GcmCrypt.IncCtr | apps/Arm/odroid_vm/components/pilot/src/aeslib/gcm.c:97-98 | the carry loop is inc32 of section 6.2 of NIST SP 800-38D: the last four bytes count modulo 2^32, the first twelve stay |
| GcmCrypt.Crypt | apps/Arm/odroid_vm/components/pilot/src/aeslib/gcm.c:320-379 | through either alignment branch, exactly the given bytes are replaced, byte j of the message by its XOR with byte j mod 16 of E(inc32^(1 + j/16)(J0)) |
| GcmTag.MulPower | apps/Arm/odroid_vm/components/pilot/src/aeslib/gcm.c:394-414 | square-and-multiply leaves a * h^n for every n > 0, and ends |
| GcmTag.AddLengths | apps/Arm/odroid_vm/components/pilot/src/aeslib/gcm.c:445-453 | the loop adds the text hash and the block of the two 64-bit bit lengths, header length first |
| GcmTag.JoinHashes | apps/Arm/odroid_vm/components/pilot/src/aeslib/gcm.c:391-472 | header hash times h^(number of text blocks), plus text hash and lengths, times h, is the GHASH of the whole string A, C, lengths of section 7.1 of NIST SP 800-38D |
| GcmTag.IvLengthExact | apps/Arm/odroid_vm/components/pilot/src/aeslib/gcm.c:191-194 | the length hashed for an IV is the standard's if and only if the IV is shorter than 2^29 bytes |
| GcmTag.CodeJ0Exact | apps/Arm/odroid_vm/components/pilot/src/aeslib/gcm.c:163-204 | for every hash key and every IV below 2^32 bytes, the first counter block is the standard's if and only if the IV is shorter than 2^29 bytes or the hash key is zero |
| GcmTag.AddIvLength | apps/Arm/odroid_vm/components/pilot/src/aeslib/gcm.c:191-193 | the bits of the IV length are added as a 128-bit block, most significant byte first |
| GcmTag.HashIv | apps/Arm/odroid_vm/components/pilot/src/aeslib/gcm.c:175-195 | an IV of any length other than 12 bytes is hashed with its padding and length |
| GcmTag.FirstCounter | apps/Arm/odroid_vm/components/pilot/src/aeslib/gcm.c:168-195 | ctr_val becomes the first counter block, for IVs of 12 bytes and of every other length |
| GcmTag.FinishHash | apps/Arm/odroid_vm/components/pilot/src/aeslib/gcm.c:391-472 | from the two deferred accumulators the header accumulator becomes the joined hash, with the number of text blocks as the code counts it, in all four cases of empty and non-empty header and text |
| GcmTag.CodeHashIsGhash | apps/Arm/odroid_vm/components/pilot/src/aeslib/gcm.c:394-414 | that is the GHASH of the whole string when there is no header or the text has at most 2^32 - 16 bytes |
| GcmTag.WrappedCountExact | apps/Arm/odroid_vm/components/pilot/src/aeslib/gcm.c:396 | for text totals above 2^32 - 16 and below 2^32 bytes the 32-bit block count is zero, and the hash is the standard's if and only if the hash key is 0 or 1 of the field or the padded header hashes to zero |
| GcmTag.CodeHashExact | apps/Arm/odroid_vm/components/pilot/src/aeslib/gcm.c:391-472 | for every hash key, header and text total below 2^32 bytes, the hash is the GHASH of the whole string if and only if the text has at most 2^32 - 16 bytes, the hash key is 0 or 1, or the padded header hashes to zero |
| GcmTag.CodeTagExact | apps/Arm/odroid_vm/components/pilot/src/aeslib/gcm.c:391-481 | the same condition decides whether the tag is the standard's, under every block cipher |
| GcmTag.OneBlockHeaderFails | apps/Arm/odroid_vm/components/pilot/src/aeslib/gcm.c:394-414 | under every hash key but 0 and 1, a nonzero header of one block and any text above 2^32 - 16 bytes get another tag than the standard's |
| GcmTag.RestoreJ0 | apps/Arm/odroid_vm/components/pilot/src/aeslib/gcm.c:474-476 | the saved last word and the first twelve bytes of the running counter rebuild J0 |
| Gcm.GcmCtx.constructor | apps/Arm/odroid_vm/components/pilot/src/aeslib/gcm.c:100-129 | a new context is keyed: H is E(0) and its 4K table is right for H |
| Gcm.GcmCtx.InitMessage | apps/Arm/odroid_vm/components/pilot/src/aeslib/gcm.c:163-204 | from any state left behind, a message starts with its own J0 and empty histories |
| Gcm.GcmCtx.AuthHeader | apps/Arm/odroid_vm/components/pilot/src/aeslib/gcm.c:206-261 | the header history grows by the data and the accumulator follows it, so any split into calls ends in the same state |
| Gcm.GcmCtx.AuthData | apps/Arm/odroid_vm/components/pilot/src/aeslib/gcm.c:263-318 | the same for the ciphertext |
| Gcm.GcmCtx.CryptData | apps/Arm/odroid_vm/components/pilot/src/aeslib/gcm.c:320-379 | the key stream continues where the last call stopped, and no other byte of the buffer changes |
| Gcm.GcmCtx.ComputeTag | apps/Arm/odroid_vm/components/pilot/src/aeslib/gcm.c:381-481 | error, warning and good status exactly as the two text counts compare; otherwise the leading bytes of the joined hash XOR E(J0), which is the tag GHASH(A, C, lengths) XOR E(J0) of the standard if and only if the text has at most 2^32 - 16 bytes, the hash key is 0 or 1, or the padded header hashes to zero |
| Gcm.GcmCtx.WriteTag | apps/Arm/odroid_vm/components/pilot/src/aeslib/gcm.c:391-478 | the part behind the status test: hash, E(J0) and tag bytes |
| Gcm.GcmCtx.EncryptJ0 | apps/Arm/odroid_vm/components/pilot/src/aeslib/gcm.c:474-476 | enc_ctr becomes E(J0), however far the counter has run |
| Gcm.GcmCtx.MergeTag | apps/Arm/odroid_vm/components/pilot/src/aeslib/gcm.c:477-478 | the tag bytes, and only they, are written |
| Gcm.GcmCtx.EncryptMessage | apps/Arm/odroid_vm/components/pilot/src/aeslib/gcm.c:490-526 | always good; text and tag in memory are those of GCM-AE for the given IV, header and message, also when both lie in one buffer |
| Gcm.GcmCtx.DecryptMessage | apps/Arm/odroid_vm/components/pilot/src/aeslib/gcm.c:501-546 | good if and only if the given tag is the recomputed one; the buffer is decrypted either way |
| Gcm.EncryptThenDecrypt | apps/Arm/odroid_vm/components/pilot/src/aeslib/gcm.c:511-546 | in one context or in two under the same cipher, each in any state, with text and tag in one buffer or two, decrypting what was encrypted returns good and leaves nothing changed but the tag |
| AesField.InvSBoxSBox | apps/Arm/odroid_vm/components/pilot/src/aeslib/aestab.c:30-96 | the inverse S-box table undoes the S-box table on every byte |
| AesField.SBoxInvSBox | apps/Arm/odroid_vm/components/pilot/src/aeslib/aestab.c:30-96 | and the other way round: both tables are permutations |
| AesField.SBoxIsAffineOfInverse | apps/Arm/odroid_vm/components/pilot/src/aeslib/aestab.c:30-62 | the S-box table is the affine map of the field inverse, section 5.1.1 of FIPS 197 |
| AesWords.InvMixMix | apps/Arm/odroid_vm/components/pilot/src/aeslib/aestab.c:143-151 | InvMixColumns of a column undoes MixColumns, for all 2^32 columns |
| AesWords.InvMixLinear | apps/Arm/odroid_vm/components/pilot/src/aeslib/aeskey.c:142-149 | InvMixColumns of a sum of words is the sum of the results |
| AesWords.TablesOfMix | apps/Arm/odroid_vm/components/pilot/src/aeslib/aestab.c:143-146 | one entry from each of the four forward tables adds up to MixColumns of the four looked-up bytes |
| AesWords.TablesOfInvMix | apps/Arm/odroid_vm/components/pilot/src/aeslib/aestab.c:148-151 | one entry from each of the four inverse tables adds up to InvMixColumns |
| AesWords.TablesOfBytes | apps/Arm/odroid_vm/components/pilot/src/aeslib/aestab.c:138-141 | the last-round tables assemble a word from four bytes |
| AesSpec.InvMixMixColumns | apps/Arm/odroid_vm/components/pilot/src/aeslib/aescrypt.c:186-291 | InvMixColumns undoes MixColumns on the state of FIPS 197 |
| AesSpec.InvCipherCipher | apps/Arm/odroid_vm/components/pilot/src/aeslib/aescrypt.c:92-291 | for every schedule of 44 words, the inverse cipher of section 5.3 of FIPS 197 undoes the cipher of section 5.1 |
| AesRounds.FwdRound | apps/Arm/odroid_vm/components/pilot/src/aeslib/aescrypt.c:68-90 | a round by tables is SubBytes, ShiftRows, MixColumns and AddRoundKey on bytes |
| AesRounds.FwdLastRound | apps/Arm/odroid_vm/components/pilot/src/aeslib/aescrypt.c:85-90 | the last round leaves MixColumns out |
| AesRounds.InvRoundWords | apps/Arm/odroid_vm/components/pilot/src/aeslib/aescrypt.c:186-216 | an inverse round by tables is InvShiftRows, InvSubBytes, InvMixColumns and then the key |
| AesRounds.InvLastRoundWords | apps/Arm/odroid_vm/components/pilot/src/aeslib/aescrypt.c:210-216 | the last inverse round leaves InvMixColumns out |
| AesRounds.InvMixColumnsOfSum | apps/Arm/odroid_vm/components/pilot/src/aeslib/aeskey.c:142-149 | InvMixColumns moves past AddRoundKey if it transforms the key |
| AesSpec.ShiftRowsAt | apps/Arm/odroid_vm/components/pilot/src/aeslib/aescrypt.c:68-72 | row r of column c comes from column c + r |
| AesBytes.CipherBytes | apps/Arm/odroid_vm/components/pilot/src/aeslib/aescrypt.c:92-157 | every byte of every round: the input XOR the first round key; 2, 3, 1, 1 times the substituted bytes of the diagonal, XOR the round key; and a last round without the factors |
| AesKey.LsBoxIsSubRot | apps/Arm/odroid_vm/components/pilot/src/aeslib/aesopt.h:723-726 | ls_box(x, 3) is SubWord of RotWord |
| AesBytes.KeyBytes | apps/Arm/odroid_vm/components/pilot/src/aeslib/aeskey.c:66-98 | byte r of key word n: the key itself for n below 4; otherwise byte r of word n - 4 XOR byte r of word n - 1, which at every fourth word is byte r + 1 mod 4, passed through the S-box, with the constant 01, 02, .., 1b, 36 added in byte 0 |
| AesKey.RcIsPower | apps/Arm/odroid_vm/components/pilot/src/aeslib/aestab.c:132-134 | the round constants are the powers of x |
| AesKey.ExpandStep | apps/Arm/odroid_vm/components/pilot/src/aeslib/aeskey.c:66-71 | the words of section 5.2 of FIPS 197 obey the recurrence of the schedule macros, four at a time |
| AesKey.InvMcolIsInvMix | apps/Arm/odroid_vm/components/pilot/src/aeslib/aesopt.h:713-714 | inv_mcol is InvMixColumns of a word |
| AesKey.NextRegisters | apps/Arm/odroid_vm/components/pilot/src/aeslib/aeskey.c:135-162 | with four words and the next round's term, one addition turns the registers (sum of all four, b + d, c + d, d) into those of the next four words |
| AesKey.Roll | apps/Arm/odroid_vm/components/pilot/src/aeslib/aeskey.c:139-157 | before and after step i the four registers hold the sums for words 4i .. 4i + 3 and 4i + 4 .. 4i + 7; the register of the step holds word 4i + 7 |
| AesKey.Ke4 | apps/Arm/odroid_vm/components/pilot/src/aeslib/aeskey.c:66-71 | four more words of the key expansion |
| AesKey.EncryptKey128 | apps/Arm/odroid_vm/components/pilot/src/aeslib/aeskey.c:73-98 | the context holds the 44 words of section 5.2 of FIPS 197 |
| AesKey.Kdf4 | apps/Arm/odroid_vm/components/pilot/src/aeslib/aeskey.c:135-145 | the registers are set up and the first computed round key is in place, transformed |
| AesKey.Kd4 | apps/Arm/odroid_vm/components/pilot/src/aeslib/aeskey.c:147-154 | from round key i, already transformed, comes round key i + 1, transformed, and the registers stay in step |
| AesKey.Kdl4 | apps/Arm/odroid_vm/components/pilot/src/aeslib/aeskey.c:156-162 | the last round key, untransformed, is recovered from the registers alone |
| AesKey.K4e | apps/Arm/odroid_vm/components/pilot/src/aeslib/aeskey.c:126-131 | four more words, stored last round first |
| AesKey.DecryptKey128 | apps/Arm/odroid_vm/components/pilot/src/aeslib/aeskey.c:189-220 | the shortcut builds the round keys last first, with InvMixColumns on all but the outer two |
| AesKey.DecryptKey128Plain | apps/Arm/odroid_vm/components/pilot/src/aeslib/aeskey.c:207-214 | the plain loop with InvMixColumns in place builds the same schedule |
| AesCrypt.EqInvCipherIsInvCipher | apps/Arm/odroid_vm/components/pilot/src/aeslib/aescrypt.c:230-291 | with transformed keys the reordered rounds are the inverse cipher, section 5.3.5 of FIPS 197 |
| AesCrypt.FwdRnd | apps/Arm/odroid_vm/components/pilot/src/aeslib/aescrypt.c:44-79 | one round from array to array, against the byte-wise layers |
| AesCrypt.FwdLastRnd | apps/Arm/odroid_vm/components/pilot/src/aeslib/aescrypt.c:82-90 | the last round from array to array |
| AesCrypt.InvRnd | apps/Arm/odroid_vm/components/pilot/src/aeslib/aescrypt.c:186-207 | one inverse round from array to array |
| AesCrypt.InvLastRnd | apps/Arm/odroid_vm/components/pilot/src/aeslib/aescrypt.c:210-216 | the last inverse round from array to array |
| AesCrypt.StateIn | apps/Arm/odroid_vm/components/pilot/src/aeslib/aescrypt.c:31-42 | the loaded words are the block with the first round key added |
| AesCrypt.StateOut | apps/Arm/odroid_vm/components/pilot/src/aeslib/aescrypt.c:32-43 | the stored bytes are the block of the four words |
| AesCrypt.DecryptUndoesEncrypt | apps/Arm/odroid_vm/components/pilot/src/aeslib/aescrypt.c:92-291 | for every key and block, decryption with the schedule of aes_decrypt_key128 undoes encryption with that of aes_encrypt_key128 |
| AesCrypt.EncryptRounds | apps/Arm/odroid_vm/components/pilot/src/aeslib/aescrypt.c:105-156 | ten rounds between two local arrays compute the cipher of FIPS 197, for every schedule |
| AesCrypt.DecryptRounds | apps/Arm/odroid_vm/components/pilot/src/aeslib/aescrypt.c:241-287 | the same for the equivalent inverse cipher |
| AesCrypt.AesCtx.EncryptKey | apps/Arm/odroid_vm/components/pilot/src/aeslib/aeskey.c:73-98 | schedule and round count after keying for encryption |
| AesCrypt.AesCtx.DecryptKey | apps/Arm/odroid_vm/components/pilot/src/aeslib/aeskey.c:189-220 | schedule and round count after keying for decryption |
| AesCrypt.AesCtx.Encrypt | apps/Arm/odroid_vm/components/pilot/src/aeslib/aescrypt.c:92-160 | 0 and the enciphered block, also in place; -1 and nothing written without a keyed context |
| AesCrypt.AesCtx.Decrypt | apps/Arm/odroid_vm/components/pilot/src/aeslib/aescrypt.c:230-291 | 0 and the deciphered block, also in place; -1 and nothing written without a keyed context |
| AesCrypt.EncryptThenDecrypt | apps/Arm/odroid_vm/components/pilot/src/aeslib/aescrypt.c:92-291 | keying two contexts alike and encrypting, then decrypting in place restores every block |
| CommsecSpec.ReadBe32 | apps/Arm/odroid_vm/components/pilot/src/aeslib/commsec.c:91-98 | the four bytes of a station id or counter read back as that number |
| CommsecSpec.IvInjective | apps/Arm/odroid_vm/components/pilot/src/aeslib/commsec.c:53-64 | under one salt and station, IVs with different counters differ |
| CommsecWire.IvIs | apps/Arm/odroid_vm/components/pilot/src/aeslib/commsec.c:52-64 | twelve bytes are the IV if and only if they are salt, station id and counter as four-byte numbers, most significant byte first |
| CommsecWire.WireHeader | apps/Arm/odroid_vm/components/pilot/src/aeslib/commsec.c:52-74 | a package has sixteen bytes more than its message and starts with the numbers of station and counter |
| CommsecWire.WireText | apps/Arm/odroid_vm/components/pilot/src/aeslib/commsec.c:52-74 | byte 8 + i of a package is byte i of the message XOR byte i mod 16 of the encryption of the block of salt, station, counter and 2 + i / 16 |
| CommsecWire.WireTag | apps/Arm/odroid_vm/components/pilot/src/aeslib/commsec.c:52-74 | its last eight bytes are the beginning of the hash of the ciphertext and its length under E(0), XOR the encryption of the block of salt, station, counter and 1 |
| CommsecRuns.RefusedChangesNothing | apps/Arm/odroid_vm/components/pilot/src/aeslib/commsec.c:27-134 | a refused call, of any kind, leaves all counters as they were |
| CommsecRuns.SentInRun | apps/Arm/odroid_vm/components/pilot/src/aeslib/commsec.c:40-76 | in every run, each package is the sealed message under the run's own key, salt and station and a counter that is at least the starting one and below the maximum: the counter never wraps |
| CommsecRuns.SentCountersGrow | apps/Arm/odroid_vm/components/pilot/src/aeslib/commsec.c:47-65 | the counters of the packages of a run strictly increase |
| CommsecRuns.IvsDistinct | apps/Arm/odroid_vm/components/pilot/src/aeslib/commsec.c:53-65 | no two encryptions in a run use the same IV, section 8.2.1 of NIST SP 800-38D |
| CommsecRuns.AcceptedInRun | apps/Arm/odroid_vm/components/pilot/src/aeslib/commsec.c:99-130 | a package is accepted only from a known station and above the counter on record |
| CommsecRuns.AcceptedCountersGrow | apps/Arm/odroid_vm/components/pilot/src/aeslib/commsec.c:99-130 | the counters accepted from one station strictly increase over every run, so nothing is accepted twice |
| CommsecRuns.ZeroErases | apps/Arm/odroid_vm/components/pilot/src/aeslib/commsec.c:139-157 | securePkg_zero leaves an erased context |
| CommsecRuns.NothingRemains | apps/Arm/odroid_vm/components/pilot/src/aeslib/commsec.c:139-157 | two contexts are the same once they are erased, whatever they held |
| CommsecRuns.EraseIsFinal | apps/Arm/odroid_vm/components/pilot/src/aeslib/commsec.c:139-157 | in an erased context no later call encrypts or accepts anything |
| CommsecRuns.NothingAfterZero | apps/Arm/odroid_vm/components/pilot/src/aeslib/commsec.c:139-157 | in every run, no call after a securePkg_zero encrypts or accepts anything |
| CommsecDelivery.OpenPackage | apps/Arm/odroid_vm/components/pilot/src/aeslib/commsec.c:79-134 | an intact package is accepted if and only if its message is not empty, its station is below 16 and its counter is above the record, and then the message comes back; an empty message is always refused for its length |
| CommsecExact.Verdict | apps/Arm/odroid_vm/components/pilot/src/aeslib/commsec.c:79-134 | each return code for every context and every byte string, if and only if: too short; station out of range; counter not above the record; otherwise success when the string is the package that key and salt make of some message, which is then the message recovered, and failure of authentication when it is no such package |
| CommsecExact.Buffered | apps/Arm/odroid_vm/components/pilot/src/aeslib/commsec.c:115-130 | the buffer afterwards: with a plausible header the message whose package has the same header and ciphertext, tag right or wrong; otherwise as it was |
| CommsecExact.AcceptedAreGenuine | apps/Arm/odroid_vm/components/pilot/src/aeslib/commsec.c:79-134 | in every run, whatever is accepted was the package that the receiver's key and salt make of the message, station and counter reported |
| CommsecExact.SendsNext | apps/Arm/odroid_vm/components/pilot/src/aeslib/commsec.c:40-76 | in every run without erasure, a message is sent if and only if it has at most 512 bytes and the counter has room, and its counter is the starting one plus the number of packages sent before |
| CommsecExact.RecordIsLast | apps/Arm/odroid_vm/components/pilot/src/aeslib/commsec.c:126-129 | in every run without erasure, the record of a station is the counter of the last package accepted from it |
| CommsecExact.FreshRun | apps/Arm/odroid_vm/components/pilot/src/aeslib/commsec.c:11-25 | from initialisation on, packages are numbered from 1 and records start at 0 |
| CommsecDelivery.Delivery | apps/Arm/odroid_vm/components/pilot/src/aeslib/commsec.c:40-134 | whatever the sender did and whichever of its packages arrive in order, the receiver recovers every non-empty message |
| CommsecDelivery.FreshDelivery | apps/Arm/odroid_vm/components/pilot/src/aeslib/commsec.c:11-134 | the same from two freshly initialised contexts: all accepted, all recovered |
| CommsecDelivery.ReceivedAmidTraffic | apps/Arm/odroid_vm/components/pilot/src/aeslib/commsec.c:79-134 | the station's packages are all received, in order, among any other calls and packages that are not themselves accepted as that station's |
| Commsec.CommsecCtx.Init | apps/Arm/odroid_vm/components/pilot/src/aeslib/commsec.c:11-25 | counters at 1 and 0, both directions keyed with AES under the raw keys |
| Commsec.KeyedCipherUndone | apps/Arm/odroid_vm/components/pilot/src/aeslib/commsec.c:16-17 | the cipher of either direction is undone by the inverse cipher of FIPS 197 under the same key |
| Commsec.CommsecCtx.Enc | apps/Arm/odroid_vm/components/pilot/src/aeslib/commsec.c:40-76 | the return code, the new counter and all of memory, with ciphertext, tag and header in their places |
| Commsec.CommsecCtx.EncInPlace | apps/Arm/odroid_vm/components/pilot/src/aeslib/commsec.c:27-38 | the package stands in one piece around the place of the message; below 8 bytes of room nothing happens |
| Commsec.CommsecCtx.Dec | apps/Arm/odroid_vm/components/pilot/src/aeslib/commsec.c:79-134 | the return code, the record and the buffer of the state machine, for packages of every length and content |
| Commsec.CommsecCtx.Zero | apps/Arm/odroid_vm/components/pilot/src/aeslib/commsec.c:139-157 | keys gone, counters at the maximum; the invariant then shows that no later call touches a missing key |
| Commsec.SendAndReceive | apps/Arm/odroid_vm/components/pilot/src/aeslib/commsec.c:27-134 | a package built in place by one context and opened in place by another with matching key and salt gives the message back and puts the counter on record |
| CanRing.TestsAreExact | apps/Arm/odroid_vm/components/can/src/queue.c:26-35 | the full test means size - 1 frames, the empty test none |
| CanRing.Appended | apps/Arm/odroid_vm/components/can/src/queue.c:38-42 | moving tail past a filled slot appends its frame to the contents |
| CanRing.Removed | apps/Arm/odroid_vm/components/can/src/queue.c:45-49 | moving head removes exactly the oldest frame |
| CanRing.CopyIsInvisible | apps/Arm/odroid_vm/components/can/src/queue.c:38-42 | a frame copied to the slot at tail is not part of the contents before tail moves |
| CanQueue.MqCb.constructor | apps/Arm/odroid_vm/components/can/src/queue.c:74-83 | an initialised control block is an empty queue |
| CanQueue.MqCb.IsFull | apps/Arm/odroid_vm/components/can/src/queue.c:26-29 | true exactly at size - 1 frames |
| CanQueue.MqCb.IsEmpty | apps/Arm/odroid_vm/components/can/src/queue.c:32-35 | true exactly at no frames |
| CanQueue.MqCb.Append | apps/Arm/odroid_vm/components/can/src/queue.c:38-42 | the frame joins the end of the queue and no slot outside its half is written |
| CanQueue.MqCb.Remove | apps/Arm/odroid_vm/components/can/src/queue.c:45-49 | the frame that leaves is the oldest one |
| CanQueue.MqInit | apps/Arm/odroid_vm/components/can/src/queue.c:56-84 | two empty queues over the halves of one allocation |
| CanQueue.MqCb.Push | apps/Arm/odroid_vm/components/can/src/queue.c:95-107 | 0 and the frame appended, or -1 and nothing changed at size - 1 frames; no slot outside the queue's half is written |
| CanQueue.MqCb.Pop | apps/Arm/odroid_vm/components/can/src/queue.c:120-132 | the oldest frame, or none exactly when the queue is empty |
| CanConcurrent.QueueRefines | apps/Arm/odroid_vm/components/can/src/queue.c:95-132 | one queue by itself: its invariant survives every step, the two loads of a test being steps of their own in either order, and the step is one of the FIFO, taking effect when tail or head moves or when a test that fails loads the other side's index |
| CanConcurrent.TestOutcomes | apps/Arm/odroid_vm/components/can/src/queue.c:26-35 | a test goes on or gives up exactly as the queue was full, or empty, at its load of the end that the other side moves, be that its first load or its second |
| CanConcurrent.StepRefines | apps/Arm/odroid_vm/components/can/src/queue.c:26-180 | with one pusher and one popper to a queue, every step of every interleaving keeps the invariant, is one step of a FIFO of capacity size - 1 and leaves the queue in the other half alone |
| CanConcurrent.SafeRuns | apps/Arm/odroid_vm/components/can/src/queue.c:86-180 | in every run what went in is what came out followed by what is queued, at most size - 1 frames are queued, and pusher and popper are never both inside the lock |
| CanConcurrent.NeverStuck | apps/Arm/odroid_vm/components/can/src/queue.c:95-132 | inside a push or a pop there is always a next step, unless it is to take a lock that the other side holds, and the holder of the lock has one |
| CanTransmit.TransmitMessage | apps/Arm/odroid_vm/components/can/src/irq.c:113-141 | frames leave the queue in order into the flagged buffers, lowest first, until one of the two runs out; exactly the loaded buffers are requested, and transmission is stopped exactly when a flagged buffer was left without a frame |
| CanTransmit.SetBitsAre | apps/Arm/odroid_vm/components/can/src/irq.c:122-123 | the buffers visited are exactly the flagged ones, each once, lowest first |
| CanRuns.PushMove | apps/Arm/odroid_vm/components/can/src/dev.c:53-61 | every step of a push by can_send, failed tests and retries included, keeps the account of the frames passed to it |
| CanRuns.PopMove | apps/Arm/odroid_vm/components/can/src/irq.c:122-136 | every step of a pop by the handler keeps the account of the frames taken and loaded |
| CanRuns.MoveKeeps | apps/Arm/odroid_vm/components/can/src/irq.c:113-141 | every move of sender, handler and receive side keeps the invariant of the transmit path |
| CanRuns.TransmitInOrder | apps/Arm/odroid_vm/components/can/src/dev.c:53-61 | in every run the loaded frames, the one in hand, the queue and the one being pushed are together the frames of the calls of can_send in the run, each once and in order; every handler run loaded the lowest of its flagged buffers and requested exactly those |
| CanAccount.SystemRun | apps/Arm/odroid_vm/components/can/src/queue.c:86-132 | the queues move exactly as the queue steps among the moves of a run take them |
| CanAccount.RunAccount | apps/Arm/odroid_vm/components/can/src/irq.c:113-141 | in every run the handler runs, finished or not, were given the flags of the interrupts in order, every load of a buffer is on record, and as many handler runs left a flagged buffer empty as pops found the TX queue empty |
| CanAccount.CanGoOn | apps/Arm/odroid_vm/components/can/src/irq.c:113-141 | no deadlock: sender and handler can always go on, except to wait for the lock the other one holds, and then the other one can go on |
| CanAccount.HandlerEnds | apps/Arm/odroid_vm/components/can/src/irq.c:113-141 | in no run does the handler make more than 32 moves for each interrupt, whatever the others do in between |
| Checksum.OnesSumIsRep | apps/Arm/vm_virtio_net/components/PingClient/ping_client.c:35-46 | adding words with end-around carry gives the representative of their plain sum modulo 65535, zero only for zero |
| Checksum.FoldedIsRep | apps/Arm/vm_virtio_net/components/PingClient/ping_client.c:45-47 | two folds bring every 32-bit sum to that representative |
| Checksum.OneCompChecksum | apps/Arm/vm_virtio_net/components/PingClient/ping_client.c:30-48 | the loop returns the complement of the representative of the word sum kept in 32 bits, for every non-empty buffer, odd lengths included |
| ChecksumLaws.WordsAre | apps/Arm/vm_virtio_net/components/PingClient/ping_client.c:35-43 | word k of a buffer is two bytes in the byte order of the host, or the last byte alone |
| ChecksumLaws.ExactIff | apps/Arm/vm_virtio_net/components/PingClient/ping_client.c:30-48 | the result is the complement of the one's complement sum of RFC 1071 if and only if the plain sum is below 2^32 |
| ChecksumLaws.SafeSum | apps/Arm/vm_virtio_net/components/PingClient/ping_client.c:30-48 | up to 65537 words the plain sum is below 2^32 |
| ChecksumLaws.SafeLengthIsTight | apps/Arm/vm_virtio_net/components/PingClient/ping_client.c:30-48 | 65538 words ff ff overflow the accumulator, and the result is not the complement of their one's complement sum |
| ChecksumLaws.StoredChecksumVerifies | apps/Arm/vm_virtio_net/components/PingClient/ping_client.c:158-164 | the result stored in its zeroed field at an even offset makes the recomputation return 0, for buffers of every length |
| ChecksumLaws.FillChecksum | apps/Arm/vm_virtio_net/components/PingClient/ping_client.c:158-164 | zero, compute, store: afterwards the region checks to 0 and no other byte has changed |
| ChecksumLaws.ByteOrderExact | apps/Arm/vm_virtio_net/components/PingClient/ping_client.c:30-48 | for buffers of every length, the stored bytes are the same on hosts of either byte order if and only if both 32-bit sums are zero or neither is, and 255 times an odd last byte, plus the carries lost from the little-endian sum, less 256 times those lost from the big-endian sum, is a multiple of 65535 |
| ChecksumLaws.ByteOrderIff | apps/Arm/vm_virtio_net/components/PingClient/ping_client.c:39-43 | for buffers of 1 to 131074 bytes that is: if and only if the length is even or the last byte is zero |
| ChecksumLaws.LongEvenDiffers | apps/Arm/vm_virtio_net/components/PingClient/ping_client.c:35-38 | beyond that an even length is not enough: 65794 pairs 00 ff get different bytes on the two kinds of host |
| ChecksumLaws.OddLengthDiffers | apps/Arm/vm_virtio_net/components/PingClient/ping_client.c:39-43 | the one-byte buffer 01 gets different bytes on the two kinds of host |
| ChecksumLaws.ExchangeKeeps | apps/Arm/vm_virtio_net/components/PingClient/ping_client.c:149-151 | exchanging two fields of even length at even offsets, as the reply does with its addresses, keeps the checksum |

## Left out

- Gcm.GcmCtx.AuthHeader: header totals of 2^32 bytes and more, for which the 32-bit count wraps; a single call of 2^32 - 16 bytes and more, for which the 32-bit loop bound cnt + 16 wraps and the source runs past its buffer.
- Gcm.GcmCtx.AuthData: the same for the ciphertext.
- Gcm.GcmCtx.CryptData: the same for the text.
- Gcm.GcmCtx.EncryptMessage: a header or message of 2^32 - 16 bytes and more, for the same reason.
- Gcm.GcmCtx.DecryptMessage: a header or message of 2^32 - 16 bytes and more, for the same reason.
- GcmAuth.Absorb: the same bounds as AuthHeader.
- GcmCrypt.Crypt: the same bounds as CryptData.
- Gcm.GcmCtx.ComputeTag: tags of more than 16 bytes, the size of the hash.
- AesCrypt.AesCtx.Encrypt: contexts for 192- and 256-bit keys, which no function of this configuration builds and for which the schedule array is too short.
- AesCrypt.AesCtx.Decrypt: the same contexts.
- Checksum.OneCompChecksum: the empty buffer, for which the source's unsigned length - 1 wraps and the loop leaves the buffer; lengths of 2^31 and more, which the int index does not reach.
- Commsec.CommsecCtx.Zero: the bytes that overwrite the erased GCM contexts; the model drops the contexts instead.
- Commsec.CommsecCtx.Enc: memory is one array and the three regions do not overlap.
- CanConcurrent.StepRefines: more than one pusher or more than one popper on a queue, which the tests outside the lock do not support.
- CanQueue.MqInit: failure of malloc.
- CanAccount.HandlerEnds: turns of the loop that waits for a lock or for the controller to release a buffer; they are not moves.
- CanRuns.TransmitInOrder: whether every accepted frame is eventually sent, which depends on further interrupts; xmit_stopped and its lock, the wait before a buffer is reloaded and the restart in start_xmit are not part of the model.
- The eight X_m tests of gf_mulTMD and the unrolled table loops are written as calls with the bit or row number as an argument.
- Other byte orders, unit sizes and field representations of gf_mul_lo.h, and gf_convert.c: not in the active configuration.
- The length loop without 64-bit arithmetic, the alternative exponentiation and the dynamic tables of aes_init: compiled out.
- controller.c, the receive half of the interrupt handler beyond its queue steps, SPI and other device code, virtqueues, and the ARP and ICMP field copying around the checksum.
- Secrecy, unforgeability and timing: not statements about what the code computes.

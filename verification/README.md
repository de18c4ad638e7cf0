# A verified model of the recovery updater

The recovery system updates a device in steps: a server checks partition tables and images and cuts the images into
numbered packages; the client checks an archive's whole-file signature, merges the image list into the partition
table, and writes the packages to raw flash, around bad blocks and around regions that must survive. This project
models the parts of it that carry the hard guarantees, and proves them with Dafny. `dafny verify dfyconfig.toml`
checks everything.

- **Signatures.** `WordArith`, `Montgomery` and `Rsa` treat word arrays as numbers, for any word count. Accumulators
  have the types of 64-bit integers, so every proof that a sum is assignable is a proof that it does not overflow.
  `KeyFormat` and `KeyLoader` model the Java printer of key constants and the C parser, with fscanf's matching rules
  written out. `Pkcs1` encodes what a signature opens to, after RFC 8017 and X.690. `RsaChecks` and `Verifier` are
  the two signature checks and the check of a whole archive.
- **Digests.** `Bits` defines the operations on 32-bit words as functions on numbers. `BlockHash` is the streaming of
  64-byte blocks for an arbitrary compression function; `Sha1`, `Sha1Stream`, `Md5` and `Md5Stream` instantiate it.
  The contexts are classes whose methods update them in place. `WordBits` ties the word operations to bit vectors,
  `Sha1Functions`, `Sha1Machine` and `Md5Machine` tie the rounds to the standards and compute digests, and `PadDigest`
  computes the one in `rsa_e_f4.c`. `Crc` is the table-driven CRC-32.
- **Flash.** `Placement`, on top of `Division`, says where a stream lands when bad blocks are skipped, and counts good
  bytes. `Mtd` holds a partition's cells, bad marks and block map, the scan and the read. `Sysinfo`, `FlashErase` and
  `FlashWrite` add the reserved regions, erase and write; `FlashErrors`, `FlashLaws`, `ScanLaws` and `SysinfoFlag` are
  about device errors and their combinations, and `FlashFailures` holds inputs on which data is lost. Cells follow NAND
  rules: erasing sets bytes to 0xff, programming can only clear bits. Device errors are arbitrary functions of the
  block or page. `BadLimit` and `Ubi` are the block reserve and the placement of UBI eraseblocks.
- **Packages.** `PackServer`, `PackClient` and `PackAgreement`: checks, slicing and numbering on one side, merge and
  walk on the other, and their agreement. `UbiSlices` follows the slices of a ubifs image into a volume.
- **Lists.** `CircularList` is the intrusive list, with real pointers.

## Findings

- `mtd_basic_write` and `mtd_basic_read` look blocks up relative to the partition, scan and erase absolutely. Round
  trips hold anyway; that no block marked bad is touched holds exactly under the condition of `FlashLaws.NeverOnBad`,
  which partition 0 meets (`FlashLaws.LookupsDiffer` is a map that does not, `ScanLaws.ScanThenWrite` a scan and a
  write for partition 0).
- `mtd_basic_write` and `mtd_basic_read` report success with data left over exactly when too few good bytes lie behind
  the offset and the last block of the partition is good (`FlashLaws.ReadSucceeds`, `FlashLaws.WriteSucceeds`; an
  input is `FlashLaws.LeftOver`). A read at the very end of the partition succeeds with nothing read
  (`FlashLaws.ReadAtEnd`).
- After EIO on a page, `mtd_basic_write` erases the block and tries again in the next one, and loses data in three
  ways without an error. A padded page is copied from the pad buffer, which is erased first; a whole page that was
  merged with a saved region carries the region's bytes along. `FlashWrite.RetriedPage` says exactly when the page
  stays the same; inputs are `FlashFailures.LostByte` and `FlashFailures.StrayByte`. And pages that the write had put
  into the block before are not written again: it ends where its stream ends on the blocks still good exactly when
  every failing page is the first it put into its block (`FlashErrors.CursorTells`, with the input of
  `FlashFailures.LostPage`). When none of the three happens nothing is lost (`FlashErrors.SuccessfulWrite`).
- The final length test of `mtd_basic_erase` never fails (`FlashErase.NeverTooLong`); with too few good blocks the
  erase succeeds (`FlashErase.Erase`, with the input of `FlashFailures.ErasesNothing`).
- `mtd_basic_erase` starts at the partition start whatever the offset. A system information region is therefore erased
  before it is rewritten only in the first good eraseblock. In a later one the value is stored exactly when the old
  bytes had all its bits, and the first good block is erased and never restored, the regions that were reserved in it
  included (`SysinfoFlag.SetValueDev`, `SysinfoFlag.FlagRoundTrip`, with the input of
  `FlashFailures.FlagNotStored`).
- `sysinfo_write_flag` writes the whole region from its buffer and never reads the device first, so that on first use
  the bytes behind the flag become zero (`SysinfoFlag.FirstFlag`).
- `write_update_pkg` adds a fixed length to the write offset for the next piece of a file. For a leap as long as the
  piece, as on raw flash, the piece starts on a byte of the one before exactly when a bad block lies in between
  (`FlashLaws.PiecesOverlap`, with the input of `FlashLaws.SamePlaceTwice`); from one file to the next it goes on at
  the returned address, which continues the stream (`FlashLaws.WritesJoin`).
- `mtd_block_scan` in whole-partition mode returns one block too many exactly when fewer blocks count than are asked
  for (`Mtd.TooFewResult`, with the input of `Mtd.TwoOfOne`), and the size of one block when it starts behind the
  partition (`Mtd.Scan`).
- `ubi_write_one_peb` marks the block after the one whose erase failed as BAD in the block map, and not the failed one
  (`Ubi.TryPeb`, with the input of `Ubi.WrongEntry`).
- A failed `sysinfo_write_flag` leaves the flag region not reserved. It fails when the region lies outside the
  partition (`SysinfoFlag.FlagOutside`), and, with the region in a good block of a quiet device at block 0 whose
  reserved regions can be read, exactly when an earlier block is good and a reserved region of the same block was
  never saved (`SysinfoFlag.WriteFlag`).
- `verify_file` accepts a comment shorter than 240 bytes as long enough, and then takes signature bytes from memory in
  front of the record; signature starts below 6 wrap around and pass (`Verifier.FixedFrom240`,
  `Verifier.FooterOnlyReadsOutside`, `Verifier.LongEnough`).
- `MD5Update` reads beyond its input exactly for the lengths, a few bytes below 4 GiB, at which its loop test wraps
  (`Md5Stream.LoopSafeExactly`).
- A slice size below one block makes the server divide by zero (`PackServer.SliceSizeZero`).
- The merge reports success when it stops at an image that lies in no partition (`PackClient.Merge`,
  `PackClient.GapIsSilent`); it fails exactly at one that starts inside a partition and ends behind it
  (`PackClient.OverlapFails`).
- The server tests an image that starts in no partition against the last one. If it is accepted, the client's merge
  drops it and everything behind it, and the update succeeds without writing them (`PackAgreement.Update`, with the
  input of `PackAgreement.GapImageIsLost`).
- An image sliced into a single piece is packed as `<name>_001`, and the client looks for `<name>`: the update fails
  exactly when there is such an image (`PackAgreement.Update`, with the input of `PackAgreement.OneSliceIsLost`).

## Model

| member | source | states |
|---|---|---|
| `Montgomery.SubM` | client/recovery/lib/mincrypt/rsa_e_3.c:31-40 | Subtracts the modulus in place, modulo 2^(32 len): exact when the array is not below it |
| `Montgomery.GeM` | client/recovery/lib/mincrypt/rsa_e_3.c:42-51 | True exactly when the array is at least the modulus as a number |
| `Montgomery.MontMulAdd` | client/recovery/lib/mincrypt/rsa_e_3.c:53-76 | Both 64-bit accumulators fit, whatever the key; with the right n0inv, 2^32 c' = c + a b modulo n whether or not the subtraction happens |
| `Montgomery.MontMul` | client/recovery/lib/mincrypt/rsa_e_3.c:78-90 | For an output that is neither input and the right n0inv: R c = a b modulo n |
| `Rsa.WordsOfBytes` | client/recovery/lib/mincrypt/rsa_e_3.c:103-111 | Little-endian words with the value of the big-endian bytes |
| `Rsa.BytesOfWords` | client/recovery/lib/mincrypt/rsa_e_3.c:122-129 | Big-endian bytes with the value of the words |
| `Rsa.InverseOfB` | client/recovery/lib/mincrypt/rsa_e_3.c:59-61 | The n0inv condition alone makes 2^32 invertible modulo n, so the Montgomery form determines the product |
| `Rsa.Finish` | client/recovery/lib/mincrypt/rsa_e_3.c:117-120 | For usable keys, where R <= 2n, one comparison and one subtraction give the residue |
| `Rsa.ModPow3` | client/recovery/lib/mincrypt/rsa_e_3.c:95-130 | With the documented key constants leaves exactly x^3 mod n, for every word count; with others it still runs without overflow |
| `Rsa.ModPowF4` | client/recovery/lib/mincrypt/rsa_e_f4.c:96-134 | With the documented key constants leaves exactly x^65537 mod n: sixteen squarings in two buffers and one multiplication |
| `Rsa.RsaE3Verify` | client/recovery/lib/mincrypt/rsa_e_3.c:162-202 | For keys of another size or with right constants: 1 exactly when length and key checks pass and signature^3 mod n, as 256 bytes, is the EMSA-PKCS1-v1_5 encoding of the digest (section 9.2 of RFC 8017): 00 01, at least eight bytes ff, 00, and the DER of SHA-1's DigestInfo; for any key 1 only if the checks pass |
| `Pkcs1.DigestInfoBytes` | client/recovery/lib/mincrypt/rsa_e_3.c:154-156 | The DER of SEQUENCE { SEQUENCE { OID 1.3.14.3.2.26, NULL }, OCTET STRING sha }, from an encoder with computed lengths and base-128 arcs, byte by byte |
| `Rsa.EncodedIs` | client/recovery/lib/mincrypt/rsa_e_3.c:137-157 | The padding array followed by a digest is the EMSA-PKCS1-v1_5 encoding of that digest in 256 bytes, and nothing else is |
| `RsaChecks.RsaEF4Verify` | client/recovery/lib/mincrypt/rsa_e_f4.c:155-196 | The same for exponent 65537: 1 exactly when SHA-1 of the exponentiated block, with the digest xored out, is the fixed hash |
| `RsaChecks.MaskedEncoding` | client/recovery/lib/mincrypt/rsa_e_f4.c:180-186 | Xoring the digest out gives the EMSA-PKCS1-v1_5 encoding of zeros exactly when the block was that of the digest |
| `PadDigest.MessageDigest` | client/recovery/lib/mincrypt/rsa_e_f4.c:145-150 | The constant of the code is the SHA-1 digest of the encoding of zeros: five blocks, round by round |
| `RsaChecks.EncodedSigns` | client/recovery/lib/mincrypt/rsa_e_f4.c:180-195 | With exponent 3 or 65537 every correctly encoded signature is accepted |
| `RsaChecks.RsaVerify` | client/recovery/lib/mincrypt/rsa.c:40-54 | Dispatch on the exponent: nonzero only after that exponent's checks, and for keys with right constants exactly when they accept |
| `KeyFormat.Check` | tools/dump_publickey/DumpPublicKey.java:42-63 | The version of the key, or the reason for refusing it, by exponent and bit length |
| `KeyFormat.Print` | tools/dump_publickey/DumpPublicKey.java:70-127 | The text of the struct for a 2048-bit odd modulus; an even modulus is refused for want of an inverse |
| `KeyFormat.SmallKeyText` | tools/dump_publickey/DumpPublicKey.java:75-126 | The text of a key of two words, character by character, with and without the version mark |
| `KeyFormat.KeyIsUsable` | tools/dump_publickey/DumpPublicKey.java:75-92 | The printed n0inv and R^2 mod n meet every condition that the exponentiations need |
| `KeyLoader.ReadKey` | client/recovery/utils/verifier.c:228-261 | One entry of the file, matched conversion by conversion as fscanf does |
| `KeyLoader.LoadKeys` | client/recovery/utils/verifier.c:210-287 | The keys of a whole file, or null at the first mismatch, unexpected length or stray character |
| `KeyLoader.WhiteSpace` | client/recovery/utils/verifier.c:243-258 | The characters that white space in a format skips |
| `KeyLoader.AutoBase` | client/recovery/utils/verifier.c:243-249 | The bases of %i by prefix, digits of either case, and no match for a prefix without digits |
| `KeyLoader.ScanEmit` | client/recovery/utils/verifier.c:243-258 | fscanf inverts printf for every format whose text is unambiguous |
| `KeyLoader.ListingReadsBack` | client/recovery/utils/verifier.c:223-276 | Any printed list of keys is parsed back to exactly those keys |
| `KeyLoader.LoadedKeysAreWhole` | client/recovery/utils/verifier.c:230-247 | Every accepted key has full arrays and exponent 3 or 65537, unless its entry starts with neither brace nor v |
| `KeyLoader.DumpAll` | tools/dump_publickey/DumpPublicKey.java:129-148 | Succeeds exactly when there is a certificate and none is refused, and prints the whole listing; otherwise it has printed the lines, commas included, of the keys before the first refused one |
| `KeyLoader.PrintLoadRoundTrip` | tools/dump_publickey/DumpPublicKey.java:70-148 | For any list of certificates, loading what was printed gives usable keys with the same moduli and exponents |
| `Verifier.ReadFooter` | client/recovery/utils/verifier.c:58-85 | The footer is accepted exactly when its two middle bytes are 0xff and its first two, as a number, are not from 6 to 261 |
| `Verifier.WellFormedIs` | client/recovery/utils/verifier.c:58-112 | The tests in front of the marker search on the bytes of the file: footer, signature start, and a record that starts 22 bytes in front of the comment and is signed for 20 |
| `Verifier.ScanMarkers` | client/recovery/utils/verifier.c:114-133 | Passes exactly when the record starts with the marker and holds no second one; overlapping markers need no test |
| `Verifier.HashFile` | client/recovery/utils/verifier.c:144-170 | Buffer by buffer, the digest of exactly the first bytes of the file, up to the comment length field |
| `Verifier.AnyKey` | client/recovery/utils/verifier.c:171-182 | A key with right constants that accepts the signature suffices, whatever the other keys; when all 64-word keys have right constants, succeeds exactly when one of the keys accepts |
| `Verifier.VerifyFile` | client/recovery/utils/verifier.c:38-187 | With right key constants succeeds exactly on accepted archives, memory in front of the record being a parameter; with any keys, only on well-formed archives, and always when a usable key opens the signature |
| `Verifier.MemoryIrrelevant` | client/recovery/utils/verifier.c:175-176 | With a comment of at least 240 bytes the verdict does not depend on memory outside the archive |
| `Verifier.ShortCommentReadsOutside` | client/recovery/utils/verifier.c:79-92 | With a shorter comment the first signature byte comes from in front of the record |
| `Verifier.FixedFrom240` | client/recovery/utils/verifier.c:79-92 | On archives that pass the footer and marker tests the signature bytes are the archive's own exactly when the comment has at least 240 bytes |
| `Verifier.FooterOnlyReadsOutside` | client/recovery/utils/verifier.c:58-92 | A whole archive of 28 bytes that passes those tests, and whose signature is 234 bytes of other memory |
| `Verifier.LastMarker` | client/recovery/utils/verifier.c:122-133 | No marker in the file starts behind the checked record |
| `Verifier.SignedArchiveAccepted` | client/recovery/utils/verifier.c:47-60 | An archive laid out as a signer does is accepted exactly when a key opens its signature to the digest of its body |
| `Sha1Stream.RotationsAgree` | client/recovery/lib/mincrypt/sha.c:41-49 | The right rotations of the fast version are the left rotations of the simple one |
| `Sha1Stream.SwapLoads` | client/recovery/lib/mincrypt/sha.c:62-68 | A little-endian load and a byte swap read a big-endian word |
| `Sha1Stream.SwapStores` | client/recovery/lib/mincrypt/sha.c:184-186 | A byte swap and a little-endian store write a big-endian word |
| `Sha1Stream.MacroIsRound` | client/recovery/lib/mincrypt/sha.c:62-68 | A macro that rotates register names does the same round as one that shifts the registers |
| `Sha1Stream.ShaCtx.TransformSimple` | client/recovery/lib/mincrypt/sha.c:195-243 | Schedule and 80 rounds: the compression function of FIPS 180-4 |
| `Sha1Stream.ShaCtx.TransformFast` | client/recovery/lib/mincrypt/sha.c:51-145 | The unrolled, register-renaming version leaves the same state as the simple one, for every state and block |
| `Sha1Stream.ShaCtx.UpdateSimple` | client/recovery/lib/mincrypt/sha.c:245-258 | Byte by byte: context and count after feeding the input |
| `Sha1Stream.ShaCtx.UpdateFast` | client/recovery/lib/mincrypt/sha.c:147-170 | Bulk copies: the same context and count as the byte-by-byte version, for every context and input |
| `Sha1Stream.ShaCtx.Final` | client/recovery/lib/mincrypt/sha.c:259-282 | One bit, zeros and bit count are fed, and the state is stored big-endian |
| `Sha1Machine.InitialBytes` | client/recovery/lib/mincrypt/sha.c:286-292 | The initial words are the bytes 01 23 .. ef, fe dc .. 10, f0 e1 d2 c3, low bytes first |
| `Sha1Functions.ChChooses` | client/recovery/lib/mincrypt/sha.c:223-224 | The first round function takes, bit by bit, the second word where the first is set and the third elsewhere |
| `Sha1Functions.MajCounts` | client/recovery/lib/mincrypt/sha.c:227-228 | The third round function has, bit by bit, what at least two of the words have |
| `Sha1Machine.MixIs` | client/recovery/lib/mincrypt/sha.c:223-230 | In every round the round function is choice, parity, majority or parity, and the constant the floor of 2^30 times the square root of 2, 3, 5 or 10 |
| `WordBits.NumOp` | client/recovery/lib/mincrypt/sha.c:223-230 | And, or and exclusive or of the numbers are those of the bit vectors |
| `WordBits.NumSum` | client/recovery/lib/mincrypt/sha.c:221-230 | Addition modulo 2^32 is that of the bit vectors |
| `WordBits.RotationMultiplies` | client/recovery/lib/mincrypt/sha.c:207-234 | The rotations by 1, 5 and 30 are multiplications by 2, 2^5 and 2^30 modulo 2^32 - 1 |
| `Sha1Machine.RoundIs` | client/recovery/lib/mincrypt/sha.c:220-237 | A round on numbers is the round of FIPS 180-4 on bit vectors |
| `Sha1Machine.AbcDigest` | client/recovery/lib/mincrypt/sha.c:195-282 | The digest of "abc", a9993e36 4706816a ba3e2571 7850c26c 9cd0d89d, round by round |
| `Sha1.FinalIsDigest` | client/recovery/lib/mincrypt/sha.c:259-282 | A context that absorbed m, in whatever pieces, finishes with the digest of m padded as in section 5.1.1 of FIPS 180-4 |
| `Sha1.SplitDigest` | client/recovery/lib/mincrypt/sha.c:245-282 | Any split of a message into updates gives the digest of the message |
| `BlockHash.SplitFold` | client/recovery/lib/mincrypt/sha.c:245-282 | For any compression function: the state after any split and the padding is the fold over the padded message |
| `BlockHash.SameFeed` | client/recovery/lib/mincrypt/sha.c:153-159 | Bytes left over in the buffer from earlier blocks never matter |
| `Md5Stream.Encode` | client/recovery/lib/md5/libmd5.c:107-119 | The bytes are the little-endian bytes of the words, the rest of the output is untouched |
| `Md5Stream.Decode` | client/recovery/lib/md5/libmd5.c:121-131 | The words are the little-endian words of the bytes |
| `Md5Machine.AuxIs` | client/recovery/lib/md5/libmd5.c:21-24 | The auxiliary functions on numbers are those of section 3.4 of RFC 1321 on bit vectors |
| `Md5Machine.AbcDigest` | client/recovery/lib/md5/libmd5.c:133-214 | The digest of "abc", 90015098 3cd24fb0 d6963f7d 28e17f72, step by step |
| `Md5.DecodeEncode` | client/recovery/lib/md5/libmd5.c:107-131 | Decoding undoes encoding |
| `Md5.EncodeDecode` | client/recovery/lib/md5/libmd5.c:107-131 | Encoding undoes decoding, on whole words |
| `Md5Stream.Transform` | client/recovery/lib/md5/libmd5.c:133-217 | The four macro rounds are the 64 steps of section 3.4 of RFC 1321 |
| `Md5Stream.Md5Ctx.AddBits` | client/recovery/lib/md5/libmd5.c:73-78 | The carry test keeps the two count words equal to the bit length modulo 2^64 |
| `Md5Stream.Md5Ctx.Update` | client/recovery/lib/md5/libmd5.c:68-94 | Same context as feeding byte by byte, up to stale buffer bytes, and the bit count modulo 2^64, for every input whose length test does not wrap |
| `Md5Stream.LoopSafeExactly` | client/recovery/lib/md5/libmd5.c:85-86 | The 32-bit length test is right throughout exactly for inputs below a bound that depends on the bytes waiting; beyond it the loop compresses 64 bytes past the end of the input |
| `Md5Stream.Md5Ctx.Final` | client/recovery/lib/md5/libmd5.c:95-106 | Pads by the low count word, appends the count, stores the state |
| `Md5Stream.PadLength` | client/recovery/lib/md5/libmd5.c:99-101 | The padding that the low word selects is that of the whole count |
| `Md5.SplitDigest` | client/recovery/lib/md5/libmd5.c:68-106 | Any split of pure feeding and the final padding give the fold over the message padded as in sections 3.1 and 3.2 of RFC 1321 |
| `Md5Stream.HashParts` | client/recovery/lib/md5/libmd5.c:57-106 | MD5Init, one MD5Update per part and MD5Final leave the digest of the concatenated parts |
| `Crc.TableEntry` | client/recovery/lib/crc/libcrc.c:20-73 | Every one of the 256 entries is its index divided bit by bit by 0xEDB88320 |
| `Crc.LocalCrc32` | client/recovery/lib/crc/libcrc.c:75-82 | Equals division of the message bit by bit, for every input and starting value |
| `Crc.SerialConcat` | client/recovery/lib/crc/libcrc.c:75-82 | Continuing from the checksum of a prefix gives the checksum of the whole |
| `Crc.BurstDetected` | client/recovery/lib/crc/libcrc.c:75-82 | Two messages that differ only within four consecutive bytes and have the same checksum are equal |
| `Crc.ByteChangeDetected` | client/recovery/lib/crc/libcrc.c:75-82 | Replacing one byte keeps the checksum exactly when the byte is the same |
| `Mtd.Partition.MapInit` | client/recovery/block/blocks/mtd/base.c:63-99 | The first use makes an untagged map; later uses keep the map |
| `Mtd.Partition.SetStatus` | client/recovery/block/blocks/mtd/base.c:156-171 | A BAD entry stays BAD, and the counter is the number of BAD entries |
| `Mtd.MapRunBad` | client/recovery/block/blocks/mtd/base.c:156-171 | After any run of updates exactly those entries are BAD that were or that were set to it |
| `Mtd.ScanBlock` | client/recovery/block/blocks/mtd/base.c:304-350 | One visited block: an untagged one becomes BAD exactly when the flash is not NOR, bad blocks are to be skipped and the device calls it bad, and SCAN otherwise; it does not count when it is untagged or BAD, checked and bad |
| `Mtd.ScanLoop` | client/recovery/block/blocks/mtd/base.c:304-356 | Visits blocks until enough count; the map changes only at visited blocks |
| `Mtd.Scan` | client/recovery/block/blocks/mtd/base.c:234-368 | Every visited block that was untagged is BAD exactly when the flash is not NOR, bad blocks are to be skipped and the device calls it bad, and SCAN otherwise; all other entries are as before. Returns the span that ends at the last block needed; when the partition runs out, an error, or one block too many in whole-partition mode; behind the end of the partition, the size of one block |
| `Mtd.RequestBlocks` | client/recovery/block/blocks/mtd/base.c:272-280 | The blocks of a request in bytes: its first byte lies in the first, its last byte in the last one, rounded up; for a whole partition the end is the block of the next partition |
| `Mtd.RefusedBytes` | client/recovery/block/blocks/mtd/base.c:247-291 | The refused requests in bytes: empty ones and those that leave the partition; a whole partition may end one block behind, but for its last byte |
| `Mtd.SkippedBlocks` | client/recovery/block/blocks/mtd/base.c:432-440 | Writes and reads skip by relative index, erases by absolute index, and only on NAND flash |
| `Mtd.TooFewResult` | client/recovery/block/blocks/mtd/base.c:357-364 | The result is an error, or in whole-partition mode one block more than the partition has, exactly when fewer blocks count than are asked for |
| `Mtd.TwoOfOne` | client/recovery/block/blocks/mtd/base.c:357-364 | The whole-partition scan of one bad block reports two |
| `Mtd.ShortestIsLeast` | client/recovery/block/blocks/mtd/base.c:304-356 | No shorter span from the same block holds as many counting blocks |
| `Mtd.ScannedMapAt` | client/recovery/block/blocks/mtd/base.c:304-345 | An unvisited or tagged entry keeps its value; a visited untagged one becomes BAD by the device's word, and SCAN otherwise |
| `Mtd.SeekGood` | client/recovery/block/blocks/mtd/base.c:750-773 | Moves to the first position at or behind the offset that is in no bad block, and fails at the end of the partition |
| `Mtd.Read` | client/recovery/block/blocks/mtd/base.c:729-797 | Byte k read is the byte at the place of rank k among the good ones; which bytes, which address and when it fails |
| `Placement.PlaceRank` | client/recovery/block/blocks/mtd/base.c:750-791 | Byte k of a stream goes to the good byte of rank k behind the offset |
| `Placement.FitsBelow` | client/recovery/block/blocks/mtd/base.c:614-640 | A stream finds room before a bound exactly when enough good bytes lie between |
| `Placement.EveryGoodPosition` | client/recovery/block/blocks/mtd/base.c:614-640 | Every good position between offset and cursor receives a byte of the stream |
| `Placement.EbIsDivision` | client/recovery/include/block/mtd/mtd.h:49-55 | The recursive block index, position in the block and block start are division, remainder and multiplication by the block size |
| `Sysinfo.OverlapsIs` | client/recovery/block/sysinfo/sysinfo_manager.c:344-345 | The overlap test holds exactly when the region and the range share a byte |
| `Sysinfo.TraversalMerge` | client/recovery/block/sysinfo/sysinfo_manager.c:328-375 | Inside saved reserved regions the saved byte replaces the page's; fails exactly when a region in the way was never saved |
| `Sysinfo.OverlayIs` | client/recovery/block/sysinfo/sysinfo_manager.c:334-370 | For sorted disjoint regions: the saved byte inside each, the image's byte outside all |
| `Sysinfo.SysinfoManager.GetValueRam` | client/recovery/block/sysinfo/sysinfo_manager.c:75-96 | The buffer, zero-filled on first use |
| `Sysinfo.SysinfoManager.GetValueDev` | client/recovery/block/sysinfo/sysinfo_manager.c:75-140 | Scans and reads the region into its buffer, exactly its bytes when its block is known to be good; an error for an unknown id or a region outside the partition |
| `FlashErase.TraversalSave` | client/recovery/block/sysinfo/sysinfo_manager.c:299-326 | Saves the reserved regions that meet the range, and no others |
| `FlashErase.EraseStep` | client/recovery/block/blocks/mtd/base.c:438-501 | One turn of the erase loop: a known bad block is passed over, any other saved and erased, a failing one marked bad |
| `FlashErase.Erase` | client/recovery/block/blocks/mtd/base.c:385-522 | Erases the first good blocks from the start of the partition: the exact cells, map, saved regions and result of an undisturbed run, too few good blocks included, and what holds of every run |
| `FlashErase.StreamIsErased` | client/recovery/block/blocks/mtd/base.c:415-424 | A stream from the start, no longer than what was requested to be erased, lands on erased blocks when enough blocks are good |
| `FlashErase.NeverTooLong` | client/recovery/block/blocks/mtd/base.c:503-512 | The final length test, over the blocks counted as erased and as skipped, never fails |
| `FlashWrite.WriteDevice` | client/recovery/block/blocks/mtd/base.c:661-706 | One page: programmed exactly when there is no error; left for the next block exactly on EIO when the block can be erased and marked; cells, bad marks and map in every case |
| `FlashWrite.PutPage` | client/recovery/block/blocks/mtd/base.c:660-706 | The same with the regions merged in first, which fails exactly at an unsaved region |
| `FlashWrite.WriteRefusedIs` | client/recovery/block/blocks/mtd/base.c:553-602 | The refused writes in bytes: in front of the partition, inside a page, a part of a page without padding, more whole pages than room behind the start, or no map |
| `FlashWrite.Write` | client/recovery/block/blocks/mtd/base.c:532-727 | A refused write returns -1 and changes neither cells, map, bad marks nor buffer. Whatever the errors, result, map, bad marks and cells are those of the loop on values; blocks before the start and blocks known as bad are left alone and BAD entries stay BAD. Without write errors every byte of the padded, merged stream up to the first page that meets an unsaved region, or to the end of room, is at its place and nothing else changes |
| `FlashWrite.RetriedPage` | client/recovery/block/blocks/mtd/base.c:638-706 | A turn passes a page over exactly when there is room, no unsaved region is in the way, the device reports EIO, and the block can be erased and marked; the page tried next is then the same one exactly when it is a whole page that the merge left alone, or a padded one that is all 0xff |
| `FlashErrors.CursorTells` | client/recovery/block/blocks/mtd/base.c:614-720 | A write with errors that reports success and consumed all its data ends where the stream ends on the blocks still good afterwards exactly when every page that failed was the first one it put into its block; otherwise the pages in front are lost with the block |
| `FlashErrors.SuccessfulWrite` | client/recovery/block/blocks/mtd/base.c:614-720 | When failing pages are first in their blocks and unchanged by the retry, a write that reports success leaves the stream as an undisturbed write would, had the failed blocks been bad from the start |
| `FlashErrors.ErrorsAtStarts` | client/recovery/block/blocks/mtd/base.c:661-706 | Whole pages, no reserved region in the partition and errors at block starts only meet those conditions |
| `FlashErrors.ReadsBack` | client/recovery/block/blocks/mtd/base.c:614-797 | Under them a read, which skips the blocks that are bad now, returns the buffer |
| `FlashErrors.WriteThenReadAround` | client/recovery/block/blocks/mtd/base.c:532-797 | The two calls in a row: the buffer read is the buffer written, although blocks went bad on the way |
| `FlashFailures.LostByte` | client/recovery/block/blocks/mtd/base.c:638-706 | One byte to write to blocks of two: after EIO on the first block the write reports success, and the flash is blank |
| `FlashFailures.StrayByte` | client/recovery/block/blocks/mtd/base.c:660-706 | A one-byte page merged with a region's byte: after EIO the next block gets that byte in place of the image's |
| `FlashFailures.LostPage` | client/recovery/block/blocks/mtd/base.c:672-712 | Two pages of a block, EIO on the second: the write reports success, the second page is in the next block and the first one nowhere |
| `FlashLaws.NeverOnBad` | client/recovery/block/blocks/mtd/base.c:622-625 | A stream never lands on a block that the absolute index calls BAD exactly when the relative index calls it BAD too |
| `FlashLaws.LookupsAgree` | client/recovery/block/blocks/mtd/base.c:622-625 | For a partition at block 0 both indices agree |
| `FlashLaws.LookupsDiffer` | client/recovery/block/blocks/mtd/base.c:622-625 | For a partition behind block 0 the first byte of a stream lands on a block that is marked bad |
| `FlashLaws.EnoughRoom` | client/recovery/block/blocks/mtd/base.c:591-600 | The stream fits exactly when enough good bytes lie behind the offset |
| `FlashLaws.ReadsWhatWasWritten` | client/recovery/block/blocks/mtd/base.c:614-791 | Reading back gives, byte for byte, what the cells could take of the merged stream |
| `FlashLaws.WriteReadRoundTrip` | client/recovery/block/blocks/mtd/base.c:532-797 | With enough good bytes, erased pages and no reserved region in the way, write and read at the same offset succeed and return the buffer, for every bad-block set |
| `FlashLaws.WriteThenRead` | client/recovery/block/blocks/mtd/base.c:532-797 | The two calls in a row: the buffer read is the buffer written |
| `FlashLaws.ReadSucceeds` | client/recovery/block/blocks/mtd/base.c:740-797 | A read succeeds exactly when enough good bytes lie behind its offset or the last block is good, and is complete exactly in the first case |
| `FlashLaws.WriteSucceeds` | client/recovery/block/blocks/mtd/base.c:614-720 | A write succeeds, or is complete, under the same conditions and exactly if no page that finds room meets an unsaved region |
| `FlashLaws.ReadAtEnd` | client/recovery/block/blocks/mtd/base.c:740-797 | At the very end of the partition a read succeeds with nothing read |
| `FlashLaws.LeftOver` | client/recovery/block/blocks/mtd/base.c:740-797 | Two blocks, the first one bad: a read of two blocks returns success after one |
| `FlashLaws.EraseThenWrite` | client/recovery/block/blocks/mtd/base.c:438-712 | An erase up to any block, then a write of any stream at any offset: every byte of the partition afterwards. On an erased block it is the region's byte from before the erase in a reserved region, and the image's otherwise; elsewhere only bits are cleared |
| `FlashLaws.FrontRewritten` | client/recovery/block/blocks/mtd/base.c:438-712 | From the start of the partition, with as many good blocks as were asked for, the write is complete and every byte arrived |
| `FlashLaws.PartitionRewritten` | client/recovery/ota/ota_manager.c:555-594 | After an erase of the whole partition a write at any offset succeeds, and is complete, exactly by the good bytes behind it and the last block, and every byte on a block that was not skipped arrived |
| `FlashLaws.ErasePartitionThenWrite` | client/recovery/ota/ota_manager.c:555-594 | The two calls in a row, with that outcome |
| `FlashLaws.WritesJoin` | client/recovery/ota/ota_manager.c:576-594 | A piece written at the address that the write before returned goes where one write of both would have put it |
| `FlashLaws.PiecesOverlap` | client/recovery/ota/ota_manager.c:581-602 | A piece written at a fixed advance, as long as the piece before, starts on a byte of that piece exactly when a bad block lies in between |
| `FlashLaws.SamePlaceTwice` | client/recovery/ota/ota_manager.c:581-602 | Three blocks, the first one bad: two pieces of one block start on the same byte |
| `FlashFailures.ErasesNothing` | client/recovery/block/blocks/mtd/base.c:438-522 | A partition whose only block is bad: success, and nothing erased |
| `FlashLaws.ScanThenFits` | client/recovery/block/blocks/mtd/base.c:291-356 | The span returned by the scan holds every byte of the request |
| `ScanLaws.ScanThenWrite` | client/recovery/block/blocks/mtd/base.c:234-727 | The two calls in a row, for a partition at block 0 and a map that agrees with the device: no byte changes on a block of the scanned span that the device calls bad, whatever the write errors; without any, and with the regions saved, the write is complete, inside the span and around those blocks |
| `ScanLaws.FirstBlockBad` | client/recovery/block/blocks/mtd/base.c:304-350 | Two blocks, the first one bad, no map: the scan for one block leaves BAD and SCAN and returns the size of two |
| `SysinfoFlag.SetValueDev` | client/recovery/block/sysinfo/sysinfo_manager.c:147-252 | On a quiet device whose partition starts at block 0 and whose reserved regions can be read, for a region in any good block: every byte of the device afterwards. In the first good block exactly the region changes, and nothing at all when it is reserved; in a later one the value is stored exactly when the old bytes had its bits. Success is exact; without a partition or block to hold the region it fails and writes nothing |
| `SysinfoFlag.BlockOutcome` | client/recovery/block/sysinfo/sysinfo_manager.c:203-226 | The erase and write behind it: the first good block is blank when another one is rewritten, which is not erased; reserved regions come back when their block is erased |
| `SysinfoFlag.SetConcludes` | client/recovery/block/sysinfo/sysinfo_manager.c:203-226 | From that outcome to the region: what is stored, and what is kept |
| `SysinfoFlag.BlockWriteEnds` | client/recovery/block/blocks/mtd/base.c:614-720 | A write of one good block succeeds exactly when every reserved region in it has a value |
| `SysinfoFlag.WriteFlag` | client/recovery/block/sysinfo/flag.c:116-147 | The same for the flag region, released, with the flag put into its buffer; the bytes of the region behind the flag become those of the buffer. The reserve mode is restored on success and left switched off on every failure |
| `SysinfoFlag.FirstFlag` | client/recovery/block/sysinfo/flag.c:116-147 | The first flag written by a fresh manager fills the rest of its region with zeros |
| `SysinfoFlag.FlagOutside` | client/recovery/block/sysinfo/flag.c:116-147 | With the initial layout and a partition behind it the write fails, and the region that was reserved no longer is |
| `SysinfoFlag.ReadFlag` | client/recovery/block/sysinfo/flag.c:85-114 | The flag's bytes on the flash |
| `SysinfoFlag.FlagRoundTrip` | client/recovery/block/sysinfo/flag.c:85-147 | A flag that was written is read back exactly when its block is the first good one or the old bytes had its bits; in the first case the write succeeds and every byte outside the region is kept |
| `FlashFailures.FlagNotStored` | client/recovery/block/sysinfo/flag.c:116-147 | Two good blocks of 16 KiB, all zero: the flag is written with success, its bytes stay zero, and the reserved region of the first block is blank |
| `BadLimit.MultFracExact` | client/recovery/include/utils/linux.h:26-32 | Splitting off the quotient is exact while nothing wraps |
| `BadLimit.GetBadPebLimit` | client/recovery/block/fs/ubifs.c:161-175 | The share of the blocks, rounded up, for 0 to 1024 per 1024 and any 32-bit count, without overflow |
| `BadLimit.ServerReservesEnough` | server/otapackage/lib/dev.py:22-32 | For the same block count the server keeps at least as many blocks as the client lets go bad |
| `BadLimit.ReservedSizeIs` | server/otapackage/lib/dev.py:22-32 | The reserve in bytes: 20 blocks of 128 KiB for every 1024 of the device, and one more |
| `Ubi.DropFfs` | client/recovery/block/fs/ubifs.c:652-664 | The least multiple of the I/O size behind which only 0xff follows |
| `Ubi.PrefixSuffices` | client/recovery/block/fs/ubifs.c:652-664 | On an erased block a prefix leaves what the whole buffer would exactly when only 0xff follows it |
| `Ubi.RunIs` | client/recovery/block/fs/ubifs.c:177-197 | The static counter reaches n exactly when the last n blocks marked follow each other |
| `Ubi.Volume.ConsecutiveBadCheck` | client/recovery/block/fs/ubifs.c:177-197 | Gives up exactly after four neighbours in a row |
| `Ubi.Volume.MarkBad` | client/recovery/block/fs/ubifs.c:199-219 | Marks the block on the device and in the scan result; fails exactly without bad block support, on a device error, or after four neighbours in a row |
| `Ubi.TryPeb` | client/recovery/block/fs/ubifs.c:676-735 | One block: passed over, written or failed; what is written carries in its header the preset erase counter if that is overridden, else the scanned one plus one when it is at most 0x7FFFFFFF, else the mean. After a failed erase the map entry of the following block becomes BAD and the block's own entry stays |
| `Ubi.WrongEntry` | client/recovery/block/fs/ubifs.c:690-702 | Two blocks, the first of which cannot be erased: the device marks the first, the map the second |
| `Ubi.WriteOnePeb` | client/recovery/block/fs/ubifs.c:666-749 | The buffer ends up, with the erase counter of that block in its header, on the first block that takes it; only bad or failed blocks are skipped; nothing else changes |
| `Ubi.WriteVolume` | client/recovery/block/fs/ubifs.c:751-807 | Logical eraseblocks in order on strictly increasing blocks not marked bad, each holding its own next erase counter, its header and its data; without faults it succeeds exactly when the length is a multiple and enough blocks are not bad |
| `Ubi.VolumeJoin` | client/recovery/block/fs/ubifs.c:1022-1046 | Two writes, the second starting where the first ended, are one volume |
| `Ubi.WriteChunks` | client/recovery/block/fs/ubifs.c:751-807 | Any sequence of volume writes numbers, stamps and places its eraseblocks like one write; without faults it succeeds exactly when every chunk is whole and enough blocks are not bad |
| `PackServer.DeviceJudge` | server/otapackage/lib/dev.py:164-205 | Accepts exactly tables of nonempty partitions in order, inside the device, without overlap |
| `PackServer.ImageJudge` | server/otapackage/lib/image.py:218-254 | Accepts exactly image lists in order without overlap, of known types |
| `PackServer.JudgePartitionMapped` | server/otapackage/lib/dev.py:94-123 | Accepts exactly what the first partition that contains the start can hold, or else the last one |
| `PackServer.MappedFits` | server/otapackage/lib/dev.py:117-122 | Except for yaffs2 a mapped image ends inside the partition it was tested against |
| `PackServer.MappedInIs` | server/otapackage/lib/dev.py:49-69 | What a partition can hold, in bytes, by file system: less 524288 and the reserve for ubifs, 2076 for every 2048 for yaffs2, all of it otherwise |
| `PackServer.ChosenOnce` | server/otapackage/lib/dev.py:98-100 | The partition an image is tested against is unique |
| `PackServer.SliceSizeZero` | server/otapackage/lib/image.py:22-47 | Slicing divides by zero exactly when the configured size is below one block |
| `PackServer.SliceSizeIs` | server/otapackage/lib/image.py:22-31 | The slice size is 126976, 132864 or 131072 bytes, for ubifs, yaffs2 and the rest, for every 131072 bytes that fit into the configured size |
| `PackServer.SliceModeIs` | server/otapackage/lib/image.py:33-48 | The derived count is the least number of slices that covers the image |
| `UbiSlices.UbifsSlices` | server/otapackage/lib/image.py:22-48 | Every slice of a ubifs image but the last is a number of logical eraseblocks of 126976 bytes, and all are exactly when the image is |
| `UbiSlices.WriteSlices` | client/recovery/block/fs/ubifs.c:751-807 | The slices of a ubifs image, written as a volume with eraseblocks of 126976 bytes: without device errors success exactly when the image is a number of those and enough blocks are not bad; the volume then holds the image in order |
| `PackServer.Packer.Split` | server/otapackage/lib/file.py:29-50 | The pieces in order, one numbered package each |
| `PackServer.SlicesJoin` | server/otapackage/lib/file.py:36-50 | The pieces concatenate to the file |
| `PackServer.SlicesShape` | server/otapackage/lib/file.py:36-50 | All pieces but the last have the full size, and their number is the announced count |
| `PackServer.Packer.Generate` | server/otapackage/lib/image.py:57-88 | Slices under numbered names or the whole file under its own name go to the next packages; the count check |
| `PackServer.Packer.GenerateAll` | server/otapackage/lib/image.py:117-125 | Package numbers run through all images without gap |
| `PackClient.MergePartition` | client/recovery/ota/ota_manager.c:361-387 | The images that start inside the partition, its counters, and why the loop stopped |
| `PackClient.Merge` | client/recovery/ota/ota_manager.c:345-396 | Lists are consecutive stretches of the image list, each image in its partition; everything is listed exactly when every image has a place; the result is a failure exactly when the first unlisted image sticks out of a partition |
| `PackClient.GapIsSilent` | client/recovery/ota/ota_manager.c:371-393 | One partition and one image behind it: success, and the image is in no list |
| `PackClient.OverlapFails` | client/recovery/ota/ota_manager.c:381-385 | One partition and one image across its end: failure |
| `PackClient.CheckPackageCount` | client/recovery/ota/ota_manager.c:724-759 | One package per chunk besides package 000 |
| `PackClient.WalkImage` | client/recovery/ota/ota_manager.c:813-864 | Succeeds exactly when the next packages hold the image's chunks, under the bare name for a single one and numbered names otherwise, with the announced sizes |
| `PackClient.UpdateFromStorage` | client/recovery/ota/ota_manager.c:792-867 | Succeeds exactly when package i + 1 serves the i-th chunk of the walk, and writes just those packages |
| `PackAgreement.ChunksAsAnnounced` | server/otapackage/lib/image.py:57-88 | Chunk count and size in update.xml are those of the packages, and the chunks make up the image file |
| `PackAgreement.ListsAreThePlan` | client/recovery/ota/ota_manager.c:345-396 | The partitions' lists concatenate to the image list |
| `PackAgreement.PlanIsPacked` | server/otapackage/lib/image.py:117-125 | The server's packages are as many as the client's walk asks for, and serve it one by one exactly if every image's names are found |
| `PackAgreement.FoundUnlessOneSlice` | server/otapackage/lib/file.py:36-50 | Names agree exactly for images that are not sliced into a single piece |
| `PackAgreement.PackageNumber` | server/otapackage/lib/image.py:117-125 | The number of the package with chunk j of image k |
| `PackAgreement.Update` | client/recovery/ota/ota_manager.c:792-873 | From all tables and images that the server accepts: exactly the images before the first one without a place are listed, and the merge fails exactly when that one sticks out of a partition; otherwise the update succeeds exactly when no listed image is sliced into a single piece, and writes exactly what the server packed for them. These are all images when each starts in a partition and none is yaffs2 |
| `PackAgreement.GapImageIsLost` | server/otapackage/lib/dev.py:94-123 | An image between two partitions: accepted by the server, and the update succeeds without writing it |
| `PackAgreement.OneSliceIsLost` | client/recovery/ota/ota_manager.c:845-854 | A checked image of one byte in slice mode: the update fails |
| `CircularList.NextPrevInverse` | client/recovery/include/utils/list.h:42-63 | On a well-formed list next and prev undo each other |
| `CircularList.InsertBetween` | client/recovery/include/utils/list.h:55-63 | A node enters the ring between two neighbours |
| `CircularList.ListAdd` | client/recovery/include/utils/list.h:78-81 | The new node becomes the first entry |
| `CircularList.ListAddTail` | client/recovery/include/utils/list.h:92-95 | The new node becomes the last entry |
| `CircularList.UnlinkBetween` | client/recovery/include/utils/list.h:104-108 | What lies between two nodes leaves the ring |
| `CircularList.ListDel` | client/recovery/include/utils/list.h:122-127 | The entry leaves the list and its pointers are poisoned |
| `CircularList.ListDelInit` | client/recovery/include/utils/list.h:160-164 | The entry leaves the list and becomes an empty one |
| `CircularList.ListReplace` | client/recovery/include/utils/list.h:140-147 | The new node takes the old one's place, also on an empty list |
| `CircularList.ListReplaceInit` | client/recovery/include/utils/list.h:149-154 | And the old one becomes an empty list |
| `CircularList.ListMove` | client/recovery/include/utils/list.h:171-175 | Out of one list, to the front of another |
| `CircularList.ListMoveWithin` | client/recovery/include/utils/list.h:171-175 | To the front of its own list |
| `CircularList.ListMoveTail` | client/recovery/include/utils/list.h:182-187 | Out of one list, to the end of another |
| `CircularList.ListMoveTailWithin` | client/recovery/include/utils/list.h:182-187 | To the end of its own list |
| `CircularList.ListIsLast` | client/recovery/include/utils/list.h:194-198 | True exactly for the last entry |
| `CircularList.ListEmpty` | client/recovery/include/utils/list.h:204-207 | True exactly for the empty list |
| `CircularList.ListIsSingular` | client/recovery/include/utils/list.h:246-249 | True exactly for one entry |
| `CircularList.ListRotateLeft` | client/recovery/include/utils/list.h:232-240 | The first entry becomes the last |
| `CircularList.CutAfter` | client/recovery/include/utils/list.h:251-261 | Front part to one list, rest to the other |
| `CircularList.ListCutPosition` | client/recovery/include/utils/list.h:277-289 | The same for every cut point, the head included; an empty list is left alone together with the target |
| `CircularList.SpliceBetween` | client/recovery/include/utils/list.h:291-303 | The entries go between two neighbours, in order |
| `CircularList.ListSplice` | client/recovery/include/utils/list.h:310-315 | Entries in front; the spliced head keeps its pointers |
| `CircularList.ListSpliceTail` | client/recovery/include/utils/list.h:322-327 | Entries at the end; the spliced head keeps its pointers |
| `CircularList.ListSpliceInit` | client/recovery/include/utils/list.h:336-343 | Entries in front, and the spliced list is empty |
| `CircularList.ListSpliceTailInit` | client/recovery/include/utils/list.h:353-360 | Entries at the end, and the spliced list is empty |
| `CircularList.CutAndRestore` | client/recovery/include/utils/list.h:277-343 | Cutting anywhere into an empty list and splicing back restores the list |

## Left out

- Device access, file access, sockets, mounting and process handling: files are byte sequences, a flash device is a state with erase, program, read and is-bad operations whose errors are parameters.
- `Montgomery.MontMul` and everything on it: what a key with wrong constants computes is left open, except that nothing overflows; `KeyLoader.PrintLoadRoundTrip` shows that printed keys have the right ones.
- `RsaChecks.RsaEF4Verify`: that a block with the expected hash is the correct encoding is not claimed, since SHA-1 may collide; `RsaChecks.EncodedSigns` is the other direction.
- `KeyLoader.LoadKeys`: numbers beyond 64 bits, where the C library saturates, are taken modulo 2^32 like shorter ones; the field that an entry without brace or v leaves unset is a parameter; the newline translation of text files is not modelled.
- The range check of RFC 8017 on the signature as a number: the code has none.
- `Verifier.VerifyFile`: archives beyond the range of a C long are not modelled.
- `Md5Stream.Md5Ctx.Update`: inputs beyond the exact bound of `Md5Stream.LoopSafeExactly`, for which the loop leaves the input, are excluded.
- CRC-16, CRC-8 and CRC-7 of `libcrc.c`: repetitions of the CRC-32 argument with other constants.
- Rounding down by bit masks is modelled as rounding down to a multiple; the two agree for the power-of-two sizes of flash.
- Out-of-band data, raw mode, unlocking, JFFS2 clean markers and progress reports in `base.c`.
- `Mtd.Partition`: one partition of the device at a time; a system information region lies inside one eraseblock of it or outside it.
- `FlashErase.Erase`: `erased_bytes` and `total_bytes` are kept as numbers of blocks.
- `FlashWrite.Write`: the contract says what reaches the flash, not that the caller's buffer then holds the merged bytes.
- `FlashErrors.SuccessfulWrite`: says nothing of a write that fails; what that leaves is given by `FlashWrite.Write`, step by step.
- `Sysinfo.InPartitionOf`: looking a partition up by offset adds up the sizes of all partitions from 0, in `mtd.c`; the model agrees with it only for partitions that lie contiguously from 0.
- `SysinfoFlag.SetValueDev`: a buffer freed on failure is modelled as absent, where the code keeps the dangling pointer.
- `Ubi.TryPeb`: the block map update for a block behind the device's last one is dropped, where the code writes past the map; header generation and the CRC check in `change_ech` are arbitrary functions that keep to their place in the buffer.
- `ubi_write_layout_vol`, `format` and `ubi_bypass_layout_vol`: the same loop with other buffers.
- `PackClient.Merge`: for partition tables or image lists out of order, which the server refuses, only termination is shown; the lists are sequences here, and `CircularList.ListAddTail` is what the code does with pointers.
- File names other than whether a chunk's name carries its number, XML and configuration parsing: a package is the image and chunk it holds, and its contents.
- The loop of `write_update_pkg` over files, beyond the laws about its erase, its writes and its advance; the network variant of the update, `recovery_handler.c` and `configure_file.c`.
- Hash lists and unlocked iteration in `list.h`; `list_empty_careful` is `list_empty` without concurrency.
- Allocation failure and logging.

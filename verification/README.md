# Verification of parts of DC-M33

This project models eight components of the DC-M33 sources in Dafny and proves what they are for.

* **AES** (`modules/idsregeneration/aes_core.c`): the table-driven cipher in its loop form, with the three key-schedule
  loops and the in-place construction of the decryption schedule, against the cipher of FIPS 197. The round tables are
  the formulas the source gives above them. `AesField.dfy`, `Fips197.dfy`, `AesCore.dfy`.
* **What is built on it** (`modules/idsregeneration/main.c`): AES-CMAC (`Cmac.dfy`), a Reed-Solomon code
  (`ParityField.dfy`, `ReedSolomon.dfy`), a table-driven CRC-32 (`Crc32.dfy`), the key lookup (`KeyLookup.dfy`), the
  signature check (`Signcheck.dfy`), the disc-key table (`UmdTable.dfy`) and the certificates (`Certificates.dfy`).
* **Flash emulation** (`modules/flashemu/flashemu.c`): 32 virtual handles over fewer real ones, as a refinement of a
  machine whose files never close. `Slots.dfy`, `FlashEmu.dfy`.
* **CSO reader** (`modules/galaxy/csoread.c`): two caches in front of a compressed image. `CsoReader.dfy`.
* **FAT reader** (`ipl/common/fat.c`): reading files and searching directories with long names. `FatVolume.dfy`,
  `FatRead.dfy`, `FatNames.dfy`, `FatFind.dfy`, and `FatExamples.dfy` with volumes that show what the results cover.
* **Formatted output** (`ipl/common/printf.c`), configured without floating point and without long long.
  `PrintfNumbers.dfy`, `PrintfFields.dfy`, `PrintfFormat.dfy`, `PrintfDirective.dfy`, `Printf.dfy`.
* **IPL writer and reader** (`modules/ipl_update/main.c`): a block allocator that skips bad blocks, and a mirrored block
  table. `Nand.dfy`, `IplBlocks.dfy`, `IplUpdate.dfy`.
* **Partition writer** (`modules/lflash_fdisk/main.c`): geometry and a chain of partition tables. `PartitionTable.dfy`,
  `Fdisk.dfy`.

The C functions that work in place on buffers are methods over arrays; a pointer is an array and an index. Each method
is proved against a specification function or predicate, and the properties are lemmas about those. `Bytes.dfy`,
`Octets.dfy` and `Words.dfy` hold buffers, bytes and words. The kernel, the flash chip, the device and the memory stick
are classes or parameters that may fail whenever the real thing may: every result holds for whatever they answer within
the contracts given there.

## Where the code falls short

Where a property does not hold of the code, the model keeps the code and the exact condition is proved.

* Zero padding is limited by the 32-byte conversion buffer: a number fills its field if and only if zeros do not have to
  fill more than 32 characters (`PrintfFields.NumberWidth`). Beyond that the sign is lost as well: a number reads back
  as what was printed if and only if it is not a negative one in such a field (`PrintfFields.NumberReadBack`, and for
  whole directives `PrintfDirective.IntegerFormat`).
* A precision pads with zeros if and only if the field is not left-adjusted and the precision is at most 32
  (`PrintfFields.NumberWithPrecision`).
* '#' makes room for its prefix by taking characters away when the digits fill the width or the precision. All digits
  and the prefix are printed if and only if what it takes away are padding zeros and, but for octal, two places are left
  in the buffer (`PrintfFields.HashPrefix`); otherwise something of them is missing: 1234 in hexadecimal, in a field of
  four, comes out as 0x34 (`PrintfFields.HashLosesDigits`).
* `pspIplSetIpl` allows 32 data blocks, but its area has room for 31 (`IplBlocks.AreaIsTooSmall`). Where faults are
  certain, the data stays in the area if and only if that has enough good blocks (`IplUpdate.Updater.SetIpl`). If not,
  the search goes on behind it until the 32-bit page number wraps around: the next block number that leads to a block of
  the area is 8000000 (hex), for block 0 (`IplBlocks.PastTheArea`). With 32 blocks on a chip without bad blocks, the
  last piece overwrites block 0 and the table holds a zero for it, which ends the table for the reader: everything
  reports success and the last block does not come back (`IplUpdate.Updater.SetIpl`, `IplUpdate.Updater.SetThenGet`).
  With no good block below 30 (hex) at all, no block number is ever accepted (`IplBlocks.NothingTakes`).
* A size above FFFFC000 (hex) counts as no blocks at all (`IplBlocks.HugeIsNothing`).
* `DoFdisk` checks that the partitions fit by an unsigned comparison of 32-bit words. Those that pass do fit if and only
  if the device is not smaller than one cylinder and the lengths sum up to less than 2^32 (`Fdisk.FitsExactly`); one
  input for each half is in `Fdisk.TinyDevice` and `Fdisk.WrappedSum`.
* `SetCHS` counts sectors of a track from zero, where partition tables usually count from one; addresses are decoded
  accordingly in `PartitionTable.Address`.
* `UM2` with no ids still looks up a first id, and fails with -3 if that has no key (`UmdTable.UM2`).
* `MsFatFindFile` reads one sector more than a cluster or the root directory has before it leaves it; a failure there
  ends the search. Where faults are certain, a file is found if and only if no sector on the way to it fails, these
  extra sectors included (`FatFind.FindFile` and `FatFind.InReach`); `FatExamples.OneSectorTooMany` is a volume on which
  every sector of the directory can be read and a file in it is not found.

## Model

| member | source | states |
|---|---|---|
| AesField.SBoxInverse | modules/idsregeneration/aes_core.c:46-58 | the inverse S-box undoes the S-box, for every byte |
| AesField.InverseIsInverse | modules/idsregeneration/aes_core.c:46-58 | the S-box is built on the multiplicative inverse: a byte times its inverse is 1 |
| AesField.MultiplesAreProducts | modules/idsregeneration/aes_core.c:46-58 | the multiples 2, 3, 9, 11, 13 and 14 in the tables are products in the field of FIPS 197 |
| AesField.InvMixRowOfMixRows | modules/idsregeneration/aes_core.c:46-58 | the inverse column transform undoes the column transform, byte by byte |
| Fips197.EqInvCipherIsInvCipher | modules/idsregeneration/aes_core.c:832-878 | with round keys reversed and all but the outer two inverse-mixed, the equivalent inverse cipher is the inverse cipher (section 5.3.5 of FIPS 197) |
| Fips197.InvCipherOfCipher | modules/idsregeneration/aes_core.c:884-1260 | the inverse cipher undoes the cipher under any schedule |
| Fips197.DecryptOfEncrypt | modules/idsregeneration/aes_core.c:884-1260 | for every key of 128, 192 or 256 bits and every block, deciphering under the turned schedule gives the block back |
| AesCore.EncColumnIs | modules/idsregeneration/aes_core.c:981-1034 | four table lookups and their sum are SubBytes, ShiftRows and MixColumns on one column |
| AesCore.DecColumnIs | modules/idsregeneration/aes_core.c:1172-1225 | the same for the equivalent inverse round |
| AesCore.InvMixByTablesIs | modules/idsregeneration/aes_core.c:856-875 | Td of Te4 of each byte is the inverse column transform of the word |
| AesCore.RconTable | modules/idsregeneration/aes_core.c:723-726 | the round constants are the powers of x in the field |
| AesCore.LoadKey | modules/idsregeneration/aes_core.c:752-755 | the first words of the schedule are the words of the key |
| AesCore.Expand128 | modules/idsregeneration/aes_core.c:756-773 | the 128-bit loop leaves the words of the key expansion of section 5.2 of FIPS 197 |
| AesCore.Expand192 | modules/idsregeneration/aes_core.c:774-795 | the same for 192 bits |
| AesCore.Expand256 | modules/idsregeneration/aes_core.c:796-825 | the same for 256 bits, with the extra substitution in the middle |
| AesCore.AES_set_encrypt_key | modules/idsregeneration/aes_core.c:731-827 | -1 for a null pointer, -2 for a bad size, each without effect; else the object holds the expansion of the key |
| AesCore.SwapRoundKeys | modules/idsregeneration/aes_core.c:848-851 | four swaps exchange two round keys and nothing else |
| AesCore.ReverseRoundKeys | modules/idsregeneration/aes_core.c:847-852 | the in-place loop reverses the order of the round keys |
| AesCore.InvMixRoundKey | modules/idsregeneration/aes_core.c:856-875 | one round key is inverse-mixed in place |
| AesCore.InvMixInnerKeys | modules/idsregeneration/aes_core.c:854-876 | exactly the inner round keys are inverse-mixed in place |
| AesCore.ScheduleIsInverse | modules/idsregeneration/aes_core.c:847-876 | a reversed and inner-mixed schedule is the schedule of the equivalent inverse cipher |
| AesCore.AES_set_decrypt_key | modules/idsregeneration/aes_core.c:832-878 | the same error codes; else the object holds the equivalent inverse schedule of the key |
| AesCore.RoundByTables | modules/idsregeneration/aes_core.c:981-1034 | four column expressions are one round of section 5.1 of FIPS 197 |
| AesCore.FinalRoundByTables | modules/idsregeneration/aes_core.c:1041-1068 | the masked lookups are the final round, without MixColumns |
| AesCore.EqInvRoundByTables | modules/idsregeneration/aes_core.c:1172-1225 | four column expressions are one round of the equivalent inverse cipher |
| AesCore.EqInvFinalRoundByTables | modules/idsregeneration/aes_core.c:1232-1259 | the masked lookups are its final round |
| AesCore.EncryptRounds | modules/idsregeneration/aes_core.c:974-1035 | the loop over s and t words, two rounds a pass, computes all rounds but the last |
| AesCore.DecryptRounds | modules/idsregeneration/aes_core.c:1165-1226 | the same for deciphering |
| AesCore.EncryptLast | modules/idsregeneration/aes_core.c:1041-1068 | the final round, stored in the output |
| AesCore.DecryptLast | modules/idsregeneration/aes_core.c:1232-1259 | the final round of deciphering, stored in the output |
| AesCore.AES_encrypt | modules/idsregeneration/aes_core.c:884-1069 | writes the cipher of FIPS 197 of the input block, in place or not, and nothing else |
| AesCore.AES_decrypt | modules/idsregeneration/aes_core.c:1075-1260 | writes the equivalent inverse cipher of the input block, in place or not, and nothing else |
| AesCore.EncryptUnder | modules/idsregeneration/aes_core.c:884-1069 | with a key object made from a key, enciphers a block under that key |
| AesCore.DecryptUnder | modules/idsregeneration/aes_core.c:1075-1260 | with a key object made from a key, deciphers a block under that key |
| AesCore.EncryptThenDecrypt | modules/idsregeneration/aes_core.c:731-1260 | setting both schedules, enciphering and deciphering leaves the buffer as it was, for every key size |
| Cmac.ShiftedLeftIsShift | modules/idsregeneration/main.c:1439-1445 | the byte-wise shift is the left shift of the 128-bit string |
| Cmac.ShiftLeftInPlace | modules/idsregeneration/main.c:1439-1445 | the loop shifts the block in place |
| Cmac.DoubleInPlace | modules/idsregeneration/main.c:1437-1451 | one pass is the subkey doubling of section 2.3 of RFC 4493 |
| Cmac.ChainBlocks | modules/idsregeneration/main.c:1407-1415 | the loop leaves the chaining value after all blocks but the last |
| Cmac.MLastBySubkey | modules/idsregeneration/main.c:1417-1457 | adding the last block and then the subkey is adding M_last of section 2.4 of RFC 4493 |
| Cmac.PadLast | modules/idsregeneration/main.c:1377-1387 | the padded last block: the rest, 80 (hex), zeros |
| Cmac.Subkey | modules/idsregeneration/main.c:1430-1452 | the subkey: the enciphered zero block, doubled once or twice |
| Cmac.PickLast | modules/idsregeneration/main.c:1365-1394 | the number of blocks, and the last block, padded if it is not whole or the message is empty |
| Cmac.FinishMac | modules/idsregeneration/main.c:1417-1459 | from the chaining value to the MAC |
| Cmac.EncryptRegion | modules/idsregeneration/main.c:1357-1462 | writes AES-CMAC of the region, for every length, when input and output lie apart |
| ParityField.PowersDiffer | modules/idsregeneration/main.c:1293-1298 | the generator of the field over 11D (hex) has order at least 64: different positions of a codeword have different locators |
| ReedSolomon.TimesLoop | modules/idsregeneration/main.c:1282-1303 | the bit loop multiplies by a coefficient in the field |
| ReedSolomon.DivideStep | modules/idsregeneration/main.c:1276-1309 | one pass adds the leading coefficient's multiple of the generator polynomial |
| ReedSolomon.EncodeIsCodeword | modules/idsregeneration/main.c:1264-1317 | what is stored vanishes at 1, 2, 4 and 8, for every message |
| ReedSolomon.EncodeIsMultiple | modules/idsregeneration/main.c:1264-1317 | what is stored is the generator polynomial times the quotient found |
| ReedSolomon.Independent | modules/idsregeneration/main.c:1268-1317 | a word with fewer nonzero bytes than the points where it vanishes is zero |
| ReedSolomon.MinimumDistance | modules/idsregeneration/main.c:1264-1317 | the words stored for two different messages differ in at least five bytes |
| ReedSolomon.CodewordsAreEncodings | modules/idsregeneration/main.c:1264-1317 | a word vanishes at the four points if and only if it is what is stored for its first 60 bytes |
| ReedSolomon.ParityIsLinear | modules/idsregeneration/main.c:1264-1317 | the parity of a sum of messages is the sum of their parities |
| ReedSolomon.CodewordsByMessage | modules/idsregeneration/main.c:1264-1317 | the first 60 bytes of a codeword determine the rest |
| ReedSolomon.StoreParity | modules/idsregeneration/main.c:1312-1316 | the last four bytes are copied out |
| ReedSolomon.P1 | modules/idsregeneration/main.c:1264-1317 | leaves the first 60 bytes, and stores their parity behind them |
| Crc32.GenTable | modules/idsregeneration/main.c:71-88 | fills the table with eight division steps of each byte |
| Crc32.ByteByTable | modules/idsregeneration/main.c:97-101 | a table lookup does what eight single-bit steps do |
| Crc32.HashByte | modules/idsregeneration/main.c:97-101 | one byte goes through the table |
| Crc32.GenHash | modules/idsregeneration/main.c:90-104 | over that table, computes the bit-at-a-time reflected CRC-32 of section 8 of RFC 1952, from a seed |
| Crc32.CrcContinues | modules/idsregeneration/main.c:90-104 | hashing one part and then another from there is hashing both |
| Crc32.OneByteShows | modules/idsregeneration/main.c:90-104 | changing exactly one byte always changes the hash |
| KeyLookup.CompareIsOrder | modules/idsregeneration/main.c:1479-1493 | the comparator is the lexicographic order with the second word first |
| KeyLookup.TreeIsSearch | modules/idsregeneration/main.c:5442-5557 | the decision tree finds a known id if and only if a plain equality search does |
| KeyLookup.TreeThenTable | modules/idsregeneration/main.c:5442-5572 | the tree followed by the table is one search through both |
| KeyLookup.GetUmdKey | modules/idsregeneration/main.c:5375-5586 | copies out the key found, or returns -1 and writes nothing |
| Signcheck.EncryptMany | modules/idsregeneration/main.c:1333-1346 | repeated encipherment of a block in place |
| Signcheck.SigncheckParts | modules/idsregeneration/main.c:1341-1354 | where the three keys, the fuse id and the extra bytes are, and that the whole is a codeword |
| Signcheck.WorkKeys | modules/idsregeneration/main.c:1325-1337 | the fuse id twice over, deciphered three times in one buffer and enciphered three times in the other |
| Signcheck.StoreKeys | modules/idsregeneration/main.c:1339-1349 | three keys, each after three more encipherments |
| Signcheck.GenerateSigncheck | modules/idsregeneration/main.c:1319-1355 | writes the three device keys, the fuse id, the extra bytes and their parity |
| UmdTable.TableSlot | modules/idsregeneration/main.c:5631-5681 | slot 0 is the sentinel, slots 1 to n the ids in order, later ones the first id; every key slot from 1 on is the encipherment of the key found for its id |
| UmdTable.MakeWorkingKeys | modules/idsregeneration/main.c:5605-5629 | the two working keys: a block enciphered and a block deciphered eleven times |
| UmdTable.FillSentinel | modules/idsregeneration/main.c:5631-5651 | the sentinel and its zero key slot |
| UmdTable.FillSlot | modules/idsregeneration/main.c:5657-5659 | one id and its key, or -1 if there is no key |
| UmdTable.FillTable | modules/idsregeneration/main.c:5648-5671 | fills both halves, or stops with -2 or -3 exactly when a key is missing |
| UmdTable.EncryptSlots | modules/idsregeneration/main.c:5676-5681 | enciphers every key slot but the first in place |
| UmdTable.MakeTable | modules/idsregeneration/main.c:5648-5681 | the finished table, under the key stored in front of it |
| UmdTable.AppendMac | modules/idsregeneration/main.c:5685 | the MAC covers exactly the table and stands directly behind it |
| UmdTable.MakeHeaderKey | modules/idsregeneration/main.c:5688-5698 | the header key of the device |
| UmdTable.SealHeader | modules/idsregeneration/main.c:5699-5706 | both working keys sealed in place, the second chained to the first |
| UmdTable.UM2 | modules/idsregeneration/main.c:5588-5718 | writes count, sealed header, table and MAC, and returns their size; nothing in front changes |
| Certificates.CbcRoundTrip | modules/idsregeneration/main.c:5752-5765 | CBC (section 6.2 of NIST SP 800-38A) is undone by its inverse |
| Certificates.CbcTwoBlocks | modules/idsregeneration/main.c:5752-5765 | the chaining of the loop is CBC of two blocks from a zero block |
| Certificates.CertificateOpens | modules/idsregeneration/main.c:5747-5769 | a finished certificate deciphers to the template's private blocks, keeps its other bytes, and carries the CMAC of its first A8 (hex) bytes |
| Certificates.CertifiedSlots | modules/idsregeneration/main.c:5745-5769 | slot i of the output holds the certificate of slice i of the template, which opens under the device's keys; the bytes in front of the six are the template's |
| Certificates.MakeCertificateKeys | modules/idsregeneration/main.c:5731-5743 | the two certificate keys |
| Certificates.Reencrypt | modules/idsregeneration/main.c:5752-5765 | the two private blocks deciphered and CBC-enciphered in place |
| Certificates.SealCertificate | modules/idsregeneration/main.c:5767 | the MAC behind a certificate |
| Certificates.CompleteOne | modules/idsregeneration/main.c:5749-5768 | one pass turns one template into its certificate and touches nothing else |
| Certificates.CompleteAll | modules/idsregeneration/main.c:5745-5769 | six passes complete all six |
| Certificates.GenKeys | modules/idsregeneration/main.c:5720-5776 | the completed certificates, each in its slot, followed by the disc-key table |
| Slots.EvictionKeepsViews | modules/flashemu/flashemu.c:86-96 | closing a read-only slot changes nothing an owner can see, and live slots keep distinct descriptors |
| Slots.OpeningSetsOneView | modules/flashemu/flashemu.c:99-108 | filling a slot after an open changes that slot's file only |
| Slots.MovingSetsOneView | modules/flashemu/flashemu.c:123-125 | moving a descriptor's position changes that slot's position only |
| Slots.ClearingFreesOneView | modules/flashemu/flashemu.c:133-136 | giving a slot up frees that slot only |
| FlashEmu.Emulation.SlotGetFree | modules/flashemu/flashemu.c:60-69 | the first free slot, or -1 if and only if there is none |
| FlashEmu.Emulation.EvictOne | modules/flashemu/flashemu.c:86-96 | closes a read-only slot if there is one; writable and directory slots keep their descriptors; no view changes |
| FlashEmu.Emulation.SlotCloseOneReadOnly | modules/flashemu/flashemu.c:138-156 | the same, with its return code |
| FlashEmu.Emulation.CloseReadOnly | modules/flashemu/flashemu.c:90-94 | one read-only slot closed with its position remembered; no view changes |
| FlashEmu.Emulation.TakeDescriptor | modules/flashemu/flashemu.c:99-108 | the slot stands for the newly opened file |
| FlashEmu.Emulation.SlotOpen | modules/flashemu/flashemu.c:71-111 | ends, and either opens the file in the slot at position 0 or changes nothing visible |
| FlashEmu.Emulation.SlotGetFd | modules/flashemu/flashemu.c:113-131 | a live descriptor at the remembered position; nobody can see that the file had been closed |
| FlashEmu.Emulation.SlotClear | modules/flashemu/flashemu.c:133-136 | only the allocation of that slot changes |
| FlashEmu.Emulation.OpenMain | modules/flashemu/flashemu.c:174-214 | the first free slot gets the file of the first path, or that of the second one, which is tried only after the first has failed; or nothing changes |
| FlashEmu.Emulation.CloseMain | modules/flashemu/flashemu.c:228-242 | the slot is given up, or nothing changes; no other writable or directory slot is touched |
| FlashEmu.Emulation.DirCloseMain | modules/flashemu/flashemu.c:523-542 | the slot is given up even if the kernel's close fails; no other writable or directory slot is touched |
| FlashEmu.Emulation.ReadMain | modules/flashemu/flashemu.c:253-275 | the bytes at the slot's position, which moves behind them |
| FlashEmu.Emulation.WriteMain | modules/flashemu/flashemu.c:288-311 | the bytes go to the slot's position, which moves behind them; read-only slots are refused |
| FlashEmu.Emulation.LseekMain | modules/flashemu/flashemu.c:324-345 | the position moves to the target, and to nowhere else |
| FlashEmu.Do | modules/flashemu/flashemu.c:60-345 | every call is one step of a machine whose files are never closed underneath, and keeps the writable and directory slots that it is not to close |
| FlashEmu.DoAll | modules/flashemu/flashemu.c:60-345 | so is every run, and it keeps every writable and directory slot that none of its calls is to close |
| FlashEmu.ReadsAreConsecutive | modules/flashemu/flashemu.c:60-345 | over every run in which a slot is only read, its reads deliver consecutive bytes of its file |
| CsoReader.Reader.ReadUmd | modules/galaxy/csoread.c:136 | the device primitive: the bytes at the position, or a failure that writes nothing |
| CsoReader.Reader.FillIndexWindow | modules/galaxy/csoread.c:127-146 | the index window covers the entry and matches the file |
| CsoReader.Reader.GetIndex | modules/galaxy/csoread.c:122-152 | the index entry, whatever the window held; the window matches the file afterwards |
| CsoReader.Reader.FillDataWindow | modules/galaxy/csoread.c:204-219 | the window covers the block and matches the file, or is marked invalid |
| CsoReader.Reader.Decompress | modules/galaxy/csoread.c:220-239 | decompressing from the window gives the block of the image |
| CsoReader.Reader.ReadOne | modules/galaxy/csoread.c:157-240 | one block of the image, plain or compressed |
| CsoReader.Reader.ReadWhole | modules/galaxy/csoread.c:302-314 | the whole blocks of a request |
| CsoReader.Reader.ReadHead | modules/galaxy/csoread.c:284-300 | the part before the first block boundary |
| CsoReader.Reader.ReadTail | modules/galaxy/csoread.c:316-324 | the part behind the last block boundary |
| CsoReader.Reader.ReadFile | modules/galaxy/csoread.c:274-327 | exactly the bytes asked for of the decompressed image, or a device failure, however earlier calls left the windows |
| FatVolume.StreamSplits | ipl/common/fat.c:465-487 | the sectors of a chain in two parts are the sectors of the whole |
| FatVolume.OnlyTheTableMatters | ipl/common/fat.c:38-89 | the assumption on a volume is one on its allocation table only: data, directories and the faults of all other sectors are free |
| FatExamples.NamedVolumeIsSound | ipl/common/fat.c:38-89 | it holds of a FAT32 volume with a named file and a data sector that can never be read |
| FatRead.Driver.ReadSector | ipl/common/fat.c:24-36 | the sector primitive: the sector, or a failure that writes nothing |
| FatRead.Driver.GetNextCluster | ipl/common/fat.c:38-89 | the table entry of a cluster, for every cluster that the table has an entry for |
| FatRead.Driver.FillFileStruct | ipl/common/fat.c:200-212 | the open file is the one that the entry describes, at its start |
| FatRead.Driver.OpenedIsValid | ipl/common/fat.c:200-212 | a file just opened can be read from its first byte |
| FatRead.Driver.MoveOn | ipl/common/fat.c:465-491 | the next sector of the chain; at its end the file is over, completely if and only if the chain was long enough |
| FatRead.Driver.ReadRest | ipl/common/fat.c:449-455 | the last part of the file through the sector buffer |
| FatRead.Driver.ReadFull | ipl/common/fat.c:459-460 | one sector of the file straight into the buffer |
| FatRead.Driver.TakeRest | ipl/common/fat.c:447-457 | what is left after the whole sectors, or nothing if the sector cannot be read |
| FatRead.Driver.TakeSector | ipl/common/fat.c:459-491 | one whole sector of the file, and the move to the next |
| FatRead.Driver.Read | ipl/common/fat.c:434-495 | the next bytes of the file; bytes delivered and bytes remaining add up unless the chain is too short |
| FatRead.ReadAll | ipl/common/fat.c:434-495 | any sequence of calls delivers a prefix of the chain's bytes; all that was asked for, up to the file size, if no sector of the file may fail and the chain is long enough |
| FatNames.LongNameReassembled | ipl/common/fat.c:247-264 | a long name stored piece by piece, last piece first, is the name that is compared |
| FatNames.ShortNameReadBack | ipl/common/fat.c:287-318 | a base and an extension stored in the 8.3 fields are read back with a dot between |
| FatNames.FoundIsUnique | ipl/common/fat.c:214-358 | at most one entry is the first one with a name |
| FatFind.Longer | ipl/common/fat.c:247-264 | writing an entry's characters in front of those collected extends the long name by one entry |
| FatFind.CollectLong | ipl/common/fat.c:251-263 | the thirteen characters, written downwards |
| FatFind.CopyField | ipl/common/fat.c:293-315 | a field up to its first space |
| FatFind.BuildShort | ipl/common/fat.c:289-318 | the 8.3 name as a C string at the start of the buffer |
| FatFind.LongMatches | ipl/common/fat.c:277-279 | whether the collected long name equals the query |
| FatFind.ShortMatches | ipl/common/fat.c:287-320 | whether the 8.3 name does |
| FatFind.ExamineLive | ipl/common/fat.c:272-327 | a live entry is opened if and only if one of its names equals the query |
| FatFind.Examine | ipl/common/fat.c:247-331 | the verdict on one entry: the end of the directory, the file, or go on with the long name so far |
| FatFind.ScanEntries | ipl/common/fat.c:241-334 | the sixteen entries of a sector |
| FatFind.InCluster | ipl/common/fat.c:233-234 | the sectors of one cluster follow each other, and then comes the next cluster |
| FatFind.ScanRegion | ipl/common/fat.c:237-344 | all entries of a cluster or of the root directory; long names go on across sectors; a failure means that a sector on the way to the file may fail |
| FatFind.FindFile | ipl/common/fat.c:214-358 | opens the first live entry before the end marker whose long or 8.3 name equals the query but for case; -1 means that there is none that a search can get to; where faults are certain, 0 is returned if and only if there is one with no failing sector on the way |
| FatExamples.NamedEntries | ipl/common/fat.c:214-358 | on that volume the file is in reach of the search |
| FatExamples.OneSectorTooMany | ipl/common/fat.c:237-344 | a volume whose directory can be read, with a file that is not in reach: the sector behind a cluster fails |
| PrintfNumbers.DigitsReadBack | ipl/common/printf.c:292-296 | the digits of a number parse back to it, in bases 2, 8, 10 and 16 |
| PrintfNumbers.WordDigits | ipl/common/printf.c:282-296 | the digits of a word always fit the conversion buffer |
| PrintfFields.NumberLayout | ipl/common/printf.c:200-300 | a number without '#' and precision is its sign and digits, with spaces or zeros where the flags want them; where zeros have to fill more than 32 characters, 32 without a sign |
| PrintfFields.NumberWidth | ipl/common/printf.c:200-300 | the field is exactly the larger of width and natural length, if and only if zeros do not have to fill more than 32 characters |
| PrintfFields.NumberReadBack | ipl/common/printf.c:200-300 | reading a printed number gives it back with its sign, if and only if it is not a negative number whose zeros have to fill more than 32 characters |
| PrintfFields.NumberWithPrecision | ipl/common/printf.c:229-300 | a number with a precision is a sign and zero-padded digits in a field of spaces; the digits are as many as asked for if and only if no padding is needed, or the field is not left-adjusted and the precision at most 32 |
| PrintfFields.HashPrefix | ipl/common/printf.c:245-263 | what '#' makes of a number other than zero, for every width and precision; prefix and digits are all printed if and only if only padding zeros are taken away and the buffer has room |
| PrintfFields.HashLosesDigits | ipl/common/printf.c:247-252 | 1234 in hexadecimal with '#' and a width of four is printed as 0x34 |
| PrintfFormat.NarrowedIs | ipl/common/printf.c:756-761 | narrowing to a size keeps the value modulo that size and brings it into its range |
| PrintfFormat.IntegerReadBack | ipl/common/printf.c:707-791 | an integer conversion reads back as the argument, narrowed as its length says, if and only if no sign is lost, and fills its field if and only if zeros do not overfill the buffer |
| PrintfDirective.DirectiveReadBack | ipl/common/printf.c:603-703 | flags, width, precision and length of a directive come back as they were written |
| PrintfDirective.PlainText | ipl/common/printf.c:591-598 | a format without directives prints itself |
| PrintfDirective.IntegerFormat | ipl/common/printf.c:582-791 | a written integer directive prints a field of the width asked for whose number is the argument, each exactly as far as the conversion buffer allows |
| PrintfDirective.StringFormat | ipl/common/printf.c:834-859 | a string directive prints as much of the string as the precision allows, with spaces up to the width on the side the flags say |
| Printf.Out | ipl/common/printf.c:135-139 | stores a character unless it is at or past the limit |
| Printf.OutMany | ipl/common/printf.c:206-223 | padding, of which what fits is stored |
| Printf.OutBackwards | ipl/common/printf.c:212-215 | the conversion buffer in reverse |
| Printf.OutRev | ipl/common/printf.c:200-225 | the conversion buffer backwards, in its field |
| Printf.Fill | ipl/common/printf.c:232-243 | leading zeros, as far as the conversion buffer has room |
| Printf.Prefix | ipl/common/printf.c:245-263 | the prefix that the hash flag asks for |
| Printf.Sign | ipl/common/printf.c:265-273 | the sign, if there is room |
| Printf.NtoaFormat | ipl/common/printf.c:229-276 | padding, prefix, sign and output together |
| Printf.PutDigits | ipl/common/printf.c:291-297 | the loop leaves the digits in reverse and never runs out of buffer |
| Printf.NtoaLong | ipl/common/printf.c:280-300 | prints the text of a number |
| Printf.ScanFlags | ipl/common/printf.c:603-636 | the flags |
| Printf.Atoi | ipl/common/printf.c:190-196 | the number, modulo 2^32 |
| Printf.ScanWidth | ipl/common/printf.c:638-652 | the width, or the next argument, whose sign asks for left adjustment |
| Printf.ScanPrecision | ipl/common/printf.c:654-667 | the precision, or the next argument if that is positive |
| Printf.ScanDirective | ipl/common/printf.c:603-703 | the parsing loops read the directive |
| Printf.OutField | ipl/common/printf.c:813-859 | a character or string in its field |
| Printf.StrnLen | ipl/common/printf.c:175-179 | the length of a string, up to a limit |
| Printf.OutString | ipl/common/printf.c:834-859 | the string loop prints as much as the precision allows, in its field |
| Printf.Narrow | ipl/common/printf.c:739-787 | the casts give the argument that the length asks for |
| Printf.Masked | ipl/common/printf.c:715-736 | base and flags of a conversion after the masks |
| Printf.OutInteger | ipl/common/printf.c:707-791 | an integer conversion prints the text of its number |
| Printf.Convert | ipl/common/printf.c:706-890 | the branches of the conversion character: each prints its text and uses up its argument |
| Printf.Step | ipl/common/printf.c:591-890 | one character or directive of the format adds its text to the output |
| Printf.Terminate | ipl/common/printf.c:893-894 | the terminator goes behind the text, or on the last byte |
| Printf.Vsnprintf | ipl/common/printf.c:582-898 | stores the longest prefix of the unbounded output that fits, the terminator right behind it, nothing at or past the count, and returns the unbounded length |
| Nand.Chip.WriteBlock | modules/ipl_update/main.c:56 | the chip's primitive: the block as written, or a failure of a block that may fail |
| Nand.Chip.EraseBlock | modules/ipl_update/main.c:45 | the chip's primitive: the block erased, or a failure that touches no other block |
| Nand.Chip.ReadFirstPageRaw | modules/ipl_update/main.c:68 | the chip's primitive: the first page and its spare bytes |
| Nand.Chip.ReadBlock | modules/ipl_update/main.c:101 | the chip's primitive: the data of a block |
| IplBlocks.TableReadBack | modules/ipl_update/main.c:88-94 | a table stored in a page is the table that is read |
| IplBlocks.AreaIsTooSmall | modules/ipl_update/main.c:31-177 | no table of blocks of the data area has 32 entries |
| IplBlocks.GoodBlocksAreEnough | modules/ipl_update/main.c:158-198 | a table of good blocks has no more entries than there are good blocks |
| IplBlocks.NothingTakes | modules/ipl_update/main.c:175-195 | without a good block below 30 (hex), no block number is accepted |
| IplBlocks.PastTheArea | modules/ipl_update/main.c:175-195 | behind the data area of a perfect chip, the next block number accepted is 8000000 (hex), for block 0 |
| IplBlocks.HugeIsNothing | modules/ipl_update/main.c:142 | a size within a block of 2^32 counts as no blocks |
| IplBlocks.StoredIsFetched | modules/ipl_update/main.c:59-114 | through whichever mirror is found first, the data comes back, filled up with FF |
| IplUpdate.Updater.EraseIplBlock | modules/ipl_update/main.c:37-46 | no block from 30 (hex) on is ever erased |
| IplUpdate.Updater.WriteIplBlock | modules/ipl_update/main.c:48-57 | no block from 30 (hex) on is ever written |
| IplUpdate.Updater.ClearIpl | modules/ipl_update/main.c:116-133 | only the area of the loader changes |
| IplUpdate.Updater.InitSpare | modules/ipl_update/main.c:150-156 | the spare bytes of data blocks, with key and signature |
| IplUpdate.Updater.TryBlock | modules/ipl_update/main.c:177-194 | one block number, its page number modulo 2^32: the block takes the data, or no good block is there |
| IplUpdate.Updater.WriteOne | modules/ipl_update/main.c:175-195 | the loop ends at the next block number that is accepted, which stays in the area as long as a good block is ahead; all block numbers before it lead to no good block |
| IplUpdate.Updater.PieceOf | modules/ipl_update/main.c:162-173 | the data of one block; the last one filled up with FF |
| IplUpdate.Updater.WriteData | modules/ipl_update/main.c:158-198 | the pieces of the data are in strictly increasing blocks of the data area, which the table lists, if there are enough good ones; with one too many on a perfect chip the last one is in block 0 |
| IplUpdate.Updater.PutTable | modules/ipl_update/main.c:201-202 | the page of the table: its entries, and zeros behind them |
| IplUpdate.Updater.WriteMirrors | modules/ipl_update/main.c:200-224 | every mirror holds the table or is a block that may fail |
| IplUpdate.Updater.SetIpl | modules/ipl_update/main.c:135-233 | table in every good mirror, 0 exactly if one took it; data and spare bytes in the data area and nothing else changed if it has room, which, where faults are certain, is the case if and only if the table lists blocks of the area; with 32 blocks on a perfect chip block 0 is overwritten |
| IplUpdate.Updater.FindMirror | modules/ipl_update/main.c:65-86 | the first good block with the signature |
| IplUpdate.Updater.ReadTable | modules/ipl_update/main.c:88-94 | the entries up to the first zero, at most 32 |
| IplUpdate.Updater.ReadData | modules/ipl_update/main.c:96-113 | the data of the blocks of the table, in order |
| IplUpdate.Updater.GetIpl | modules/ipl_update/main.c:59-114 | the data that the first mirror leads to, or an error with its reason |
| IplUpdate.RoundTrip | modules/ipl_update/main.c:59-233 | after a successful write, if no failed mirror carries the signature, every mirror a reader may find leads to the data |
| IplUpdate.OverflowIsLost | modules/ipl_update/main.c:88-113 | a table whose last entry is block 0 is read without it |
| IplUpdate.Updater.SetThenGet | modules/ipl_update/main.c:59-233 | writing and then reading gives the data back, filled up with FF, when reads do not fail, the area has room and no failed mirror carries the signature; with 32 blocks on a perfect chip the last block does not come back |
| PartitionTable.ChsReadBack | modules/lflash_fdisk/main.c:105-128 | decoding the three bytes of an address within the geometry gives the address back |
| PartitionTable.BeyondMeans | modules/lflash_fdisk/main.c:115-119 | an address is clamped if and only if it is not below the number of sectors of all cylinders |
| PartitionTable.RecordReadBack | modules/lflash_fdisk/main.c:130-182 | start, length and kind of a record come back from its bytes |
| PartitionTable.SectorReadBack | modules/lflash_fdisk/main.c:184-206 | a table leads to its partition and to the next table |
| PartitionTable.ListsOne | modules/lflash_fdisk/main.c:184-206 | a chain of tables describes at most one list of partitions |
| PartitionTable.ChainLists | modules/lflash_fdisk/main.c:273-282 | the tables, read from any one on, describe exactly the partitions from there on |
| PartitionTable.ExpectedLayout | modules/lflash_fdisk/main.c:248-282 | the partitions follow each other a track apart, inside the extended partition |
| PartitionTable.DescribesPartitions | modules/lflash_fdisk/main.c:208-285 | a reader that starts at the first sector finds exactly the partitions |
| Fdisk.FitsExactly | modules/lflash_fdisk/main.c:261-265 | partitions that pass the check fit the device if and only if it has a cylinder and the lengths do not sum up to 2^32; those that fit meet the conditions of the layout results |
| Fdisk.TinyDevice | modules/lflash_fdisk/main.c:261-265 | a device of one sector that passes the check with a partition of 64 |
| Fdisk.WrappedSum | modules/lflash_fdisk/main.c:248-265 | four partitions of 2^30 sectors that pass the check on a device of 64 |
| Fdisk.Fdisk.AddPartition | modules/lflash_fdisk/main.c:70-82 | appends a size, up to sixteen |
| Fdisk.Fdisk.SetCHS | modules/lflash_fdisk/main.c:105-128 | stores the three bytes and tells whether the address was clamped |
| Fdisk.Fdisk.CreatePartitionRecord | modules/lflash_fdisk/main.c:130-182 | stores one record and nothing else |
| Fdisk.Fdisk.WritePartitionTable | modules/lflash_fdisk/main.c:184-206 | writes one table to its sector, and no other sector |
| Fdisk.Fdisk.SetGeometry | modules/lflash_fdisk/main.c:213-219 | the number of cylinders, between 1 and 1024 |
| Fdisk.Fdisk.ComputeSizes | modules/lflash_fdisk/main.c:248-259 | the lengths of the partitions and their sum |
| Fdisk.Fdisk.WriteTables | modules/lflash_fdisk/main.c:273-282 | all tables are at their places and nothing else has changed |
| Fdisk.Fdisk.DoFdisk | modules/lflash_fdisk/main.c:208-285 | -1 without a write if and only if the check fails; partitions that pass fit if and only if the device has a cylinder and the lengths do not sum up to 2^32; on success the tables on the device describe exactly the computed partitions |

## Left out

- AesCore.AES_set_encrypt_key: the 256-entry tables are the formulas in the comment above them, not the literals.
- Cmac.EncryptRegion: the branches for other mode bits than the constant 3 cannot be reached and are not modelled.
- Signcheck.GenerateSigncheck: the built-in keys are constants; the other key generators of the module, HMAC-SHA1 and the fuse id's origin are not modelled.
- UmdTable.UM2: at most FFFFFF (hex) ids, so that the 32-bit counts do not wrap around; buffers that are wiped at the end are not tracked.
- KeyLookup.GetUmdKey: the 772 table keys and the keys of the twelve known ids are parameters.
- FlashEmu.Emulation.SlotOpen: the kernel is assumed to stop reporting 80010018 (hex) after finitely many tries and never to answer with descriptor 0.
- FlashEmu.Emulation.SlotGetFd: seeking an open descriptor is assumed to succeed; the value of PSP_O_RDONLY is the SDK's.
- FlashEmu.Emulation.LseekMain: positions are not cut to 32 bits, and relative seeks go forward only.
- FlashEmu.Do: the semaphore, the wait for the memory stick, rename, remove, mkdir, stat and ioctl calls, paths of 192 bytes or more, and slots closed by the suspend event while open for writing are not modelled.
- CsoReader.Reader.ReadUmd: the reopening of the device between retries is not modelled; a read delivers its bytes or fails.
- CsoReader.Reader.ReadFile: the header is not parsed (CisoOpen), decompression is a function of the bytes from a block's start, and requests lie inside the image.
- FatRead.Driver.GetNextCluster: FAT12 is not modelled; the entries of the allocation table can be read, have their reserved bits clear and do not lead out of the table.
- FatRead.Driver.Read: sizes are multiples of 512, as the code needs.
- FatFind.FindFile: long names of more than nineteen entries before the end marker, which run out of the name buffer, are excluded; chains are not circular. Where faults are not certain, a result is not determined: 0 and -1 each tell what they imply.
- FatFind.FindFile: mounting, the detection of the FAT type and the splitting of paths in MsFatOpen are not modelled.
- Printf.Vsnprintf: formats that end inside a directive, which the code reads past, are excluded; the count does not exceed the buffer, so sprintf with its unlimited count is not covered; a null buffer and the output through a function are not modelled; the length is returned without being cut to an int.
- PrintfFormat.IntegerReadBack: char is signed and int, long and pointers have 32 bits, as on the target; a '%t' has no length meaning there.
- IplUpdate.Updater.SetIpl: error correction bytes of raw pages are arbitrary; scrambling and locking are not modelled. A good block below 30 (hex) is required, without which the loop need not end. Where the data leaves its area on a chip with bad blocks, the contents of the area are not stated.
- Fdisk.Fdisk.DoFdisk: the default geometry is not modelled; a cylinder has fewer than 2^31 sectors, the device fewer than 2^31; that partitions are longer than a track is a condition of the result, and for partitions that pass the check without fitting the tables are not described.
- Fdisk.Device.WriteSector: block numbers are not scaled to byte offsets.
- Hardware access, code patching, boot payloads and the user interface of the repository: no algorithm, or only easy members.

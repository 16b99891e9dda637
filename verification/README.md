# Verified model of the HSM firmware

The firmware is a hardware security module with a small encrypted file store: eight slots on NOR
flash, a framed and acknowledged serial protocol to a host and to a peer device, a PIN, provisioned
group permissions, and a challenge-response transfer of files between devices. This project models
its stateful core in Dafny and proves what that core keeps over whole runs. `dafny verify
dfyconfig.toml` checks everything.

How the modules follow the program:

- `Wrappers`, `Bytes`: optional values, bytes, little-endian fields, bitwise operators.
- `Flash`, `FlashDevice` (`simple_flash.c`): pages and ECC words as a value, and the driver as a class
  whose ghost log records every controller command that took effect. A power cut or a controller
  fault is a prefix of that log.
- `BlobModel` (format, command sequences, reader), `BlobFlash` (what cut command sequences leave),
  `BlobRead` and `BlobAuthentic` (what the reader makes of it), `BlobRuns` and `BlobTheorems` (whole runs), `BlobStore`
  (the code of `secure_blob_store.c`, proved to step the run machine).
- `Sha256Spec`, `Sha256Constants`, `Sha256Abc`, `Sha256Stream`, `Hmac` (`sha256_raw.c`), `KeySchedule` (`secure_crypto.c`),
  `FirmwareCrypto` (the store's cryptographic parameters instantiated).
- `Transport`, `TransportMachine`, `TransportAlone` (`host_messaging.c`): the code against stream
  functions, the two ends as a product machine, and each end of it against those functions.
- `ReplayRing` (`secure_design.c`), `Pin` (`security.c`), `HandshakeRuns` (the distributed protocol).
- `HsmModel`, `Commands`, `Session`, `Transfer` (`commands.c`): the two tables against flash and a plain
  file map, the handlers, whole sessions, and two devices.
- `Protocol` (`commands.c`): the handlers of any number of devices against the runs of `HandshakeRuns`.

Where the code and its documentation disagree the model follows the code:

- `README.md` line 24 says that a power cut leaves the previous slot state intact and that incomplete
  writes are discarded on boot. A write erases the slot first and rewrites the whole FAT page;
  `PreviousFileSurvives`, `OtherFileSurvives` and `IncompleteWriteRead` give the exact conditions. What
  does hold is `CrashSafety`: never torn or mixed contents. The directory entry can be the old one:
  `UncommittedOverwriteRead` is an overwrite that is live under the uuid of the file it replaced.
- `blob_write` accepts contents of up to 11680 bytes, but the tag area has room for 32 tags, that is for
  8192 bytes; `RecordConfined` is the exact condition.
- `firmware/inc/security.h` documents a lock after five wrong PINs; `pin_is_locked` is constantly false,
  and `NoLockout` is what that means over sessions.
- `README.md` line 55 gives names 8 bytes and its memory map places the slots above the PIN page; the
  code uses 32-byte names and slots from 0x22000.

## Model

| member | source | states |
|---|---|---|
| BlobRuns.CrashSafety | firmware/src/secure_blob_store.c:262-417 | For every run of record writes, deletes, name and PIN page rewrites and reboots, each cut after any flash command: a successful read of a slot returns in full the data of the last write that began erasing it, and there is such a write; the only alternative is a concrete forgery, the AEAD accepting the first chunk under a header prefix cut inside its first 64 bytes. |
| BlobRuns.CrashSafetyBetweenCalls | firmware/src/secure_blob_store.c:328-417 | When power is lost only between driver calls the same holds with no assumption on the AEAD at all. |
| BlobTheorems.RoundTrip | firmware/src/secure_blob_store.c:343-414 | After a complete write, every later run of activity on other slots leaves reads of the slot answering exactly what the record calls for (data, permission denied, or bad length); if runs may be cut, the one other answer is that the file is not found. |
| BlobTheorems.PartsRoundTrip | firmware/src/secure_blob_store.c:494-564 | A complete record read in any sequence of blob_read_chunk calls whose lengths, all but the last, are multiples of 256 gives the data, and blob_read_finish accepts: chunk index, slot index and running tag digest match the writer. |
| BlobTheorems.PartsJoin | firmware/src/secure_blob_store.c:494-541 | On any flash contents, such a sequence of calls returns what one call returns and leaves the same cursor. |
| BlobTheorems.PreviousFileSurvives | firmware/src/secure_blob_store.c:328-416 | README.md line 24 promises that a power cut leaves the previous slot state; for every cut of an overwrite with other data, with or without the reboot, the previous file is read if and only if none of the flash commands took effect. |
| BlobTheorems.IncompleteWriteRead | firmware/src/secure_blob_store.c:328-416 | The same line says that incomplete writes are discarded on boot; after an interrupted overwrite and a reboot the new data is read if and only if its FAT entry had been programmed again, or the cut fell before the FAT erase with the header bytes that the cut left readable (a condition on the write and the cut alone) and the new contents as long as the old, and then the FAT entry is still the old one. |
| BlobTheorems.UncommittedOverwriteRead | firmware/src/secure_blob_store.c:399-416 | An input for it: an overwrite of equal length cut just before the FAT erase is live after the reboot, under the uuid of the file it replaced. |
| BlobRead.TornReadExact | firmware/src/secure_blob_store.c:197-246 | Barring a forgery, a slot in the middle of its last write reads as that write exactly when two header words are written, the FAT entry has its address and length, and the header bytes a reader depends on, as the cut left them, are those of the complete header. |
| BlobTheorems.OtherFileSurvives | firmware/src/secure_blob_store.c:180-191 | After an interrupted write and a reboot the file of another slot t is readable if and only if the cut fell before the FAT erase or after the (3t+3)th FAT word had been programmed again. |
| BlobTheorems.TornFat | firmware/src/secure_blob_store.c:169-195 | Cutting a FAT rewrite after its erase and any number of ascending word programs leaves each of the 8 entries exactly new or with an all-ones address, and says which. |
| BlobTheorems.FatRoundTrip | firmware/src/secure_blob_store.c:180-191 | The 24-byte packed entries of a programmed FAT page parse back to the table they were made from. |
| BlobTheorems.RunObeysRule | firmware/src/simple_flash.c:75-110 | In every run, cut anywhere, each programmed 8-byte word is aligned, was erased, and was not programmed since its erase; the concatenated commands produce the chip of the run. |
| BlobTheorems.EventConfined | firmware/src/secure_blob_store.c:154-195 | Every flash command of an operation lies in the slot or the page being updated. |
| BlobTheorems.NextHolds | firmware/src/secure_blob_store.c:262-417 | One operation on another slot, or on the name or PIN page, keeps a stored record and its FAT entry, in RAM and on flash. |
| BlobTheorems.WriteHolds | firmware/src/secure_blob_store.c:345-416 | A write that runs to its end installs the complete record and its FAT entry. |
| BlobTheorems.FatAfter | firmware/src/secure_blob_store.c:169-195 | An operation that ends with a FAT rewrite, cut anywhere, leaves each entry on flash old, new or empty; uncut, exactly new. |
| BlobRuns.Layout | firmware/src/commands.c:12-18 | Eight slots of twelve pages, the FAT page, the name page and the PIN page follow each other without a gap. |
| BlobFlash.RecordConfined | firmware/src/secure_blob_store.c:285-289 | A record write stays inside its 12288-byte slot if and only if the contents have at most 8192 bytes, although the length check admits 11680. |
| BlobFlash.RecordPrefix | firmware/src/secure_blob_store.c:328-402 | A write cut after any positive number of commands: no header unless the header phase began, and once it began all chunks and tags are complete on flash. |
| BlobFlash.BodyEffect | firmware/src/secure_blob_store.c:343-384 | After n chunks the ciphertext and tag areas hold exactly those chunks, everything else in the slot is still erased, and no word was programmed twice. |
| BlobFlash.PagePrefix | firmware/src/commands.c:71-81 | A page rewrite cut after k commands leaves exactly the first k-1 words programmed, the rest of the page erased and all other flash unchanged. |
| BlobFlash.WriteObeysRule | firmware/src/simple_flash.c:75-110 | A record write with its FAT rewrite programs every word once after an erase, whatever is on flash before. |
| BlobFlash.DeleteObeysRule | firmware/src/simple_flash.c:75-110 | So does a delete. |
| BlobRead.ReadIntact | firmware/src/secure_blob_store.c:494-541 | From any chunk boundary, reading to another boundary or to the end returns exactly those bytes of the data. |
| BlobRead.ReadComplete | firmware/src/secure_blob_store.c:430-603 | The exact answer of a read from a completely written slot, for every mask, PIN hash and buffer size. |
| BlobAuthentic.Authenticity | firmware/src/secure_blob_store.c:418-588 | Whatever is on flash, in whatever order and copied from wherever: when no two records share a nonce, a successful read of a file that is not empty returns in full the data of one record written to that slot, in a group and under an owner that the reader accepts; the alternatives are a named forgery of the AEAD and two chunk indices with one key. |
| BlobAuthentic.OnePiece | firmware/src/secure_blob_store.c:494-541 | Each accepted piece is the chunk at that index of a record that the header describes. |
| BlobAuthentic.MovedChunk | firmware/src/secure_blob_store.c:494-541 | Chunk j in the place of chunk i is tried under the key of index i although sealed under that of index j. |
| BlobRead.ReadTorn | firmware/src/secure_blob_store.c:197-246 | With a header cut after j words, whatever the FAT holds, a read that succeeds returns the whole data or exhibits the forgery; with fewer than two words it cannot succeed. |
| BlobRead.TornCursor | firmware/src/secure_blob_store.c:430-481 | A torn header that is accepted still names the length and group of the last write. |
| BlobRuns.NextKeepsInv | firmware/src/secure_blob_store.c:262-417 | Every event keeps: each slot is blank or holds its last record as far as the header got. |
| BlobStore.Store.constructor | firmware/src/secure_blob_store.c:248-257 | blob_store_init: the RAM table is the one on the FAT page. |
| BlobStore.Store.FindWriteSlot | firmware/src/secure_blob_store.c:95-118 | The slot asked for, or the lowest empty one, with the status of each case. |
| BlobStore.Store.BuildAad | firmware/src/secure_blob_store.c:120-137 | g_aad holds the 60 authenticated header bytes. |
| BlobStore.Store.EraseSlotPages | firmware/src/secure_blob_store.c:154-167 | The controller log grows by the 12 page erases in order, or by a prefix of them on a fault. |
| BlobStore.Store.CommitFatEntry | firmware/src/secure_blob_store.c:169-195 | The log grows by the erase and the programs of the updated page, or a prefix; the RAM table changes only when all of it succeeded. |
| BlobStore.Store.WriteBody | firmware/src/secure_blob_store.c:343-384 | The chunk loop issues exactly the chunk and tag programs of the record and absorbs exactly its tags. |
| BlobStore.Store.WriteRecord | firmware/src/secure_blob_store.c:328-416 | From the erase on, the command sequence is that of the record, prefix on fault, and the FAT entry is installed exactly on success. |
| BlobStore.Store.Write | firmware/src/secure_blob_store.c:262-417 | Every admission error leaves all state alone; an admitted write is one step of the run machine, cut where the controller failed. |
| BlobStore.Store.Delete | firmware/src/secure_blob_store.c:647-666 | Likewise for deletes, with the invalid-slot and not-found cases. |
| BlobStore.Store.FetchHeader | firmware/src/secure_blob_store.c:197-246 | load_header with every rejection. |
| BlobStore.Store.ReadInit | firmware/src/secure_blob_store.c:430-481 | Opens exactly the cursor, or answers exactly the status, that flash, FAT, mask and PIN hash call for. |
| BlobStore.Store.ReadChunk | firmware/src/secure_blob_store.c:494-541 | Delivers exactly the decrypted bytes into the caller window, touches nothing outside it, and rejects over-long requests without effect. |
| BlobStore.Store.NextPiece | firmware/src/secure_blob_store.c:501-537 | One chunk: stored bytes fetched, tag absorbed, decryption outcome; the position advances only when decryption succeeded. |
| BlobStore.Store.ReadFinish | firmware/src/secure_blob_store.c:543-564 | Accepts exactly when the tag over the absorbed tags equals the header tag. |
| BlobStore.Store.Read | firmware/src/secure_blob_store.c:566-645 | blob_read_all and its group-mask form: status, length and buffer of the reader specification; the needed length and an untouched buffer when it does not fit; a zeroed window after a wrong final tag; nothing outside the window changed. |
| BlobStore.WriteIsStep | firmware/src/secure_blob_store.c:262-417 | What Store.Write does, for contents of at most 8192 bytes, is an enabled event of the run machine, so all run theorems apply to the code. |
| BlobStore.DeleteIsStep | firmware/src/secure_blob_store.c:647-666 | The same for Store.Delete. |
| BlobModel.LoadHeader | firmware/src/secure_blob_store.c:197-246 | A header is only ever accepted for a valid slot, with a length that fits, and never reported as an error called success. |
| FirmwareCrypto.FirmwareLawful | firmware/src/secure_blob_store.c:139-152 | The firmware key schedule with any AEAD whose decryption undoes encryption satisfies everything the store theorems assume. |
| FirmwareCrypto.FirmwareChunkKeys | firmware/src/secure_crypto.c:325-344 | Different chunks of a file get keys expanded from different info strings. |
| FirmwareCrypto.FileKeysDistinct | firmware/src/secure_crypto.c:76-115 | Two groups share a file key only by a SHA-256 collision. |
| FirmwareCrypto.KeysSeparate | firmware/src/secure_crypto.c:30-35 | A file key is a signing key only by a SHA-256 collision. |
| FirmwareCrypto.BlobTagsDistinct | firmware/src/secure_blob_store.c:389-393 | Two sequences of chunk tags share a blob tag only by a SHA-256 collision. |
| FirmwareCrypto.SharedKeyCollides | firmware/src/secure_crypto.c:325-344 | The shared chunk key of Authenticity is, for these keys, a SHA-256 collision. |
| Flash.ProgramsEffect | firmware/src/simple_flash.c:75-110 | After k words of a buffer onto erased flash, exactly the padded prefix is stored, the rest of the region is still erased and nothing else changed. |
| Flash.ProgramWhole | firmware/src/simple_flash.c:75-110 | Programming a whole buffer onto erased flash stores it, obeys the write-once rule and changes nothing outside. |
| Flash.Frame | firmware/src/simple_flash.c:28-50 | Commands that avoid a region leave its bytes and its erased words alone. |
| Flash.WriteOnceConcat | firmware/src/simple_flash.c:75-110 | The write-once rule composes over consecutive operations. |
| Flash.ErasedBetween | firmware/src/simple_flash.c:60-110 | In a run that obeys the rule, between two programs of one word its page was erased. |
| FlashDevice.Device.ErasePage | firmware/src/simple_flash.c:28-50 | One erase in the log exactly on success; the array is the run of the log. |
| FlashDevice.Device.Write | firmware/src/simple_flash.c:75-110 | The 64-byte loop with 0xFF padding to even word counts issues exactly the 8-byte word programs of the buffer, in order, or a prefix on a fault. |
| FlashDevice.BlockWords | firmware/src/simple_flash.c:84-92 | The words of one padded 64-byte step are the words of the whole buffer at that position. |
| Sha256Stream.Ctx.Compress | firmware/src/sha256_raw.c:63-98 | In-place schedule and register loops compute the compression function of section 6.2.2 of FIPS 180-4 and wipe the schedule. |
| Sha256Stream.Ctx.BuildSchedule | firmware/src/sha256_raw.c:69-77 | The schedule array holds W(0..63) of section 6.2.2, although the code sums in the opposite order. |
| Sha256Stream.Ctx.RunRounds | firmware/src/sha256_raw.c:79-91 | The register loop computes the 64 rounds. |
| Sha256Stream.Ctx.Update | firmware/src/sha256_raw.c:111-136 | Whatever is passed is appended to the hashed message: direct blocks, buffered parts and every split give the same state. |
| Sha256Stream.Ctx.Final | firmware/src/sha256_raw.c:138-178 | The digest of the whole message by section 6.2 with the padding of section 5.1.1, rest of the output untouched, context wiped. |
| Sha256Stream.Ctx.PadTo56 | firmware/src/sha256_raw.c:141-155 | One or two padding blocks: compressing the 56 bytes and the length completes the padded message. |
| Sha256Stream.SumOrder | firmware/src/sha256_raw.c:73-77 | Modular addition may be reordered as the code does. |
| Sha256Spec.HashBlocksPrefix | firmware/src/sha256_raw.c:111-136 | The chaining value after n blocks depends on those blocks only. |
| Sha256Constants.RoundConstants | firmware/src/sha256_raw.c:36-53 | Each round constant is the first 32 bits of the fractional part of the cube root of its prime (section 4.2.2 of FIPS 180-4). |
| Sha256Constants.InitialHash | firmware/src/sha256_raw.c:29-33 | The initial hash value comes in the same way from the square roots of the first eight primes (section 5.3.3). |
| Sha256Constants.RowIsPrimes | firmware/src/sha256_raw.c:36-53 | Those primes are the first 64, each row of eight continuing the one before without a gap. |
| Sha256Constants.PrimesIncrease | firmware/src/sha256_raw.c:36-53 | And in ascending order. |
| Sha256Abc.AbcDigest | firmware/src/sha256_raw.c:63-178 | The digest of the message "abc" is the one published for it: this fixes rotations, rounds, schedule, padding and byte order together. |
| Sha256Abc.LengthField | firmware/src/sha256_raw.c:157-163 | The length field holds the bit count, most significant byte first. |
| Hmac.HmacCtx.Init | firmware/src/sha256_raw.c:182-214 | Any key length; the pad buffer is turned from ipad to opad in place and wiped. |
| Hmac.HmacCtx.Update | firmware/src/sha256_raw.c:216-219 | Text is appended, for every split. |
| Hmac.HmacCtx.Final | firmware/src/sha256_raw.c:221-232 | The MAC of section 2 of RFC 2104. |
| Hmac.PadsInPlace | firmware/src/sha256_raw.c:205-208 | XORing the ipad block with 0x6a gives the opad block, byte by byte. |
| Hmac.ZeroExtendedKey | firmware/src/sha256_raw.c:186-201 | Zero bytes appended to a key of up to 64 bytes do not change the MAC. |
| Hmac.AbsentSalt | firmware/src/sha256_raw.c:255-265 | An absent salt, an empty one and 32 zero bytes give the same PRK (section 2.2 of RFC 5869). |
| Hmac.EqualMacs | firmware/src/sha256_raw.c:234-253 | Two MACs that agree although keys of one length or texts differ exhibit a SHA-256 collision on named inputs: the inner texts or the outer ones. |
| Hmac.EqualExpansions | firmware/src/sha256_raw.c:267-300 | So do equal expansions of different PRKs or info strings. |
| Hmac.ExtractInto | firmware/src/sha256_raw.c:255-265 | HKDF-Extract. |
| Hmac.ExpandInto | firmware/src/sha256_raw.c:267-300 | For every length up to 8160 the output is the prefix of T(1)|T(2)|... of section 2.3 of RFC 5869; the 8-bit counter does not wrap; the block is wiped. |
| Hmac.ExpandPrefix | firmware/src/sha256_raw.c:267-300 | A shorter request is a prefix of a longer one. |
| Hmac.TsPrefix | firmware/src/sha256_raw.c:275-297 | The first m output blocks do not depend on how many follow. |
| KeySchedule.Unit.DeriveKey | firmware/src/secure_crypto.c:48-63 | Label key, through the shared PRK buffer, which is wiped. |
| KeySchedule.Unit.DeriveGroupKey | firmware/src/secure_crypto.c:76-97 | Group key with the little-endian group id as salt; salt and PRK wiped. |
| KeySchedule.Unit.DeriveGroupSubkey | firmware/src/secure_crypto.c:99-115 | The composed derivation, intermediate key wiped. |
| KeySchedule.Unit.DeriveChunkKey | firmware/src/secure_crypto.c:325-344 | Chunk key with the little-endian index in the info string. |
| KeySchedule.Unit.Sign | firmware/src/secure_crypto.c:429-448 | The receive proof: HMAC of the message digest under the group signing key. |
| KeySchedule.Unit.Verify | firmware/src/secure_crypto.c:450-469 | Accepts exactly the signature that Sign computes, of exactly 32 bytes. |
| KeySchedule.Unit.HashPin | firmware/src/security.c:76-101 | The PIN hash, through the shared key buffer, which is wiped. |
| KeySchedule.EqualPinHashes | firmware/src/security.c:76-101 | Two PINs have one hash only by a SHA-256 collision inside the two HMACs. |
| KeySchedule.EqualProofs | firmware/src/secure_crypto.c:429-469 | One MAC proves two different groups or messages only by a SHA-256 collision: on the messages, in the HMACs, or on the way to the keys. |
| KeySchedule.EqualSubkeys | firmware/src/secure_crypto.c:76-115 | Keys of different groups or under different labels are equal only by such a collision. |
| KeySchedule.EqualGroupKeys | firmware/src/secure_crypto.c:76-97 | In particular group keys: the salts of two groups differ. |
| KeySchedule.EqualChunkKeys | firmware/src/secure_crypto.c:325-344 | Two chunks of a file have one key only by such a collision. |
| KeySchedule.AsciiInjective | firmware/src/secure_crypto.c:30-35 | Labels are the bytes of their names. |
| KeySchedule.SumDifferences | firmware/src/security.c:206-209 | The accumulated XOR differences are zero exactly when nothing differs. |
| KeySchedule.ChunkInfoDistinct | firmware/src/secure_crypto.c:325-344 | The chunk info string determines the chunk index. |
| TransportMachine.EveryInterleaving | firmware/src/host_messaging.c:93-217 | For every acknowledged type, payload and interleaving of the two machines: at most 256 bytes forward and 4 back in flight, every step uses up one of a fixed number of steps, and a run can only stop with both sides successful, the payload received and both FIFOs empty. |
| TransportMachine.NoDeadlock | firmware/src/host_messaging.c:93-217 | A reachable link is stuck exactly when it is finished. |
| TransportMachine.StepKeepsInv | firmware/src/host_messaging.c:93-217 | Either side may move at any time and the invariant survives; the measure drops by one. |
| Transport.Uart.WritePacket | firmware/src/host_messaging.c:93-155 | For every reverse stream, exactly the bytes sent, the acknowledgement bytes consumed and the status. |
| Transport.Uart.ReadPacket | firmware/src/host_messaging.c:157-267 | For every input stream, limit and buffer capacity: the body loop leaves the buffer exactly when Overruns says; otherwise the status, buffer, acknowledgements and leftover bytes are those of the specification, the header acknowledged before the length check. |
| Transport.SafeLimit | firmware/src/host_messaging.c:185-191 | Overruns holds of no stream exactly for a capacity of 65535 or a non-zero limit within the capacity; main in HSM.c passes neither. |
| TransportAlone.SenderIsSend | firmware/src/host_messaging.c:93-155 | On any reverse stream the sender of the product machine sends, consumes and ends as write_packet does. |
| TransportAlone.ReceiverIsReceive | firmware/src/host_messaging.c:157-267 | On any input stream the receiver of the product machine acknowledges, leaves over and ends as read_packet does. |
| Transport.Uart.AwaitAck | firmware/src/host_messaging.c:60-76 | Two bytes are checked and two skipped, with every failure. |
| Transport.SendFrame | firmware/src/host_messaging.c:118-155 | Given its acknowledgements, a write sends exactly the frame and consumes exactly them. |
| Transport.ReceiveFrame | firmware/src/host_messaging.c:157-217 | A frame is received as sent after any bytes other than the magic byte, whatever its payload contains, or rejected by the limit. |
| Transport.AckConservation | firmware/src/host_messaging.c:118-217 | A complete read emits 1+ceil(n/256) acknowledgements; a successful write consumed that many, or none for the three unacknowledged types. |
| Transport.RunResidue | firmware/src/host_messaging.c:118-217 | After any run of packets the reverse channel holds exactly the acknowledgements of the unacknowledged ones. |
| Transport.Unacknowledged | firmware/src/host_messaging.c:130-155 | Without a peer a write succeeds exactly for the types A, D and E, and those consume nothing. |
| Transport.NextReadAfterRun | firmware/src/host_messaging.c:93-217 | After any run of packets the next frame is what the next read of that line returns if and only if every packet was of an acknowledged type; otherwise the read takes a left-over acknowledgement as an empty packet of type A. That is what listen reads next after it has sent an ERROR packet. |
| Transport.StaleAck | firmware/src/host_messaging.c:157-267 | An acknowledgement that nobody consumed is itself a frame, and a read returns it as one and acknowledges it. |
| ReplayRing.Ring.CheckAndUpdate | firmware/src/secure_design.c:73-95 | A tuple is refused if and only if it is among the last eight accepted; a refusal changes nothing. |
| ReplayRing.Ring.Clear | firmware/src/secure_design.c:67-71 | Forgets every call. |
| ReplayRing.WindowDistinct | firmware/src/secure_design.c:73-95 | Any eight consecutive accepted tuples are pairwise distinct, across wrap-around. |
| ReplayRing.AcceptedIsFixed | firmware/src/secure_design.c:73-95 | Dropping the refused calls from a history does not change what was accepted. |
| Pin.DecodePage | firmware/src/security.c:102-139 | The page decodes to the state that was written, except that a counter of 2^32-1 reads as zero. |
| Pin.Guard.Init | firmware/src/security.c:153-181 | Provisions a blank page, loads any other, rejects a short provisioned PIN; on success the state is that of a power-up; touches only the PIN page. |
| Pin.Guard.CheckPin | firmware/src/security.c:185-221 | Accepts exactly when the hash of the PIN is the stored one, and then no other PIN has that hash unless a SHA-256 collision inside the two hashes is named; steps the counter machine, keeps RAM and flash in step, touches only the PIN page. |
| Pin.Guard.ChangePin | firmware/src/security.c:223-259 | Succeeds exactly when the hash of the old PIN is the stored one and both PINs have 6 to 20 bytes, and then stores the hash of the new one; same upkeep. |
| Pin.Guard.WriteState | firmware/src/security.c:102-121 | On success the page holds exactly the RAM state. |
| Pin.Guard.LoadState | firmware/src/security.c:124-139 | RAM becomes the decoded page. |
| Pin.ValidatePermission | firmware/src/security.c:267-294 | Grants exactly when the first table entry of the group grants the right. |
| Pin.RightsByField | firmware/src/security.c:267-294 | Read, write and receive permission are three fields of the deciding entry. |
| HandshakeRuns.AuthorisedRelease | firmware/src/commands.c:549-665 | In every run of any number of devices over a network that drops, reorders, replays and invents but cannot compute MACs: a file is sent only if some device permitted to receive its group had earlier signed exactly that slot, group and pair of nonces; a group is listed only if such a device had signed exactly that pair for it; the one alternative is a SHA-256 collision between what that device signed and what was verified. |
| HandshakeRuns.ProofUsedOnce | firmware/src/commands.c:888-975 | With distinct target nonces no proof justifies two releases. |
| HandshakeRuns.NonceSpentOnce | firmware/src/commands.c:778-975 | With distinct target nonces no step of a run sends a file or lists a group under a target nonce that has already released anything: listings included. |
| HandshakeRuns.RightProofPasses | firmware/src/commands.c:825-938 | With distinct target nonces the replay ring never refuses a right proof: in every run the guards of listen hold exactly when the proofs are right for the pending challenge. |
| HandshakeRuns.FreshTuples | firmware/src/commands.c:932-934 | The ring refuses no tuple whose target nonce it has not accepted. |
| HandshakeRuns.TuplesInjective | firmware/src/commands.c:932-934 | Tuples agree exactly when both nonces and the group agree; the slot does not count, and a file request is never taken for a listing. |
| HandshakeRuns.ChallengeRoundTrip | firmware/inc/commands.h:84-89 | The packed struct gives its fields back at their offsets. |
| HandshakeRuns.ListingRoundTrip | firmware/src/commands.c:734-740 | So do the listing bytes. |
| HandshakeRuns.NewReleases | firmware/src/commands.c:737-742 | A release rests on an earlier signature with the same MAC: over the same group and message, and then the 11-byte file message and the 10-byte listing message, signed under one key, never stand in for each other, or by a collision. |
| HandshakeRuns.ChallengeBytesInjective | firmware/inc/commands.h:84-89 | The signed bytes determine slot, group and both nonces. |
| HandshakeRuns.ListingBytesInjective | firmware/src/commands.c:734-740 | The listing bytes determine both nonces and the group. |
| HandshakeRuns.AcceptancesDistinct | firmware/src/commands.c:925-935 | In every run, whatever nonces are drawn, no two of any eight consecutive acceptances of one device since it was switched on carry the same tuple. |
| HandshakeRuns.NextKeepsInv | firmware/src/commands.c:549-975 | Every event keeps all signatures honest and all releases justified. |
| HandshakeRuns.ReceiveGroupsExact | firmware/src/commands.c:726-750 | interrogate signs for exactly the groups that some permission entry lets it receive. |
| Commands.Hsm.PowerUp | firmware/src/commands.c:120-128 | pin_init and init_commands: RAM tables are the flash pages; from flash that was left intact the device comes up in sync with the same files and PIN state. |
| Commands.Hsm.Reboot | firmware/src/commands.c:120-128 | A power cycle between commands keeps the file map and the PIN state. |
| Commands.FactoryBootable | firmware/src/commands.c:120-128 | Factory flash boots to a device in sync without files. |
| Commands.Hsm.FlushNames | firmware/src/commands.c:71-81 | The name page is erased and programmed with exactly the table image, or a prefix of that on a fault. |
| Commands.Hsm.SaveName | firmware/src/commands.c:84-97 | The entry is replaced, name terminated; only the group of that slot can be out of step afterwards. |
| Commands.Hsm.ClearName | firmware/src/commands.c:100-106 | The entry is erased and all tables, pages and records agree again. |
| Commands.Hsm.PinGate | firmware/src/commands.c:131-146 | Opens exactly for the right PIN and changes no file. |
| Commands.Hsm.StoreFile | firmware/src/commands.c:293-308 | Save the name, write the blob, undo the name on refusal: on a device in sync the map gains exactly the file, or loses the slot when contents beyond what blob_write admits are refused after the name was replaced; contents of up to 11680 bytes are accepted and both RAM tables updated. |
| Commands.Hsm.Write | firmware/src/commands.c:232-317 | The reply and the file map are those of the specification, for every packet whose contents have at most 8192 bytes, are incomplete, or exceed what blob_write admits; for the others the reply: success exactly with the right PIN, write permission and an existing slot. |
| Commands.PacketRoundTrip | firmware/inc/commands.h:61-69 | Parsing a write packet gives back the PIN, slot, group, name, uuid and length it was laid out with, and its contents follow. |
| Session.WritableIff | firmware/src/commands.c:232-317 | A write packet with these fields is granted exactly with the right PIN, write permission for the group, an existing slot and contents of at most 8192 bytes, and then that slot holds exactly this name, group, uuid, owner and contents; otherwise nothing changes. |
| Session.ReadableIff | firmware/src/commands.c:320-371 | A read is answered with a file exactly when its PIN is the one in force and the one of the file, and the group is non-zero and readable. |
| Commands.Hsm.StoreReceived | firmware/src/commands.c:161-208 | Succeeds exactly for contents that fit, a receive permission and a valid slot; installs the file under the local PIN hash. |
| Commands.Hsm.Read | firmware/src/commands.c:320-371 | Name and contents exactly when PIN, slot, permission, group and owner allow it; no file changes. |
| Commands.Hsm.DeleteFile | firmware/src/commands.c:395-426 | Removes exactly the named file, exactly when the PIN is right and the slot is occupied. |
| Commands.Hsm.List | firmware/src/commands.c:374-392 | The directory of the file map, exactly for the right PIN. |
| Commands.Hsm.GenerateList | firmware/src/commands.c:211-226 | The loop lists the occupied slots in ascending order; the eight-entry limit never bites. |
| Commands.Hsm.ChangePin | firmware/src/commands.c:429-453 | Changes the PIN exactly for the right old one and no file. |
| HsmModel.NamesRoundTrip | firmware/src/commands.c:66-81 | Loading the name page gives the table that was flushed. |
| HsmModel.FlushAgrees | firmware/src/commands.c:84-97 | A name flush leaves FAT, records and every other entry in agreement. |
| HsmModel.WriteAgrees | firmware/src/commands.c:293-305 | A completed blob write after its name entry restores full agreement and updates the map at that slot only. |
| HsmModel.DeleteAgrees | firmware/src/commands.c:413-417 | A completed delete takes exactly that slot out of the map. |
| HsmModel.UnflushAgrees | firmware/src/commands.c:301-308 | Clearing the name of a refused write restores full agreement without that slot. |
| HsmModel.FileReads | firmware/src/commands.c:341-345 | What the store answers for each file of the map, which also bounds its size; every stored name ends with NUL. |
| HsmModel.ListingIsDirectory | firmware/src/commands.c:109-118 | Occupied slots in both tables are exactly the files of the map, with their groups and names. |
| HsmModel.DirectoryExact | firmware/src/commands.c:211-226 | A directory names exactly the files, each once, in ascending slot order. |
| Session.Serve | firmware/src/commands.c:232-776 | For every sequence of write, read, list, delete, change-PIN, receive and interrogate commands and power cycles on reliable flash: replies, PIN state and files are those of a plain map machine, and at the end RAM tables, flash pages and records agree. |
| Session.Execute | firmware/src/HSM.c:146-240 | One command or power cycle does the same. |
| Session.SlotHoldsLastStored | firmware/src/commands.c:232-665 | After any session a slot holds the file of the last acknowledged store there unless an acknowledged delete came later, told from commands and replies alone. |
| Session.LockedFiles | firmware/src/commands.c:320-371 | A file stored under a PIN other than the one in force is refused to every read, whatever PIN is tried, in every later session that neither changes the PIN nor stores to that slot. |
| Session.CounterCounts | firmware/src/security.c:185-259 | Over every session, receive and interrogate included, the failure counter is the number of commands tried with a wrong PIN after the last one tried with the right PIN, both told by position, on top of the initial count when there was none. |
| Session.HashIsLastSet | firmware/src/security.c:153-259 | After every session the PIN in force is the one set by the last granted change, or by provisioning a device without one. |
| Session.OnlyTheLastPin | firmware/src/security.c:185-259 | After a PIN was set, and until another is, a command is answered only when tried with that PIN; the alternative is a named SHA-256 collision inside the hashes of the two PINs. |
| Session.HashKept | firmware/src/security.c:223-259 | A session in which nothing sets the PIN keeps it. |
| Session.NoLockout | firmware/src/security.c:183 | security.h documents a lock after five wrong PINs; there is none: after any session that does not change the PIN, however many attempts were wrong, the right one is still answered. |
| Session.RepliesAre | firmware/src/commands.c:232-776 | Each reply of a session is the answer to that command in the state before it. |
| Session.SessionSound | firmware/src/commands.c:84-97 | In every session all files fit their slots and all names end with NUL. |
| Transfer.Transfer | firmware/src/commands.c:549-665 | receive on one device and listen on another over a lossless link succeed if and only if the packet is complete, the PIN is right, the source slot holds a file of a non-zero group the requester may receive, the tuple is fresh and the destination is a slot; then the requester gains exactly that file (name, group, uuid, contents) under its own PIN, and every other slot on both devices and the PIN are unchanged. |
| Transfer.TransferThenRead | firmware/src/commands.c:320-371 | A read of the destination right after, under the same PIN, replies with the name and contents of the source file exactly when its group may be read there. |
| Transfer.TransferAll | firmware/src/commands.c:549-972 | Any number of transfers between two devices under distinct target nonces: each succeeds exactly when its packet, PIN, slots and group allow it, whatever was transferred before, and the requester ends up with exactly those copies. |
| Transfer.Prove | firmware/src/commands.c:599-636 | Signs exactly a challenge that repeats the request, for a group it may receive. |
| Transfer.Offer | firmware/src/commands.c:888-915 | Challenges exactly for an occupied slot, with its group. |
| Transfer.Release | firmware/src/commands.c:917-972 | Sends exactly when the guard of the handshake machine holds and the group is non-zero, and then exactly the file; the tuple is recorded. |
| Transfer.CheckProof | firmware/src/commands.c:917-938 | The guard is exactly that of the handshake machine, against the ring contents. |
| Protocol.Deliver | firmware/src/commands.c:549-975 | Any message reaching one of any number of devices makes the code take a step of the handshake machine, and the devices stay a state of one of its runs; so the group of a file that leaves, and that of every entry that is listed, is one that a device that may receive it had signed for with exactly those nonces (for a file, also that slot); a target in sync sends exactly the file of the signed slot, or exactly the directory filtered by the proved groups, and keeps its files; and with distinct target nonces nothing is released under a target nonce that has already released anything, and a right proof of the pending challenge is always answered; a signature may be replaced by a SHA-256 collision. |
| Protocol.Restart | firmware/src/HSM.c:84-105 | Switching a device off and on is the reboot of the handshake machine: its ring is empty again. |
| Protocol.OnFileProof | firmware/src/commands.c:917-972 | listen on a proof takes the step of the machine; a response means that the step recorded a new release of exactly that challenge, and carries its group; a device in sync sends the file that the challenged slot holds. |
| Protocol.OnListProof | firmware/src/commands.c:822-882 | The same for the directory, with one release per proof: every entry sent is in a proved group, and a device in sync sends exactly the filtered directory. |
| Protocol.OnFileChallenge | firmware/src/commands.c:583-636 | receive on a challenge takes the step of the machine, and sends a proof exactly when that step records a signature. |
| Protocol.OnListChallenge | firmware/src/commands.c:706-750 | interrogate on a challenge takes the step of the machine, and each proof it sends is the MAC of a recorded signature. |
| Protocol.OnFileRequest | firmware/src/commands.c:888-915 | listen on a request takes the step of the machine with the group of the occupied slot, or ends. |
| Transfer.Interrogate | firmware/src/commands.c:668-776 | interrogate and listen succeed exactly for the right PIN and fresh nonces, and return the directory of the target filtered by the receive groups of the requester. |
| Transfer.InterrogateExact | firmware/src/commands.c:862-882 | That list is exactly the files in groups the requester may receive, each once, in ascending slot order. |
| Transfer.ProveGroups | firmware/src/commands.c:726-750 | One correct proof per receive group, in table order; the limit of eight never bites. |
| Transfer.Disclose | firmware/src/commands.c:822-886 | listen on the proofs lists exactly under the guard of the handshake machine and records the pair; every entry is in a proved group, and a device in sync lists exactly the filtered directory. |
| Transfer.CheckGroups | firmware/src/commands.c:822-860 | Accepts exactly when the nonces repeat, every proof verifies and the pair is fresh. |
| Transfer.ListGroups | firmware/src/commands.c:862-882 | The nested loops compute the filtered directory, each slot at most once even when several proofs name its group. |

## Left out

- AES-GCM: function values with the laws that opening undoes sealing and that sizes are kept. Where a cut inside the first 64 header bytes would let a reader try a wrong nonce, the theorem names the forgery that would be needed.
- TRNG: nonces are parameters; `ProofUsedOnce`, `NonceSpentOnce`, `RightProofPasses`, `TransferAll` and the replay clauses of `Protocol.Deliver` assume distinct target nonces, `Authenticity` distinct record nonces.
- That no SHA-256 collision and no AES-GCM forgery can be found: where a conclusion rests on it, the statement names the two colliding inputs or the forged piece instead. In the handshake, every MAC that the network delivers and that verifies is one that some device computed.
- Flash commands are atomic: no half-erased page and no half-programmed 8-byte word.
- UART reads: an empty FIFO is a timeout; timeouts do not fire in the product machine. Replies to the host and error texts are the return values of the handlers.
- Transfer.Transfer: messages are exchanged whole; that each packet arrives whole is `TransportMachine.EveryInterleaving`. The byte layout of the file response is not modelled, only its fields.
- Session.Serve: the file and the answer that the peer sends during receive and interrogate are inputs (`Transfer` and `Protocol` prove what they are); assumes that no flash command fails, that host packets fit the 8251-byte buffer of `HSM.c` (a longer one leaves the buffer before any handler sees it: `Transport.Overruns`) and that fewer than 2^32-1 attempts are made on the PIN.
- Commands.Hsm.StoreFile: for contents between 8193 and 11680 bytes it states the outcome and both tables, but not what the other slots then hold, because their tags leave the slot; a peer response, or a host packet that fits the buffer, cannot carry them.
- Commands.Hsm.Write: for complete contents between 8193 and 11680 bytes it states the reply and the PIN state but not the files, for the same reason.
- Transport.Uart.ReadPacket: stops at the first byte that belongs outside the buffer; what the write there does to memory is not modelled.
- Protocol.Deliver: host commands between messages are left to `Session`, which does not touch the replay ring; a device waiting in listen runs none.
- Commands.Hsm.SaveName: after a flash fault RAM and flash differ, as in the code, so the refinement is stated for reliable flash.
- Crash atomicity of name and contents together: the name page is flushed before the record, so the code does not provide it; crash claims are about the store.
- BlobStore.Store: the running tag digest is held as the tags it absorbed, and keys and tags come from function values; `KeySchedule` and `Sha256Stream` prove the code that computes them, and `FirmwareCrypto` joins the two.
- Commands.Hsm, Pin.Guard and Transfer call the PIN hash and the receive proof as functions; `KeySchedule.Unit` proves the code that computes them.
- Static one-shot contexts of `sha256_raw.c` are fresh objects; their wiping after use is proved for the scratch buffers and for the context in `Final`.
- Sha256Stream.Ctx.Final: the length field wraps at 2^64 bits as in the code; below 2^61 bytes, the range of the standard, that is the exact bit length.
- NULL arguments, `GLOBAL_SECRETS` presence and wolfSSL errors, which cannot arise in the model.
- Timing: `fail_delay`, constant-time claims, the watchdog.
- `delete_file` and `change_pin` are dispatched in debug builds only; the model includes them unconditionally.
- `digest`, `boot_flag`, `echo`, debug output, the dispatch of `HSM.c` beyond one command at a time, `build_packet`, `write_hex`, `storage.c`, `filesystem.c`, `simple_crypto.c` and the build tooling: diagnostic, unused or outside the core.

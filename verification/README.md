# Oxhide: a verified model of the volume format, the ciphers and the driver

Oxhide is a VeraCrypt-compatible disk encryptor. This project models the code that lies between
its block ciphers and its users - XTS and cascades, the volume header, the life cycle of a volume
file, the driver's request pipeline and worker thread - and proves what that code promises.

Block ciphers, the hash behind the hand-written PBKDF2, the other key derivations and the
keyfile checksum's library step are parameters: a cipher is a pair of functions of which only
"decryption undoes encryption under the same key" is known. Everything built on them is written
out with the source's branches, constants and error cases, and loops that change a buffer, a file
or a table in place are methods over arrays and objects, each proved equal to a function whose
properties are then proved as lemmas. Release-build arithmetic wraps, and is modelled so.

## The modules

- `Bytes` - bytes, exclusive-or, byte strings, numbers as bytes, a file after a write.
- `Tweak` - the XTS tweak chain: the byte recurrence of section 5.2 of IEEE Std 1619-2007 as
  multiplication by x modulo x^128 + x^7 + x^2 + x + 1, and the two-word form the program uses.
- `Ciphers`, `Xts`, `Cascade`, `BlockCascade` - XTS batch processing against the per-block
  definition of section 5.3; the kernel, user-mode and header builders of cascades against one
  list of passes; the block-level cascade, which runs the other way round.
- `DataUnits`, `SectorIo`, `EncryptedIoQueue`, `FlatDisk`, `FaultyDisk` - alignment arithmetic, sector
  loops, the READ and WRITE pipeline over the host file, its refinement of a flat plaintext disk, and
  runs of requests that the system may fail.
- `MaskCipher` - suites simple enough to compute by hand, as witnesses where a property stops.
- `Crc32`, `HeaderFormat` - the checksum bit by bit (section 8 of RFC 1952), printing and parsing
  of headers, their round trips, and detection of damage.
- `HeaderCrypto`, `VolumeOpen`, `HeaderSlots`, `StrayHeads` - header encryption, the search that opens a
  file, and headers that no search accepts.
- `VolumeFile`, `VolumeCreate`, `PasswordChange`, `HeaderRestore` - writes that can be cut short, and
  what creation, password change and restore leave behind at every point.
- `UserVolume` - sector access in user mode and the latch that protects a hidden volume.
- `HostVolume`, `VolumeThread`, `DeviceTable` - opening and closing the host file in the driver; starter,
  worker, producers and stopper as a step system; the table of mounted volumes.
- `Pbkdf2`, `Keyfile`, `KeyfileWords` - the hand-written HMAC and PBKDF2 (section 2 of RFC 2104,
  section 5.2 of RFC 8018), the keyfile pool, and what a pool can tell about its keyfiles.

## What is not so

Where a property one would expect fails, the code is modelled as it is and the exact condition
is proved:

- A driver WRITE overlays the caller's bytes on the sectors as they are on the host, still
  encrypted. The plaintext around it survives exactly when the request starts on a sector
  boundary and ends on one or at the end of the disk (`FlatDisk.NeighboursKeptIffAligned`).
- The span of a request is passed to the host as a `u32`: a READ is right exactly when its span is
  shorter than 2^32 (`FlatDisk.ReadsRightIffSpanShort`), and so is a WRITE
  (`FlatDisk.WritesRightIffSpanShort`), which otherwise reports success all the same and has stored at
  most its first sector (`FlatDisk.LongWriteStoresLittle`).
- The bounds check of `compute_sector_io_params` adds in `u64` and lets exactly the wrapping sums through
  (`SectorIo.BoundsCheckExact`), and its parameters cover an accepted request exactly when neither the
  host offset nor the run's length wraps (`SectorIo.ParamsCoverExactly`). Sums that fool the check reach
  only direct callers: the offsets and lengths of the driver's READ and WRITE are too small
  (`SectorIo.DriverRequests`). Unit numbers count from the start of the data area exactly when that is
  sector-aligned (`SectorIo.UnitNumberExact`).
- Changing the password writes the backup slot first. At every crash point the old or the new
  credentials open the volume exactly when one of them opens a header other than the normal backup:
  the primary, the hidden one or its backup (`PasswordChange.CrashSafeExactly`). Otherwise the one good
  header is the first to be overwritten, and whatever the ciphers do there is a torn header that no
  attempt accepts (`StrayHeads.SomeHeadIsRefused`).
- After a change of password the old credentials still open the file exactly when they authenticate on the
  new slot or on a hidden one (`PasswordChange.OldOpenAfterIff`). So the password of a hidden volume opened
  from its own slots is not taken away (`PasswordChange.HiddenKeepsOldPassword`), while the outer volume's
  headers are (`PasswordChange.NormalHeadersReplaced`).
- In user mode a buffer of several sectors is encrypted under its first sector's number, and its
  sectors read back one by one exactly when there is only one (`UserVolume.SectorsHoldIffOne`).
- The data area of a created volume runs to the end of the file, and a write in user mode checks its
  sector number against nothing: it keeps the header slots exactly when its wrapped place is refused
  by the system or lies clear of the first and the last 131072 bytes (`UserVolume.SlotsKeptExactly`).
  Sector 2^55 - 512 lands on the primary header.
- Protection of a hidden volume keeps its bytes exactly when the end of its data range does not wrap or
  no file is long enough to have a byte of it (`UserVolume.ProtectsIffNoWrap`).
- Once the starter knows whether it has the reference to the worker's thread, the worker is kept off a
  deleted device in every continuation exactly when the reference was taken, the volume is not
  mounted, or the worker has already left (`VolumeThread.ExtensionSafeIffHeld`). Nothing checks that
  taking it succeeded.
- The reference to the host's file object is never given back exactly when the sector size is accepted,
  the host file opens and is referenced, and then the disk length is out of range or the algorithm
  unknown (`VolumeThread.EverythingReleased`, `HostVolume.NothingLeftIff`). A reference to the worker's
  thread is never given back exactly when the mount fails after it was taken
  (`VolumeThread.ThreadReferenceLeaks`).
- Keyfiles all count, and count whole, exactly when none is empty and they are at most 1 MiB in all
  (`Keyfile.CountWholeIff`); up to that size their order is free exactly when none is empty or all are
  (`Keyfile.OrderFreeIff`). At any size an empty one hides those after it
  (`Keyfile.EmptyKeyfilePlaceMatters`), and the order is free exactly when it never changes how many of the
  parts that count begin with some word, modulo 256 (`KeyfileWords.OrderFreeExactly`); for two keyfiles, when
  their first 1 MiB are the same or both count whole (`KeyfileWords.PairOrderFreeIff`).
- Restoring a header on a file of less than 196608 bytes overlaps its own source
  (`HeaderRestore.OverlapExact`); the primary header is restored exactly when the refresh of the backup
  spares its 512 bytes (`HeaderRestore.HeadRestoredIff`).
- On an empty file creation writes the backup over the primary slot and leaves two slots and no room for
  data (`VolumeCreate.CreatedFromNothing`).
- The size check for a hidden volume wraps, and the hidden data ends at the backup slots exactly when it
  does not (`VolumeCreate.HiddenAreaEndsAtBackups`). An accepted hidden volume can still start inside the
  first two slots: its writes keep all slots exactly when the file has room for four slots beside its
  data, or it has no sector (`UserVolume.HiddenWritesKeepSlotsIff`).

Opening is a search, and any attempt may authenticate by accident. Where a result depends on the
search reaching the attempt a header was sealed for, the lemma says so with `ReachedFirst`.

## Model

| member | source | states |
|---|---|---|
| `Tweak.DoubleIsTimesX` | vcrypt-core/src/xts/mod.rs:199-211 | the byte recurrence multiplies the tweak, as a polynomial over GF(2), by x modulo x^128 + x^7 + x^2 + x + 1, coefficient by coefficient |
| `Tweak.EqualCoefficients` | vcrypt-core/src/xts/mod.rs:199-211 | a tweak is determined by its 128 coefficients |
| `Tweak.DoubleIsLinear` | vcrypt-core/src/xts/mod.rs:199-211 | doubling distributes over exclusive-or |
| `Tweak.DoubleIsInjective` | vcrypt-core/src/xts/mod.rs:199-211 | no two tweaks double to the same one |
| `Tweak.ChainNeverZero` | vcrypt-core/src/xts/mod.rs:155-168 | a chain of any length from a non-zero tweak never reaches zero |
| `Tweak.PowerShift` | vcrypt-core/src/xts/mod.rs:155-168 | doubling first or last in a chain is the same |
| `Tweak.ShiftedNumber` | vcrypt-core/src/xts/mod.rs:199-211 | shifting the bytes with carries is doubling the number they stand for |
| `Tweak.LoadedWords` | vcrypt-core/src/xts/mod.rs:199-211 | shifting the two loaded 64-bit words, the low word's top bit carried over, is the byte shift, and the high word's top bit is byte 15's |
| `Tweak.MultiplyTweak` | vcrypt-core/src/xts/mod.rs:199-211 | the in-place two-word form is the byte recurrence |
| `Cascade.NameOrder` | vcrypt-core/src/ciphers/mod.rs:134-152 | a choice is one to three single ciphers, and its key size is 32 bytes for each |
| `Cascade.NameSpellsOrder` | vcrypt-core/src/ciphers/mod.rs:154-174 | the ciphers of a choice are the words of its name, in order |
| `Cascade.PassesWrittenOut` | vcrypt-core/src/kernel.rs:148-190 | the passes of every choice from its key: the last cipher of the name first, each with its 32 bytes of either half |
| `Xts.NewXts` | vcrypt-core/src/xts/mod.rs:27-40 | accepts exactly 64-byte keys and splits them into data half and tweak half |
| `Xts.ValidateDataLength` | vcrypt-core/src/xts/mod.rs:134-148 | accepts exactly the non-zero multiples of 16, and says which error the others are |
| `Xts.BlockWrittenOut` | vcrypt-core/src/xts/mod.rs:43-67 | every block of a result from the block cipher alone, in both directions: masked with alpha^j times the sector number encrypted under the tweak key, before and after the cipher under the data key, as section 5.3 of IEEE Std 1619-2007 defines it |
| `Xts.DecryptInverts` | vcrypt-core/src/xts/mod.rs:56-67 | decryption undoes encryption for every length that is a multiple of 16 |
| `Xts.BatchIsXts` | vcrypt-core/src/xts/mod.rs:43-67 | masking everything, ciphering everything and masking again is the block-by-block definition, in both directions |
| `Xts.TweakRunExtends` | vcrypt-core/src/xts/mod.rs:155-168 | tweak n of a run is n doublings of the first |
| `Xts.PrecomputeTweaksInto` | vcrypt-core/src/xts/mod.rs:155-168 | fills the front of the buffer with the run of tweaks and leaves the rest |
| `Xts.BatchXorBlocks` | vcrypt-core/src/xts/mod.rs:185-196 | masks exactly the given blocks of the buffer in place |
| `Xts.CipherBlocks` | vcrypt-core/src/ciphers/mod.rs:45-60 | the default block loops apply the cipher to every block of the range in place and touch nothing else |
| `Xts.MaskCipherMask` | vcrypt-core/src/xts/mod.rs:47-51 | the three passes in place are the batch form |
| `Xts.Crypt` | vcrypt-core/src/xts/mod.rs:43-67 | the heap variant computes XTS on its range, and a rejected length changes nothing |
| `Xts.ProcessSector` | vcrypt-core/src/xts/mod.rs:73-90 | the stack variant computes XTS on its 512 bytes |
| `Xts.ProcessArbitrary` | vcrypt-core/src/xts/mod.rs:96-122 | the caller-buffer variant computes XTS, refuses exactly wrong lengths and short buffers, and then changes nothing |
| `Cascade.OrderIsNameReversed` | vcrypt-core/src/ciphers/cascade.rs:77-102 | the order table is each cascade's name read backwards with consecutive 32-byte offsets |
| `Cascade.KeyUsedExactlyOnce` | vcrypt-core/src/kernel.rs:158-168 | the passes' data keys laid end to end are the first half of the key and their tweak keys the second |
| `Cascade.UndoRun` | vcrypt-core/src/kernel.rs:102-141 | undoing the passes last to first undoes running them first to last |
| `Cascade.EntryIsPass` | vcrypt-format/src/encrypt.rs:103-114 | an entry of the table applied to the key halves is the pass at that place |
| `Cascade.NewKernelCipher` | vcrypt-core/src/kernel.rs:60-99 | accepts exactly the right key lengths and builds the passes of the choice |
| `Cascade.BuildCascade` | vcrypt-core/src/kernel.rs:148-190 | the same for cascades |
| `Cascade.KernelRunsPasses` | vcrypt-core/src/kernel.rs:102-141 | the tree of ciphers computes its list of passes, in both directions |
| `Cascade.KernelSector` | vcrypt-core/src/kernel.rs:102-141 | one sector in place is transformed by the passes and nothing else changes |
| `Cascade.CreateSectorCipher` | vcrypt-volume/src/sector_cipher.rs:47-72 | accepts exactly the right key lengths and builds the passes of the choice |
| `Cascade.BuildCascadePasses` | vcrypt-volume/src/sector_cipher.rs:83-112 | the same for cascades |
| `Cascade.UserSector` | vcrypt-volume/src/sector_cipher.rs:13-45 | any length is transformed by the passes under one sector number; rejected lengths change nothing |
| `Cascade.EachPass` | vcrypt-volume/src/sector_cipher.rs:31-45 | the forward and the backward loop over the passes compute them in place |
| `Cascade.ApplyXts` | vcrypt-format/src/encrypt.rs:42-85 | the header's transformation is the same passes as unit 0; wrong-length keys change nothing |
| `Cascade.ApplyXtsCascade` | vcrypt-format/src/encrypt.rs:87-128 | the same for cascades, each pass's key built when it is needed |
| `Cascade.KernelAndUserAgree` | vcrypt-volume/src/sector_cipher.rs:31-112 | what the kernel's cipher encrypts the user-mode cipher of the same choice and key decrypts, and the other way round |
| `BlockCascade.CascadeBuilt` | vcrypt-core/src/ciphers/cascade.rs:157-236 | a cascade is built from exactly 32 bytes of key per cipher, has the ciphers of the name in order, and their keys laid end to end are the key |
| `BlockCascade.OneAfterAnother` | vcrypt-core/src/ciphers/cascade.rs:252-282 | each cipher works on what the ones before it in the list gave, and is the first to be undone |
| `BlockCascade.EncryptBlock` | vcrypt-core/src/ciphers/cascade.rs:252-266 | applies the ciphers forward to a 16-byte block in place; other lengths change nothing |
| `BlockCascade.DecryptBlock` | vcrypt-core/src/ciphers/cascade.rs:268-282 | applies the inverses backward |
| `BlockCascade.DecryptUndoes` | vcrypt-core/src/ciphers/cascade.rs:252-282 | block decryption undoes block encryption for every list of ciphers |
| `BlockCascade.OppositeToDisk` | vcrypt-core/src/ciphers/cascade.rs:172-236 | its ciphers are the disk's passes in the opposite order, and never in the same order |
| `DataUnits.UnitsRoundTrip` | vcrypt-driver-core/src/sector_io.rs:115-158 | decrypting a run of units undoes encrypting it |
| `DataUnits.UnitsSlice` | vcrypt-driver-core/src/sector_io.rs:115-158 | a stretch of whole units is transformed by itself, under its own numbers |
| `DataUnits.UnitsSplice` | vcrypt-driver-core/src/sector_io.rs:115-158 | replacing a stretch of whole units replaces the same stretch of the result |
| `SectorIo.NeverInvalidAlignment` | vcrypt-driver-core/src/sector_io.rs:88-93 | the alignment error cannot occur, whatever wraps |
| `SectorIo.ParamsAre` | vcrypt-driver-core/src/sector_io.rs:63-106 | for every accepted `u64` input the parameters are the whole sectors around the wrapped place, in arithmetic modulo 2^64 |
| `SectorIo.ParamsCoverExactly` | vcrypt-driver-core/src/sector_io.rs:63-106 | they are the smallest run of whole host sectors around the request if and only if neither the place nor the run's length wraps |
| `SectorIo.DriverRequests` | vcrypt-driver/src/encrypted_io_queue.rs:215-238 | for the driver's offsets and lengths a request is accepted exactly when it lies on the disk, and the parameters cover it at its wrapped place |
| `SectorIo.UnitNumberExact` | vcrypt-driver-core/src/sector_io.rs:95-95 | unit numbers are distances from the start of the data area if and only if that is sector-aligned |
| `SectorIo.BoundsCheckExact` | vcrypt-driver-core/src/sector_io.rs:73-75 | requests past the end pass if and only if offset plus length wraps to something on the disk |
| `SectorIo.CryptSectors` | vcrypt-driver-core/src/sector_io.rs:115-158 | both sector loops transform the first sectors of the buffer in place under consecutive numbers |
| `EncryptedIoQueue.Volume.ProcessRead` | vcrypt-driver/src/encrypted_io_queue.rs:203-293 | status, byte count and delivered bytes of a READ under every failure of the system around it; the caller's buffer changes only on success |
| `EncryptedIoQueue.Volume.ProcessWrite` | vcrypt-driver/src/encrypted_io_queue.rs:299-407 | status and new host file of a WRITE under every failure |
| `EncryptedIoQueue.Volume.FillFromHost` | vcrypt-driver/src/encrypted_io_queue.rs:239-263 | the pool buffer holds the host bytes there are, over zeros |
| `EncryptedIoQueue.HostReadExactly` | vcrypt-driver/src/encrypted_io_queue.rs:239-263 | when the host read fails and with which status, and every byte of the buffer after one that does not |
| `FlatDisk.SpanIsParams` | vcrypt-driver/src/encrypted_io_queue.rs:220-238 | on a well-placed disk the parameters are the sector-aligned span of the request in disk coordinates |
| `FlatDisk.ReadReturnsPlain` | vcrypt-driver/src/encrypted_io_queue.rs:203-293 | a READ of any alignment delivers exactly the disk's plaintext |
| `FlatDisk.WriteStoresSpan` | vcrypt-driver/src/encrypted_io_queue.rs:299-407 | a WRITE with a span shorter than 2^32 leaves the encryption of the host's bytes with the caller's laid over them, and nothing else changed |
| `FlatDisk.PlainAfterWrite` | vcrypt-driver/src/encrypted_io_queue.rs:346-397 | the plaintext after a WRITE of any alignment: the caller's bytes, old ciphertext in the rest of the touched sectors, old plaintext elsewhere |
| `FlatDisk.WriteThenRead` | vcrypt-driver/src/encrypted_io_queue.rs:203-407 | for any alignment and a span shorter than 2^32, reading the range just written delivers the caller's bytes |
| `FlatDisk.WriteIsLocal` | vcrypt-driver/src/encrypted_io_queue.rs:389-407 | sectors outside the span decrypt as before, and host bytes outside it are unchanged |
| `FlatDisk.SuccessMeansDone` | vcrypt-driver/src/encrypted_io_queue.rs:203-407 | under any failures, a request with a span shorter than 2^32 that reports success has delivered, or stored, everything |
| `FlatDisk.SucceedsExactly` | vcrypt-driver/src/encrypted_io_queue.rs:203-407 | READ and WRITE report success if and only if the request is empty, or on the disk with nothing around it failing; an empty WRITE also needs an offset that is not negative |
| `FlatDisk.FailedWriteIsConfined` | vcrypt-driver/src/encrypted_io_queue.rs:299-407 | a WRITE that fails at any point changes no host byte outside its sectors, and none at all unless the host write itself failed |
| `FlatDisk.SplitWrite` | vcrypt-driver/src/encrypted_io_queue.rs:299-407 | splitting a WRITE at a sector boundary leaves the same host file |
| `FlatDisk.SplitRead` | vcrypt-driver/src/encrypted_io_queue.rs:203-293 | splitting a READ anywhere delivers the same bytes |
| `FlatDisk.StepRefines` | vcrypt-driver/src/encrypted_io_queue.rs:203-407 | one request with sector-aligned writes answers, and changes the plaintext, as on a plain array |
| `FlatDisk.RunRefines` | vcrypt-driver/src/encrypted_io_queue.rs:203-407 | over every run of requests with sector-aligned writes that the system does not fail, the encrypted host file refines the flat array, and no host byte outside the data area changes |
| `FlatDisk.LastWriteWins` | vcrypt-driver/src/encrypted_io_queue.rs:203-407 | every byte of the flat array is the one last written there, or the initial one |
| `FlatDisk.PlainIsLastWritten` | vcrypt-driver/src/encrypted_io_queue.rs:203-407 | after such a run, so is every byte of the encrypted disk's plaintext |
| `FlatDisk.NeighbourBecomesCiphertext` | vcrypt-driver/src/encrypted_io_queue.rs:366-388 | a byte that shares a sector with a WRITE gets its old ciphertext as plaintext |
| `FlatDisk.NeighboursKeptIffAligned` | vcrypt-driver/src/encrypted_io_queue.rs:346-397 | WRITE keeps the plaintext around it, for all suites, ciphers, files and data, if and only if it is sector-aligned or ends the disk |
| `FlatDisk.ReadsRightIffSpanShort` | vcrypt-driver/src/encrypted_io_queue.rs:239-263 | READ is right for all suites, ciphers and files if and only if its span is shorter than 2^32 |
| `FlatDisk.WritesRightIffSpanShort` | vcrypt-driver/src/encrypted_io_queue.rs:385-405 | after WRITE the disk reads as what was written, for all suites, ciphers, files and data, if and only if its span is shorter than 2^32 |
| `FlatDisk.LongWriteStoresLittle` | vcrypt-driver/src/encrypted_io_queue.rs:385-405 | a WRITE with a longer span reports success and changes no byte after its first sector, and none at all when the span is exactly 2^32 |
| `FaultyDisk.ServeAccounts` | vcrypt-driver/src/encrypted_io_queue.rs:203-407 | one request of any alignment in any environment: its exact status, what a successful READ delivers, nothing outside the data area changed, and for each byte of the disk whether it is kept, stored, its old ciphertext, or lost in a failed host write |
| `FaultyDisk.RunAccounts` | vcrypt-driver/src/encrypted_io_queue.rs:203-407 | after any run of reads and writes of any alignment, any of which may fail in any way, every byte is the initial one or what the last request with an effect on it made of it: the byte stored, or the ciphertext it found; only sectors a failed host write had begun are unknown |
| `FaultyDisk.AnswersAccount` | vcrypt-driver/src/encrypted_io_queue.rs:203-407 | every answer of such a run has the expected status, and a successful READ delivers the bytes the requests before it left |
| `FaultyDisk.AnswerIs` | vcrypt-driver/src/encrypted_io_queue.rs:203-407 | each answer is the answer to that request on the file as the requests before it left it |
| `Crc32.BitStepInjective` | vcrypt-format/src/deser.rs:62-62 | one bit step of the checksum register loses nothing |
| `Crc32.ByteStepInjective` | vcrypt-format/src/deser.rs:62-62 | nor does a byte step, as a function of the register |
| `Crc32.BitStepIsTimesX` | vcrypt-format/src/deser.rs:62-62 | one bit step multiplies by x modulo x^32 + x^26 + x^23 + x^22 + x^16 + x^12 + x^11 + x^10 + x^8 + x^7 + x^5 + x^4 + x^2 + x + 1, coefficient by coefficient |
| `Crc32.ChecksumResidue` | vcrypt-format/src/deser.rs:62-75 | bytes followed by their checksum always leave 0xDEBB20E3 in the register, so it starts and ends complemented |
| `Crc32.TableForm` | vcrypt-format/src/deser.rs:62-62 | the bitwise step is the table-driven update of section 8 of RFC 1952 |
| `Crc32.FoldWindowInjective` | vcrypt-format/src/deser.rs:62-62 | up to four bytes from one register value lead to distinct values |
| `Crc32.WindowShows` | vcrypt-format/src/deser.rs:62-75 | any change within four consecutive bytes changes the checksum |
| `HeaderFormat.PackedAt` | vcrypt-format/src/header.rs:30-61 | each printed field lies at its offset |
| `HeaderFormat.PrintedLayout` | vcrypt-format/src/header.rs:30-61 | every byte of the 512: each field at its place, most significant byte first, the reserved zeros, the key area, and what the two checksums cover |
| `HeaderFormat.BigEndian` | vcrypt-format/src/ser.rs:20-40 | numbers of two, four and eight bytes, written out |
| `HeaderFormat.Repacked` | vcrypt-format/src/header.rs:30-61 | fields read back from an area print to its first 68 bytes |
| `HeaderFormat.WriteFields` | vcrypt-format/src/ser.rs:20-40 | the leading fields appended one by one |
| `HeaderFormat.SerializeHeader` | vcrypt-format/src/ser.rs:13-77 | appending, padding and patching the two checksums in place yields the printed header |
| `HeaderFormat.SerializeHeaderFull` | vcrypt-format/src/ser.rs:80-85 | a slot of 65536 bytes: the printed header and zeros |
| `HeaderFormat.DeserializeHeader` | vcrypt-format/src/deser.rs:12-89 | the cursor's reads and the checks in their order: size, magic, sector size, header checksum, key area checksum |
| `HeaderFormat.ParseAnswers` | vcrypt-format/src/deser.rs:12-89 | what the parser answers to any bytes, by the places it looks at: when it accepts, and which error with which values otherwise |
| `HeaderFormat.ParsePrinted` | vcrypt-format/src/ser.rs:13-77 | parsing a printed header fails exactly for a wrong magic or sector size, and otherwise gives the fields back, key data cut or padded to 256 bytes and checksums recomputed |
| `HeaderFormat.PrintedAcceptedIff` | vcrypt-format/src/deser.rs:29-80 | a printed header is accepted if and only if it says "VERA" and has one of the eight sector sizes |
| `HeaderFormat.ParsePrintedSlot` | vcrypt-format/src/ser.rs:80-85 | the same from a whole slot |
| `HeaderFormat.PrintParsed` | vcrypt-format/src/deser.rs:12-89 | printing a parsed header reproduces the 512 bytes if and only if the reserved area is zero |
| `HeaderFormat.DamageDetected` | vcrypt-format/src/deser.rs:57-80 | overwriting up to four consecutive bytes of an accepted header, not across the start of the stored header checksum, makes the parser reject it |
| `HeaderFormat.OneByteDetected` | vcrypt-format/src/deser.rs:29-80 | changing any one of the 448 bytes of a printed header makes the parser reject it |
| `HeaderCrypto.CipherKey` | vcrypt-volume/src/open.rs:156-158 | a cipher uses the first twice-its-key-size bytes of the 192 |
| `HeaderCrypto.HeaderBlockWrittenOut` | vcrypt-format/src/encrypt.rs:27-85 | each of the 28 blocks after the salt from the block cipher alone, with the tweak of sector 0 |
| `HeaderCrypto.Derive` | vcrypt-volume/src/open.rs:148-153 | a derivation that does not fail gives 192 bytes |
| `HeaderCrypto.DecryptedEncrypted` | vcrypt-format/src/encrypt.rs:27-40 | decrypting a header area undoes encrypting it |
| `HeaderCrypto.CryptHeaderArea` | vcrypt-format/src/encrypt.rs:27-40 | bytes 64 to 512 are transformed in place; short buffers and wrong keys change nothing |
| `VolumeOpen.TryDecrypt` | vcrypt-volume/src/open.rs:204-253 | succeeds exactly when the decrypted copy parses, with key, data area and type taken from the header |
| `VolumeOpen.OpenedFrom` | vcrypt-volume/src/open.rs:204-253 | key, data area, its fallback to the volume size, type and salt of an opened volume, by their places in the decrypted header |
| `VolumeOpen.TryCiphers` | vcrypt-volume/src/open.rs:156-166 | the cipher loop yields the first cipher that authenticates |
| `VolumeOpen.TryOpen` | vcrypt-volume/src/open.rs:129-174 | the two loops yield the first attempt on a header that authenticates; a failed derivation is passed over |
| `VolumeOpen.AttemptAt` | vcrypt-volume/src/open.rs:141-167 | attempts on a header are ordered by derivation, then by cipher |
| `VolumeOpen.CandidateOffsets` | vcrypt-volume/src/open.rs:255-263 | the primary offset, then a backup that lies elsewhere in the file |
| `VolumeOpen.PlacesTried` | vcrypt-volume/src/layout.rs:20-57 | the places tried in a file of every size, layout by layout |
| `VolumeOpen.SearchFile` | vcrypt-volume/src/open.rs:100-120 | the loops over layouts and offsets yield the first attempt on the file that authenticates |
| `VolumeOpen.OpenVolumeFile` | vcrypt-volume/src/open.rs:83-121 | the same with every derivation |
| `VolumeOpen.OpenVolumeFileWithKdf` | vcrypt-volume/src/open.rs:40-80 | the same with one named derivation |
| `VolumeOpen.FirstSuccessIs` | vcrypt-volume/src/open.rs:141-167 | the search result is an attempt that succeeds after ones that all fail, or all fail |
| `VolumeOpen.OpensFirst` | vcrypt-volume/src/open.rs:83-174 | opening finds the first (layout, offset, derivation, cipher) that authenticates and fails only when none does |
| `HeaderSlots.OpenLarge` | vcrypt-volume/src/layout.rs:20-57 | on a file of at least 196608 bytes the search tries primary, backup, hidden and hidden backup slot, in this order, and the legacy layout adds nothing |
| `HeaderSlots.SealedOpens` | vcrypt-volume/src/open.rs:204-253 | a header sealed under a derived key opens with it, to the header that was printed |
| `HeaderSlots.FoundWhenTried` | vcrypt-volume/src/open.rs:141-167 | a slot with an attempt that succeeds is found, as that attempt when the search gets to it |
| `HeaderSlots.IsTried` | vcrypt-volume/src/open.rs:141-167 | every listed derivation is tried with every cipher |
| `HeaderSlots.AutoTriesEach` | vcrypt-volume/src/open.rs:266-309 | without a named algorithm each of the six derivations is tried exactly once, with its own costs under the given multiplier or 0 |
| `HeaderSlots.FindsSealed` | vcrypt-volume/src/open.rs:83-174 | a header sealed under any algorithm with the costs of any multiplier, and with any cipher, is found with the password and that multiplier, the algorithm named or not |
| `HeaderSlots.OpensSealed` | vcrypt-volume/src/open.rs:40-121 | so a file of any size that starts with one opens in both ways |
| `HeaderSlots.FirstSlotDecides` | vcrypt-volume/src/open.rs:83-121 | on a file of any size an authenticating first slot decides, counting as a backup when it is its own |
| `HeaderSlots.FlagFollowsSlot` | vcrypt-volume/src/open.rs:234-252 | the backup flag follows the slot and nothing else in the result depends on it |
| `StrayHeads.FewLetThrough` | vcrypt-format/src/encrypt.rs:42-128 | at most 256^12 of the 256^16 first blocks decrypt to one with the magic, for every suite and pass list |
| `StrayHeads.SomeHeadIsRefused` | vcrypt-volume/src/open.rs:129-174 | for all primitives and any two passwords with fewer than 2^28 derivations there is a header that every attempt under either refuses |
| `VolumeFile.WholeWritesAreCrashStates` | vcrypt-volume/src/change.rs:76-98 | the file before and after each write of a plan is one of its crash states |
| `VolumeFile.File.WriteAll` | vcrypt-volume/src/change.rs:87-88 | a write that fails has put down arbitrary bytes, no more than it was given, at the start of its range |
| `VolumeFile.File.WriteStep` | vcrypt-volume/src/change.rs:84-98 | a write of a plan leads to the next state of the plan or leaves a crash state |
| `Bytes.WrittenByte` | vcrypt-volume/src/create.rs:68-92 | every byte of a file after a write: the new one, the old one, or zero in a gap |
| `VolumeCreate.CreateVolumeFull` | vcrypt-volume/src/create.rs:16-93 | writes the sealed header and the decoy by the plan of four writes, leaves a crash state of it when a write fails, and nothing changed when deriving fails |
| `VolumeCreate.WriteDecoyHeader` | vcrypt-volume/src/create.rs:97-146 | the last two writes of the plan |
| `VolumeCreate.PlacedFromEnd` | vcrypt-volume/src/create.rs:68-146 | both backups are placed from the end of the file as the writes before have left it |
| `VolumeCreate.CreatedLayout` | vcrypt-volume/src/create.rs:68-92 | on a file of at least four slots each slot holds what it should and the bytes between are untouched |
| `VolumeCreate.FreshLayout` | vcrypt-format/src/header.rs:80-102 | what a new header says, byte for byte |
| `VolumeCreate.NormalLayout` | vcrypt-volume/src/create.rs:35-45 | a new volume's header is not hidden and puts its data from 262144 on |
| `VolumeCreate.HiddenLayout` | vcrypt-volume/src/create.rs:190-200 | a hidden volume's header says that it is one and where its data lies |
| `VolumeCreate.DecoyIsHidden` | vcrypt-volume/src/create.rs:97-146 | a decoy decrypts under its key to a hidden volume's header with the decoy's master key |
| `VolumeCreate.DecoyFound` | vcrypt-volume/src/create.rs:97-146 | so credentials that derive that key find it, as a hidden volume |
| `VolumeCreate.CreatedFromNothing` | vcrypt-volume/src/create.rs:68-92 | on an empty file creation leaves two slots, the backup over the primary |
| `VolumeCreate.CreateThenOpen` | vcrypt-volume/src/create.rs:16-93 | a created volume opens from the primary slot with the generated key and the requested data area, and from the backup with the flag set when the primary slot holds anything that does not authenticate |
| `VolumeCreate.CreatedOpens` | vcrypt-volume/src/open.rs:83-121 | the same for any file with the sealed header in its backup slot |
| `VolumeCreate.CreateHiddenVolume` | vcrypt-volume/src/create.rs:154-244 | refuses exactly files shorter than the wrapping sum, and writes the two hidden slots by its plan |
| `VolumeCreate.HiddenLeavesOuter` | vcrypt-volume/src/create.rs:221-238 | at every point of that plan the normal headers and everything between the header slots are as they were |
| `VolumeCreate.OuterOpensAsBefore` | vcrypt-volume/src/create.rs:221-238 | so an outer volume opens in exactly the same way |
| `VolumeCreate.HiddenAreaEndsAtBackups` | vcrypt-volume/src/create.rs:168-190 | the hidden data ends where the backup slots begin if and only if the size check does not wrap |
| `VolumeCreate.HiddenAreaClearIff` | vcrypt-volume/src/create.rs:168-190 | an accepted hidden area keeps clear of the slots at both ends if and only if the file has room for four slots beside it |
| `VolumeCreate.HiddenCreateThenOpen` | vcrypt-volume/src/create.rs:154-244 | a created hidden volume opens with its credentials as a hidden volume with the generated key |
| `PasswordChange.CostsOf` | vcrypt-volume/src/change.rs:41-52 | the costs the change derives with are the ones opening uses for the same algorithm and multiplier |
| `PasswordChange.BuildSlot` | vcrypt-volume/src/change.rs:62-74 | the buffer built in place is the opened header printed under the new salt and sealed under the new key |
| `PasswordChange.ChangeVolumePassword` | vcrypt-volume/src/change.rs:20-107 | errors before writing change nothing; success is the whole plan, backup then primary; any failure while writing leaves a crash state of it |
| `PasswordChange.Phases` | vcrypt-volume/src/change.rs:76-98 | at every crash point the primary slot is as it was or the backup slot is the new one, and nothing outside the two slots has changed |
| `PasswordChange.NewSlotOpens` | vcrypt-volume/src/change.rs:62-74 | the new slot opens with the new credentials to the same master key, data offset and length |
| `PasswordChange.ChangeIsCrashSafe` | vcrypt-volume/src/change.rs:76-98 | for a volume whose primary header authenticates, at every crash point the old credentials open it as before or the new ones open it |
| `PasswordChange.AfterChange` | vcrypt-volume/src/change.rs:92-98 | after the change the new credentials open the same volume from the primary slot and no byte outside the two slots has changed |
| `PasswordChange.OpensAfterChange` | vcrypt-volume/src/change.rs:92-98 | what any credentials open after a completed change: the new slot, then the two hidden slots, which are not written |
| `PasswordChange.OldOpenAfterIff` | vcrypt-volume/src/change.rs:92-98 | the old credentials still open the file if and only if they authenticate on the new slot or a hidden one |
| `PasswordChange.HiddenKeepsOldPassword` | vcrypt-volume/src/change.rs:84-98 | a volume opened from a hidden slot still opens exactly as before with the credentials being replaced, unless they authenticate on the new slot |
| `PasswordChange.NormalHeadersReplaced` | vcrypt-volume/src/change.rs:84-98 | credentials that authenticate on no other slot open nothing any more, and both normal slots open as the changed volume, of its type |
| `PasswordChange.CrashSafeExactly` | vcrypt-volume/src/change.rs:76-98 | old or new credentials open the volume at every crash point if and only if one of them opens the primary, the hidden or the hidden backup header |
| `PasswordChange.SurvivesUnlessFromBackup` | vcrypt-volume/src/change.rs:76-98 | so every volume opened from another header than the normal backup survives, hidden ones included |
| `PasswordChange.BackupOverwrittenFirst` | vcrypt-volume/src/change.rs:76-90 | a volume opened from its backup header that neither credentials open after a crash in the first write |
| `HeaderRestore.RestoreVolumeHeader` | vcrypt-volume/src/restore.rs:18-78 | short files and failed validation change nothing; success means the primary write was complete, and the refresh too unless its own write failed |
| `HeaderRestore.SealedValidates` | vcrypt-volume/src/restore.rs:29-62 | a backup sealed under any algorithm with the costs of a multiplier validates with it, the algorithm named or not |
| `HeaderRestore.RestoredLayout` | vcrypt-volume/src/restore.rs:63-74 | on a file of at least 196608 bytes the primary slot equals the old backup slot, and with a complete refresh nothing else has changed |
| `HeaderRestore.HeadRestoredIff` | vcrypt-volume/src/restore.rs:63-74 | the restored primary header is the backup's if and only if the refresh, complete or cut short, starts after it or puts down what is there |
| `HeaderRestore.SparedWhen` | vcrypt-volume/src/restore.rs:29-74 | which it does on every file of 131584 bytes or more, and a complete refresh also on one of 131072 bytes, and between the two exactly when the header repeats with the backup's offset |
| `HeaderRestore.RestoredOpens` | vcrypt-volume/src/restore.rs:51-67 | then, on a file of any restorable size, it opens from its primary slot to exactly what the backup opened to, the flag off unless the slot is its own backup |
| `HeaderRestore.OverlapExact` | vcrypt-volume/src/restore.rs:29-74 | on a shorter file the primary slot ends up equal to the backup if and only if the backup repeats with the overlap's period |
| `UserVolume.OpenVolume.CheckProtectedRange` | vcrypt-volume/src/volume.rs:204-211 | the overlap test, with its sum wrapping |
| `UserVolume.LatchSetExactly` | vcrypt-volume/src/volume.rs:95-119 | a write of whole sectors to a writable protected volume sets the latch if and only if one of its bytes is one of the range, and otherwise is carried out or fails because of the system |
| `UserVolume.LatchSetWrapping` | vcrypt-volume/src/volume.rs:95-119 | the same in numbers for every write, with place and end taken modulo 2^64 |
| `UserVolume.OpenVolume.Write` | vcrypt-volume/src/volume.rs:95-119 | answer, file and latch after a write in every case, failing system calls included |
| `UserVolume.OpenVolume.WriteSectors` | vcrypt-volume/src/io.rs:31-42 | a local copy is encrypted and written at the sector's place |
| `UserVolume.OpenVolume.Read` | vcrypt-volume/src/volume.rs:80-93 | answer and plaintext of a read in every case; the file is unchanged |
| `UserVolume.ReadExactly` | vcrypt-volume/src/volume.rs:80-93 | when a read succeeds, what it gives, and the error otherwise |
| `UserVolume.OpenWithProtection` | vcrypt-volume/src/volume.rs:159-200 | succeeds exactly when the outer header opens as normal and the hidden one as hidden, and protects the hidden data range |
| `UserVolume.ProtectionExactly` | vcrypt-volume/src/volume.rs:159-200 | protection is set up if and only if the outer password opens a normal volume and the hidden one a hidden volume; the errors otherwise |
| `UserVolume.OuterWriteCarriedOut` | vcrypt-volume/src/volume.rs:95-211 | opened with protection, a write with no byte in common with the hidden data is carried out |
| `UserVolume.StepKeepsRange` | vcrypt-volume/src/volume.rs:95-119 | one write cannot change the protected range, a refused one changes nothing, and none is accepted once the latch is set |
| `UserVolume.ProtectedRangeNeverChanges` | vcrypt-volume/src/volume.rs:95-119 | over every run of writes no byte of the hidden volume changes |
| `UserVolume.NothingAfterTrigger` | vcrypt-volume/src/volume.rs:99-111 | once the latch is set every later write is refused and file and latch stay as they are |
| `UserVolume.HiddenDataSurvives` | vcrypt-volume/src/volume.rs:159-211 | opened with protection, no run of writes to the outer volume changes the plaintext of any sector of the hidden one that the file holds, if its data range does not wrap |
| `UserVolume.ProtectsIffNoWrap` | vcrypt-volume/src/volume.rs:191-211 | a protected range is kept by all runs of writes on all volumes and files if and only if its end does not wrap or no file reaches it |
| `UserVolume.TriggeredIff` | vcrypt-volume/src/volume.rs:95-111 | after any run of writes the latch is set if and only if one of them, of whole sectors and to a writable volume, overlapped the protected range |
| `UserVolume.FrozenFromTrespass` | vcrypt-volume/src/volume.rs:95-111 | from the first such write on every write is refused and the file stays as the ones before had left it |
| `UserVolume.SectorsAreIndependent` | vcrypt-volume/src/io.rs:18-42 | reading a sector gives its plaintext; writing one replaces its plaintext and no other sector's |
| `UserVolume.SectorRunsRefine` | vcrypt-volume/src/volume.rs:95-119 | over every run of single-sector writes, with or without a protected range, whichever of them fail, answers, latch and known sectors are those of a disk of sectors |
| `UserVolume.ReadAfterRun` | vcrypt-volume/src/volume.rs:80-93 | after such a run every known sector reads back as last written |
| `UserVolume.DriverSeesSameSectors` | vcrypt-volume/src/io.rs:18-28 | the driver's disk over the same file, cipher and key has the same plaintext sectors |
| `UserVolume.PasswordChangeKeepsData` | vcrypt-volume/src/change.rs:1-98 | after a change of password every data sector between the two rewritten slots has the plaintext it had, read with the new credentials |
| `UserVolume.SectorsHoldIffOne` | vcrypt-volume/src/io.rs:31-42 | sectors written in one call read back one by one, for all volumes and buffers, if and only if there is one |
| `UserVolume.SlotsKeptExactly` | vcrypt-volume/src/volume.rs:95-119 | a one-sector write, whatever its number, keeps the header slots of a created volume for all volumes, files, buffers and failures if and only if its wrapped place is out of the system's range or clear of both ends of the file |
| `UserVolume.HiddenWritesKeepSlotsIff` | vcrypt-volume/src/create.rs:168-190 | the writes to a created hidden volume keep all header slots if and only if the file has room for four slots beside it or it has no sector |
| `HostVolume.Extension.OpenHostFile` | vcrypt-driver/src/ntvol.rs:22-234 | succeeds exactly when there is a path, memory, and a file that opens for writing or, where that is retried, for reading; the status of every refusal, and what is held on every path |
| `HostVolume.Extension.TcOpenVolume` | vcrypt-driver/src/ntvol.rs:242-341 | accepts exactly sector sizes from 1 to 131072, host files that open, disk lengths from 256 KiB to 2^63 - 1 and known algorithms; the status of every refusal; the cipher built is the passes of the key's first bytes |
| `HostVolume.Extension.TcCloseVolume` | vcrypt-driver/src/ntvol.rs:345-382 | gives back and clears handle, file object and cipher, each if it is held |
| `HostVolume.InitCipher` | vcrypt-driver/src/crypto.rs:41-47 | builds a cipher exactly for a known algorithm and enough key, from the first bytes of it |
| `HostVolume.EaRoundTrip` | vcrypt-driver-core/src/ea_mapping.rs:15-34 | the driver reads a number as a choice if and only if it is the one sent for that choice |
| `HostVolume.AcceptedExactly` | vcrypt-driver/src/ntvol.rs:242-341 | acceptance of a request in numbers |
| `HostVolume.RefusedWith` | vcrypt-driver/src/ntvol.rs:22-341 | the statuses of refusals in numbers |
| `HostVolume.OpeningHolds` | vcrypt-driver/src/ntvol.rs:242-341 | opening leaves every count balanced, and holds handle and cipher exactly on success, and the file object also after a late refusal |
| `HostVolume.NothingLeftIff` | vcrypt-driver/src/ntvol.rs:242-382 | opening, and closing if that succeeded, leaves nothing behind if and only if the request is not refused between host file and cipher; closing after either would |
| `VolumeThread.InvariantAlways` | vcrypt-driver/src/volume_thread.rs:44-312 | the handshake, the starter's result, the thread reference, the stop protocol, the queue and the owned resources keep their invariants over every run |
| `VolumeThread.NoLostWakeup` | vcrypt-driver/src/volume_thread.rs:254-299 | permits, releases to come and a drain under way cover the queue, so a worker that waits with none of them has an empty queue |
| `VolumeThread.PermitsConserved` | vcrypt-driver/src/volume_thread.rs:44-139 | over every run permits are conserved: one for each request and one for the stopper, less one for each wait |
| `VolumeThread.ServedInOrder` | vcrypt-driver/src/volume_thread.rs:268-294 | requests are served first in first out, each at most once |
| `VolumeThread.StarterGetsFinalStatus` | vcrypt-driver/src/volume_thread.rs:66-117 | the starter returns what the worker finally stored and never the pending placeholder |
| `VolumeThread.BlockAliveWhenTouched` | vcrypt-driver/src/volume_thread.rs:221-249 | the worker touches the thread block only before it signals, and so never after it is freed |
| `VolumeThread.SafeWhenReferenced` | vcrypt-driver/src/mount.rs:223-227 | with the thread referenced the worker never touches the extension of a deleted device |
| `VolumeThread.DeletedUnderWorker` | vcrypt-driver/src/volume_thread.rs:102-139 | a run in which the reference fails and the device is deleted under the worker |
| `VolumeThread.ExtensionSafeIffHeld` | vcrypt-driver/src/volume_thread.rs:102-139 | for every reachable state after the reference was tried, that safety in all continuations if and only if it was taken, the mount did not succeed, or the worker has left |
| `VolumeThread.EverythingReleased` | vcrypt-driver/src/ntvol.rs:242-382 | over every run handle, cipher, file object and path buffer are each acquired at most once and released as often, and when the worker is done none is held except the file object, exactly when the host file opened and was referenced and the disk length was then out of range or the algorithm unknown |
| `VolumeThread.ThreadReferenceLeaks` | vcrypt-driver/src/mount.rs:149-158 | once the device is deleted the thread reference is still held, and stays so in every continuation, if and only if the mount failed after the thread was created and referenced |
| `VolumeThread.EverythingIsServed` | vcrypt-driver/src/volume_thread.rs:254-299 | left to itself the worker stops within a stated number of steps, and has then served everything queued or is done |
| `VolumeThread.NothingServedOnceQuitting` | vcrypt-driver/src/volume_thread.rs:254-299 | once it has been asked to quit a worker that is not draining serves nothing more in any continuation |
| `VolumeThread.WorkerStepCounts` | vcrypt-driver/src/volume_thread.rs:150-306 | every step of the worker uses up some of that number |
| `VolumeThread.StopperIsNotStuck` | vcrypt-driver/src/volume_thread.rs:120-140 | a stopper that waits for the worker waits for one that can step |
| `DeviceTable.DeviceTable.Mount` | vcrypt-driver/src/mount.rs:46-74 | a drive in range, free and with its letter available gets the next id; every other outcome has its error and leaves the table as it was, and a refusal the counter too |
| `DeviceTable.DeviceTable.Unmount` | vcrypt-driver/src/mount.rs:209-231 | empties the slot if it holds a volume |
| `DeviceTable.DeviceTable.FindNewest` | vcrypt-driver/src/mount.rs:253-260 | finds the mounted slot with the highest id of at least zero, if there is one |
| `DeviceTable.DeviceTable.UnmountAll` | vcrypt-driver/src/mount.rs:234-268 | unmounts exactly the volumes with an id of at least zero, newest first; with ids from the counter that is all of them, in strictly decreasing order |
| `Pbkdf2.HmacBlake2s` | vcrypt-core/src/kdf/pbkdf2_blake2s.rs:25-45 | the construction of section 2 of RFC 2104 |
| `Pbkdf2.HmacWrittenOut` | vcrypt-core/src/kdf/pbkdf2_blake2s.rs:25-45 | that construction from the hash alone, for keys of every length |
| `Pbkdf2.OuterPadShows` | vcrypt-core/src/kdf/pbkdf2_blake2s.rs:33-44 | under a hash that keeps the first 32 bytes the result is the key's first half added to 0x5C |
| `Pbkdf2.InnerPadShows` | vcrypt-core/src/kdf/pbkdf2_blake2s.rs:33-44 | under one that keeps the last 32 bytes it is the second half added to 0x36 |
| `Pbkdf2.TrailingZeros` | vcrypt-core/src/kdf/pbkdf2_blake2s.rs:26-31 | zero bytes at the end of a short key make no difference |
| `Pbkdf2.LongKeys` | vcrypt-core/src/kdf/pbkdf2_blake2s.rs:26-31 | a key longer than a block stands for its hash |
| `Pbkdf2.BlockInto` | vcrypt-core/src/kdf/pbkdf2_blake2s.rs:53-65 | the inner loop computes T_i in place; zero iterations run like one |
| `Pbkdf2.Pbkdf2Blake2s` | vcrypt-core/src/kdf/pbkdf2_blake2s.rs:48-71 | the output is the concatenation of the T_i of section 5.2 of RFC 8018 cut to its length, as far as the block count fits a `u32` |
| `Pbkdf2.BlockWrittenOut` | vcrypt-core/src/kdf/pbkdf2_blake2s.rs:48-71 | every block of a derived key from HMAC alone: a chain from the salt and the block's number, counted from one, and its running sums |
| `Pbkdf2.ShorterIsPrefix` | vcrypt-core/src/kdf/pbkdf2_blake2s.rs:48-71 | a shorter derivation is a prefix of a longer one |
| `Pbkdf2.SlicedKeyIsDerivedKey` | vcrypt-format/src/encrypt.rs:13-24 | the slice of the 192-byte key that opening uses is the key that deriving for that cipher gives |
| `Keyfile.MixFile` | vcrypt-format/src/keyfile.rs:19-29 | one file adds to each place of the pool, modulo 256, the checksum bytes whose running index falls there |
| `Keyfile.AddedWhere` | vcrypt-format/src/keyfile.rs:24-29 | which four places of the pool a byte of a file reaches, and with which bits of the checksum |
| `Keyfile.ShortPool` | vcrypt-format/src/keyfile.rs:12-31 | the whole pool of a file of at most 32 bytes: the checksum after each byte, most significant byte first |
| `Keyfile.FillPool` | vcrypt-format/src/keyfile.rs:12-31 | the pool is the sum over the files that count, at most 1 MiB and up to the first that has nothing to give; an unreadable file is an error only if it is reached |
| `Keyfile.ApplyKeyfiles` | vcrypt-format/src/keyfile.rs:9-37 | the pool is added to the padded password; without keyfiles nothing is even padded |
| `Keyfile.NoKeyfiles` | vcrypt-format/src/keyfile.rs:9-11 | without keyfiles the password is used as it is |
| `Keyfile.ErrorIff` | vcrypt-format/src/keyfile.rs:15-31 | keyfiles are an error if and only if an unreadable one is reached |
| `Keyfile.UsedExactly` | vcrypt-format/src/keyfile.rs:15-31 | what counts of the files: non-empty starts of the first few, whole until 1 MiB is reached, ended only by an empty file or the limit |
| `Keyfile.MixingUndone` | vcrypt-format/src/keyfile.rs:33-34 | subtracting the pool restores the zero-padded password, and bytes past 128 are untouched |
| `Keyfile.SumIgnoresOrder` | vcrypt-format/src/keyfile.rs:15-31 | the sums depend on the files as a multiset |
| `Keyfile.OrderDoesNotMatter` | vcrypt-format/src/keyfile.rs:15-31 | non-empty keyfiles of at most 1 MiB in all give the same result in any order |
| `Keyfile.CountWholeIff` | vcrypt-format/src/keyfile.rs:15-31 | all files count, whole, if and only if none is empty and they are at most 1 MiB in all |
| `Keyfile.EmptyKeyfilePlaceMatters` | vcrypt-format/src/keyfile.rs:17-18 | whenever an empty keyfile and a non-empty one are given, whatever else is, one order counts the non-empty one and another nothing, and for every password some checksum tells them apart |
| `Keyfile.OrderFreeIff` | vcrypt-format/src/keyfile.rs:15-31 | up to 1 MiB in all, every order gives the same result for all checksums and passwords if and only if no file is empty or all are |
| `KeyfileWords.PoolsAgreeIff` | vcrypt-format/src/keyfile.rs:19-29 | two lists of files give the same pool under every checksum if and only if as many of them begin with each word, modulo 256 |
| `KeyfileWords.SameResultIff` | vcrypt-format/src/keyfile.rs:9-37 | two lists of keyfiles give the same result for all checksums and passwords if and only if that holds of the parts that count |
| `KeyfileWords.OrderFreeExactly` | vcrypt-format/src/keyfile.rs:9-37 | keyfiles of any sizes can be given in any order if and only if no order changes those numbers |
| `KeyfileWords.PairOrderFreeIff` | vcrypt-format/src/keyfile.rs:9-37 | two keyfiles of any sizes can change places if and only if their first 1 MiB are the same or both are non-empty and fit in 1 MiB |

## Left out

- The block ciphers, BLAKE2s, the library PBKDF2s, Argon2 and random numbers: foreign code; ciphers and derivations are lawful parameters, random values arbitrary inputs, and a failing random generator is not modelled.
- Costs behind a multiplier (PIM formulas): a table of the derivations, here a parameter.
- Error messages: reduced to the kind of error.
- Whether a drive letter is free: an input of DeviceTable.DeviceTable.Mount; the program's own check always says that it is.
- Flush requests, geometry, the command line's cipher-id table, fixed-answer IOCTLs, names and mount-manager calls: one-branch code.
- Concurrent READ and WRITE requests to one volume: the pipeline is modelled one request after another.
- The disk-corrupt status of READ and WRITE: it cannot occur, since every sector has a length the ciphers accept.
- FlatDisk.RunRefines: runs are of requests whose host calls succeed and whose writes are sector-aligned; all other runs are covered by FaultyDisk.RunAccounts and FaultyDisk.AnswersAccount, which say nothing about the sectors that a failed host write had begun.
- FaultyDisk.RunAccounts: the data area starts on a sector boundary, ends below 2^63 and lies in the host file, and no span is longer than a `u32`; what happens otherwise is stated for single requests.
- HostVolume.Extension.TcOpenVolume: the text of the path, time stamps, the file's length, geometry and the device's flags are not modelled; of the path only its length is.
- PasswordChange.CrashSafeExactly: the two lists hold fewer than 2^28 derivations together; the program's hold at most six each.
- VolumeThread.SafeWhenReferenced: speaks of the worker; nothing is claimed about producers once the device is deleted.
- PasswordChange.ChangeIsCrashSafe: for a hidden volume the change also writes the normal slots, as the code does; PasswordChange.CrashSafeExactly says only that something still opens then.
- Seeks, reads and flushes of the volume file: they fail only for offsets beyond the system's range or the end of the file; a failing flush is covered as a write that fails after putting everything down.
- VolumeOpen.OpenVolumeFile: takes the password with the keyfiles already mixed in; that step is Keyfile.ApplyKeyfiles.
- VolumeThread.EverythingIsServed: requests still queued when the worker is asked to quit are left unserved, as in the code, so nothing is claimed about them.
- VolumeThread.InvariantAlways: the semaphore's upper limit, thread priorities, the remove lock and the allocation failure of a queue entry are not modelled; a `ThreadBlock` is a record.
- Keyfile.MixFile: the checksum library's step from one value to the next is a parameter, since what it does with an initial value is not part of this repository.
- `Read`, `Write` and `Seek` on an open volume (vcrypt-volume/src/volume.rs:214-262): raw access to the file that passes the cipher and the latch by.
- UserVolume.OpenVolume.Read: what a failed read has already put into the caller's buffer is not stated.
- Key wiping, timing and secrecy.

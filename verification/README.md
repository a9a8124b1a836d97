# Verified model of ec-slimloader

ec-slimloader boots one of several application images and falls back to a backup when an image is not
confirmed. Its state lives in a journal of two-byte records on NOR flash that has to survive a loss of
power at any byte. A tool on the host flattens an ELF file, builds and signs an image; the bootloader
loads and checks it on the device.

This project models four parts and proves what they promise.

**The journal** (`bytes`, `boot_state`, `nor_flash`, `journal_spec`, `flash_journal`, `crash_atomicity`,
`journal_runs`, `wear`). `NorFlash.Flash` is a byte array with one "not programmed since the last erase" flag
per word and a count of the bytes until power is lost. A medium is the sequence of its words; erasing and
programming are sequences of byte steps on a medium, and a power cut leaves a prefix of them. The classes
`Flash` and `FlashJournal` have the loops and fields of the program and are proved to do exactly what the
step sequences say, for every page count, page size and block size. The one assumption on the contents of
the flash is `Sane`: a word that reads FF FF can be programmed. It is kept at every byte.

The central result is `CrashAtomic`: for any contents, any new state and a cut after any number of bytes,
a journal opened afterwards shows the old state before one explicitly given byte of the call and the new
state from that byte on. From it follow the refinement of an atomic register over whole runs, durability of
acknowledged states under repeated cuts, and total correctness when power stays on. `CompletedSet` gives the whole
medium after a call on any contents, and `WearFromAnything` the position of the latest record and the number
of erases of every byte after any number of calls.

**The boot protocol** (`boot`, `application`, `boot_properties`, `system`, `boot_runs`, `power_cycles`).
`Board.Start` is the bootloader, `ExampleApplication` the other writer of the journal. `System.Step` puts both on
one flash, with a cut at any byte and resets at any time. `BootAnswersVerdicts` and `CutBoot` say how every boot
ends. Safety over all runs is proved from the crash atomicity of the journal. Two properties depend on the policy
of the board (`BootStatePolicy`); for both the exact condition on the policy is given, with a run that fails whenever
the condition does.

**The image pipeline** (`little_endian`, `objcopy`, `cert_block`, `mbi`, `imxrt_device`, `image_pipeline`).
The tool and the device compute offsets on their own; that they agree is a theorem over all images, up to
each byte of each ELF segment being at its physical address when the image runs. `EveryAnswer` and
`OnlyLoadableImagesAreCopied` say what the device answers and what it writes to RAM for any slot. Signatures, HMACs and the
answer of the ROM are inputs.

**The shadow registers** (`shadow_registers`). The piecewise map from OTP words to addresses, and writing and
reading data of any length through it.

## Where the code and its comments differ

The model follows the code.

- `libs/ec-slimloader-state/src/flash.rs:167` says that erasing the final page validates the state just
  written. The proof shows the exact byte: the new state takes over when the first byte of the latest old record is
  erased, which is in the final page only if that record is.
- `libs/ec-slimloader-state/src/flash.rs:46` speaks of the last empty slot; the code keeps the first one after
  the latest record.
- `bootloader-tool/src/processors/mbi/cert_block.rs:147` only warns when the header length is not 0x20. Setting the total
  length damages the certificate table or the hashes for some length exactly when the header length is below 0x18.
- `libs/ec-slimloader-imxrt/src/lib.rs:161` asks that the end of an image lies inside the load range, so an
  image that would end exactly with the range is refused.

The tool is meant to be started with `cargo run`, where an overflow of a 32-bit addition panics; the bootloader
is built in release mode, where it wraps. The models of `objcopy` and of `check_image` differ accordingly.

## Model

| member | source | states |
|---|---|---|
| BootState.FieldsAndRecord | libs/ec-slimloader-state/src/state.rs:116-177 | a record and its status, target and backup determine each other, checksum included |
| BootState.ChecksumVectors | libs/ec-slimloader-state/src/state.rs:240-253 | the four checksums that the program's unit test expects |
| BootState.ChecksumIsLinear | libs/ec-slimloader-state/src/state.rs:116-125 | the checksum of the exclusive or of two bytes is that of their checksums |
| BootState.ChecksumOfBits | libs/ec-slimloader-state/src/state.rs:116-125 | its values for the eight single bits, which by linearity determine it for every byte |
| BootState.TornWords | libs/ec-slimloader-state/src/state.rs:127-141 | a half-programmed record reads as the whole record or as none; a word whose first byte is erased never reads as a record |
| NorFlash.Flash.constructor | libs/ec-slimloader-state/src/flash/mock.rs:48-56 | a new device is erased and every word can be programmed |
| NorFlash.Flash.Read | libs/ec-slimloader-state/src/flash/mock.rs:67-76 | reading gives the stored bytes, or refuses unaligned and out-of-bounds requests and changes nothing |
| NorFlash.Flash.CheckShutoff | libs/ec-slimloader-state/src/flash/mock.rs:78-90 | power is lost once, exactly when the count is used up |
| NorFlash.Flash.EraseOne | libs/ec-slimloader-state/src/flash/mock.rs:151-158 | one byte erased, making its word programmable again at its first byte |
| NorFlash.Flash.ProgramOne | libs/ec-slimloader-state/src/flash/mock.rs:176-190 | one byte programmed by clearing bits; a word takes its first byte only once between erases |
| NorFlash.Flash.Erase | libs/ec-slimloader-state/src/flash/mock.rs:137-161 | erasing performs the ascending byte steps as long as power lasts, or refuses ranges that are not whole pages in bounds |
| NorFlash.Flash.Write | libs/ec-slimloader-state/src/flash/mock.rs:163-194 | writing performs the ascending byte steps up to the first that fails, or refuses unaligned and out-of-bounds data |
| NorFlash.ProgramClearsBits | libs/ec-slimloader-state/src/flash/mock.rs:174-190 | programming a byte keeps exactly the bits set in both the old and the given byte, changes no other byte, uses its word up at the first byte, and is refused exactly there when the word was used up |
| NorFlash.EraseSetsBits | libs/ec-slimloader-state/src/flash/mock.rs:151-158 | erasing a byte sets all its bits, changes no other byte, and frees the word at its first byte |
| NorFlash.ExecuteDisciplined | libs/ec-slimloader-state/src/flash/mock.rs:151-190 | steps that respect the flash are cut only by loss of power and leave the effect of a prefix |
| JournalSpec.ScanIsCache | libs/ec-slimloader-state/src/flash.rs:83-128 | the scan finds the record at the greatest word that holds one and the least empty word behind it, or none |
| JournalSpec.CacheIsUnique | libs/ec-slimloader-state/src/flash.rs:83-128 | that answer is unique, so it does not depend on how the flash is walked through |
| Journal.FlashJournal.New | libs/ec-slimloader-state/src/flash.rs:64-71 | opening succeeds exactly with two pages or more, whatever the contents, and the cache equals a fresh scan |
| Journal.FlashJournal.ComputeCache | libs/ec-slimloader-state/src/flash.rs:89-128 | the blockwise walk equals the scan for every even block size and every contents |
| Journal.FlashJournal.NoteBlock | libs/ec-slimloader-state/src/flash.rs:105-125 | the inner loop extends a scan by the records of one block |
| Journal.FlashJournal.ErasePages | libs/ec-slimloader-state/src/flash.rs:139-143 | a range of pages is erased as one range of bytes |
| Journal.FlashJournal.RollOverToFirstPage | libs/ec-slimloader-state/src/flash.rs:159-169 | first page erased and written before the other pages are erased, stopping where a step fails |
| Journal.FlashJournal.RollOverToSecondPage | libs/ec-slimloader-state/src/flash.rs:170-181 | the other pages are erased before the record goes to the second page |
| Journal.FlashJournal.Wipe | libs/ec-slimloader-state/src/flash.rs:182-186 | everything is erased before the record goes to the first word |
| Journal.FlashJournal.Set | libs/ec-slimloader-state/src/flash.rs:146-197 | flash, remaining power and result of a call are those of the specified steps; with power on the whole medium is the one that `CompletedSet` describes; after Ok and after a failed readback the cache equals a fresh scan, after any other failure it is left as it was |
| CrashAtomicity.CrashAtomic | libs/ec-slimloader-state/src/flash.rs:146-197 | cut after any byte of any call on any contents, the journal shows the old state before the commit point and the new one from there on, and FF FF words stay programmable |
| CrashAtomicity.RollOverAtomic | libs/ec-slimloader-state/src/flash.rs:159-169 | in the roll-over from a later page the decision falls with the first byte of the latest record |
| CrashAtomicity.RewriteBehind | libs/ec-slimloader-state/src/flash.rs:170-186 | erasing words that hold nothing needed and then writing decides when the record can be read |
| CrashAtomicity.AppendAtomic | libs/ec-slimloader-state/src/flash.rs:152-155 | an append decides when the record can be read |
| CrashAtomicity.SetIsDisciplined | libs/ec-slimloader-state/src/flash.rs:152-186 | no call programs a byte that is not erased, or a word twice without an erase between |
| JournalRuns.EveryStepIsPermitted | libs/ec-slimloader-state/src/flash/mock.rs:151-190 | the same at each single byte of a call, with FF FF words programmable at every cut |
| JournalRuns.SetIsAtomic | libs/ec-slimloader-state/src/flash.rs:146-197 | from any contents, loss of power is the only failure; NotWritable, OutOfBounds, NotAligned and ReadbackFailed cannot happen, and an acknowledged state is stored |
| JournalRuns.EnoughPower | libs/ec-slimloader-state/src/flash.rs:146-197 | a call succeeds exactly when the power lasts for its bytes, and then leaves the flash as with power on |
| JournalRuns.CompletedSet | libs/ec-slimloader-state/src/flash.rs:152-186 | the whole medium after a completed call on any contents: one word changed by an append; the first page kept and the record behind it; or the record in word 0 and all else blank |
| JournalRuns.SetAgain | libs/ec-slimloader-state/src/flash.rs:148-150 | storing the stored state touches nothing, and nothing else succeeds without power |
| JournalRuns.RepeatingAnAppend | libs/ec-slimloader-state/src/flash.rs:152-155 | repeating an interrupted append without opening the journal again works exactly when no byte had been programmed |
| JournalRuns.RunsRefineRegister | libs/ec-slimloader-state/fuzz/fuzz_targets/interrupted.rs:41-76 | every run of calls with cuts anywhere is a trace of an atomic register |
| JournalRuns.AcknowledgedIsDurable | libs/ec-slimloader-state/fuzz/fuzz_targets/interrupted.rs:41-76 | after an acknowledged call, whatever is cut later, only its state or one asked for later is shown |
| JournalRuns.RetriesSwitchOnce | libs/ec-slimloader-state/fuzz/fuzz_targets/interrupted.rs:54-66 | retrying one state through repeated cuts switches from the old state to it at most once and never back |
| Wear.FillStep | libs/ec-slimloader-state/src/flash.rs:152-155 | while a word behind the latest record is empty, a changing call fills the first such word and erases nothing |
| Wear.RingStep | libs/ec-slimloader-state/src/flash.rs:152-186 | when only blank words follow the latest record, one more changing call takes the next word, or starts the next round and erases each byte once |
| Wear.WearOfRounds | libs/ec-slimloader-state/src/flash.rs:152-186 | from such a medium, position and erase count of every byte after any number of changing calls |
| Wear.WearFromAnything | libs/ec-slimloader-state/src/flash.rs:152-186 | from any contents: the empty words are filled one by one, the first round begins at word 0 or, when all but garbage is in the first page, at the second page, and from then on position and erase count follow from the number of calls |
| Wear.ExactWear | libs/ec-slimloader-state/src/flash.rs:152-186 | after n changing calls on W blank words the latest record is at word (n-1) mod W and each byte was erased (n-1) div W times |
| Boot.Board.SetStatus | libs/ec-slimloader/src/lib.rs:82-89 | the state with the new status is stored, or the caller learns that it panics |
| Boot.Board.Start | libs/ec-slimloader/src/lib.rs:91-166 | flash, remaining power and outcome of a boot for every policy and every pair of verdicts |
| BootProperties.BootFollowsProtocol | libs/ec-slimloader/src/lib.rs:91-166 | cut at any byte, a boot is one of a few steps on the recorded state: Initial becomes Attempting before its target runs, Attempting and refused images become Failed before a backup runs |
| BootProperties.BootAnswersVerdicts | libs/ec-slimloader/src/lib.rs:97-166 | for every policy: the first candidate is jumped to if and only if its check passes, a separate backup if and only if the first check fails and the second passes, and otherwise the boot gives up; with the state that is recorded in each case |
| BootProperties.CutBoot | libs/ec-slimloader/src/lib.rs:82-89 | a boot panics if and only if the power does not last for the bytes of what it stores, then shows the state from before or one it stores, and is otherwise as with power on |
| BootProperties.TryBootEffect | libs/ec-slimloader/src/lib.rs:144-162 | a refused image is marked as failed before the backup is tried, unless the marking is cut |
| Application.ExampleApplication.Launch | examples/rt685s/application/src/main.rs:52-83 | the application derives slot and request from the latest record, for any block size of its own |
| Application.ExampleApplication.PressUser1 | examples/rt685s/application/src/main.rs:144-206 | a short press stores the request that was fixed at launch |
| System.StepStaysSane | libs/ec-slimloader/src/lib.rs:91-166 | no event of the device, cut anywhere, leaves the flash unusable for the journal |
| System.PowerOnTrial | libs/ec-slimloader/src/lib.rs:122-141 | a boot starts a trial only when none was spent, and spends it durably before the jump |
| System.AtMostOneTrial | libs/ec-slimloader/src/lib.rs:122-141 | resets alone hand control to an unconfirmed target at most once, and not at all once a trial is spent |
| System.RepeatedTrials | libs/ec-slimloader/src/lib.rs:97-120 | a policy that refuses what its own states become repeats trials: the run that shows it |
| System.AtMostOneTrialExactly | libs/ec-slimloader/src/lib.rs:9-19 | at most one trial between two application writes, for all runs, if and only if the policy accepts what a tried state becomes |
| System.AtMostOneTrialInRuns | libs/ec-slimloader/src/lib.rs:91-166 | under the default policy, in any run of boots, presses and arbitrary writes, the resets between two writes start at most one trial |
| System.PowerOnAgrees | examples/rt685s/application/src/main.rs:60-81 | after a jump, on first try or fallback, the application derives the slot the bootloader jumped to |
| System.HandOverExactly | libs/ec-slimloader/src/lib.rs:97-143 | bootloader and application agree on the slot after every boot if and only if the policy's default, when booted unrecorded, names the slot the application assumes |
| BootRuns.SafeFallback | examples/rt685s/application/src/main.rs:71-83 | over all runs from a journal without a record, the backup is slot 0 or a slot whose application asked to be confirmed, so is a confirmed target, and so is what runs after a fallback |
| BootRuns.PressIsSafe | examples/rt685s/application/src/main.rs:144-155 | what the application asks for, cut anywhere, keeps the backup trustworthy |
| BootRuns.BootLoopConverges | libs/ec-slimloader/src/lib.rs:122-152 | resets alone keep target and backup, change the status at most twice, and leave the flash untouched once the status is Failed |
| BootRuns.UnconfirmedGivesWay | libs/ec-slimloader/src/lib.rs:128-134 | an image that is not confirmed is replaced by its backup within two boots and recorded as Failed |
| BootRuns.SwapSucceeds | examples/rt685s/application/src/main.rs:146-155 | asking for the other slot, booting, confirming and booting again leaves that slot running and confirmed with the old one as backup |
| BootRuns.RetrySucceeds | examples/rt685s/application/src/main.rs:149-151 | after a fallback, asking again and booting leaves the target running on trial with its backup kept; asking once more confirms it |
| BootRuns.ConfirmSucceeds | examples/rt685s/application/src/main.rs:152-155 | an application that is not confirmed, asked once, runs on as confirmed with its slots kept |
| BootRuns.UnrecordedSwaps | examples/rt685s/application/src/main.rs:60-69 | without a record the application takes itself for a confirmed one in slot 0, so a short press gives slot 1 a trial |
| PowerCycles.RandomFlash | libs/ec-slimloader-state/fuzz/fuzz_targets/random-flash.rs:26-40 | from any contents, opening and storing succeed and the stored state is shown |
| PowerCycles.Interrupted | libs/ec-slimloader-state/fuzz/fuzz_targets/interrupted.rs:41-76 | the fuzz target never panics, for any states, geometry, block size and cut, and ends with the last state shown that took effect: the last of all when power is never cut |
| PowerCycles.PowerCycle | examples/rt685s/bootloader/src/main.rs:21-54 | one power-on with separate block sizes: the launched application knows the slot it was jumped to in |
| LittleEndian.PatchedField | bootloader-tool/src/processors/mbi/mod.rs:35-49 | a patched field reads back and every byte beside it is kept |
| LittleEndian.FieldBytes | bootloader-tool/src/processors/mbi/mod.rs:38-40 | a field reads as a number if and only if its four bytes are those of the number, least significant first |
| Objcopy.SiftExactly | bootloader-tool/src/processors/objcopy.rs:12-42 | the checks accept exactly files without partial bss whose kept segments ascend without overlap, and keep exactly the non-empty segments outside the prelude |
| Objcopy.KeptExactly | bootloader-tool/src/processors/objcopy.rs:8-42 | the kept segments are, in order, those with contents whose address is not in 0x0800_0000 to 0x0800_0FFF |
| Objcopy.CopiesExactly | bootloader-tool/src/processors/objcopy.rs:12-75 | an image is produced if and only if the file is well formed, keeps a segment and has the expected entry |
| Objcopy.RefusesExactly | bootloader-tool/src/processors/objcopy.rs:16-75 | every error and panic with the exact condition on the file: the first segment that offends and how, no segment at all, or a wrong entry |
| Objcopy.ImageSpansSegments | bootloader-tool/src/processors/objcopy.rs:44-57 | the image runs from the first kept address to the last, and no two kept segments share an address |
| Objcopy.SegmentIsCopied | bootloader-tool/src/processors/objcopy.rs:77-86 | every segment of the file with contents outside the prelude is in the image, unchanged, at its physical address minus the base |
| Objcopy.GapIsZero | bootloader-tool/src/processors/objcopy.rs:77-86 | every byte of the image that no such segment covers is zero |
| Objcopy.SiftSegments | bootloader-tool/src/processors/objcopy.rs:12-42 | the loop of checks, with its errors in file order |
| Objcopy.CopySegments | bootloader-tool/src/processors/objcopy.rs:77-84 | the copy loop gives each address the byte of the last segment that covers it |
| Objcopy.Objcopy | bootloader-tool/src/processors/objcopy.rs:10-87 | the whole program equals the specified outcome, errors and panics included |
| CertBlocks.CertBlock.FromFile | bootloader-tool/src/processors/mbi/cert_block.rs:119-132 | padding is stripped to exactly header, table and hashes, or the program panics, exactly when the file is too short or the lengths overflow |
| CertBlocks.CertBlock.SetTotalImageLength | bootloader-tool/src/processors/mbi/cert_block.rs:158-161 | the length is recorded in place and the block stays well formed |
| CertBlocks.CertBlock.ReadCertificates | bootloader-tool/src/processors/mbi/cert_block.rs:184-201 | the cursor loop equals the specified walk, errors and panics included |
| CertBlocks.CertificatesPartitionTable | bootloader-tool/src/processors/mbi/cert_block.rs:184-201 | reading yields some certificates if and only if they are as many as announced and, each behind its length, make up exactly the table |
| CertBlocks.RefusesLengthExactly | bootloader-tool/src/processors/mbi/cert_block.rs:188-193 | a length is refused if and only if fewer certificates than announced are followed by a length that is not a multiple of four |
| CertBlocks.TotalLengthKeepsTablesExactly | bootloader-tool/src/processors/mbi/cert_block.rs:147-174 | setting any total length keeps table and root key hashes if and only if the header length is at least 0x18 |
| MasterBootImages.FilledHeaderFields | bootloader-tool/src/processors/mbi/mod.rs:35-49 | each header field reads back and the rest of the vector table is kept |
| MasterBootImages.ImageTypeBits | bootloader-tool/src/processors/mbi/mod.rs:83-113 | each flag of the image type has its bit, and the kind its number in the lowest byte |
| MasterBootImages.BuiltExactly | bootloader-tool/src/processors/mbi/mod.rs:183-215 | an image is built if and only if it has a whole header and its padded length, certificate block, HMAC and signature fit in 32 bits |
| MasterBootImages.AssembledFields | bootloader-tool/src/processors/mbi/mod.rs:183-215 | the header describes the image as it will be merged: its whole length, type, place of the certificate block and load address |
| MasterBootImages.Image.Pad | bootloader-tool/src/processors/mbi/mod.rs:190-193 | the program is padded with zeros to a multiple of four |
| MasterBootImages.Image.New | bootloader-tool/src/processors/mbi/mod.rs:183-215 | header, program and certificate block are those specified, or the program panics where they cannot be |
| MasterBootImages.Image.SignMe | bootloader-tool/src/processors/mbi/mod.rs:233-240 | what is signed is header, program and certificate block |
| MasterBootImages.SignedIsShipped | bootloader-tool/src/processors/mbi/mod.rs:233-292 | what is signed is what is shipped: a merged image without the HMAC behind its header is the signed bytes and the signature; each refusal with its exact condition |
| MasterBootImages.Image.Check | bootloader-tool/src/processors/mbi/mod.rs:243-270 | a signature is refused for its length, or when it does not verify with the signed bytes |
| MasterBootImages.Image.Merge | bootloader-tool/src/processors/mbi/mod.rs:275-292 | the merged image ships what is signed, or the reason why the signature is refused |
| MasterBootImages.GeneratePure | bootloader-tool/src/processors/mbi/mod.rs:365-401 | built once to be signed and once to be merged, an image ships exactly the bytes that were given to the signer |
| MasterBootImages.KindReadsBack | bootloader-tool/src/processors/mbi/mod.rs:57-59 | the kind found in the header is the kind the image was built with |
| ImagePipeline.MergedDescribesItself | bootloader-tool/src/processors/mbi/mod.rs:183-292 | a merged image of any kind has the length, type and load address it states, and its certificate block, with the number of signed bytes, where it states, moved by the HMAC if there is one |
| ImagePipeline.SameHeader | libs/ec-slimloader-imxrt/src/mbi.rs:45-65 | tool and device read the same header length, certificate count and table length, and the tool sets the field that the device calls total image length |
| ImagePipeline.ProducerAndConsumerAgree | libs/ec-slimloader-imxrt/src/mbi.rs:24-36 | the device reads from a merged image type 4, the real length, the load address and the place of the certificate block, and finds the root key hashes the tool sees |
| ImagePipeline.BlockIsFound | libs/ec-slimloader-imxrt/src/verification.rs:59-82 | the device finds the hashes of a certificate block wherever it lies in an image |
| ImagePipeline.SignedImageBoots | libs/ec-slimloader-imxrt/src/lib.rs:127-200 | a signed image that fits its slot and the load range is booted exactly when it authenticates, and is then in RAM at its load address |
| ImagePipeline.ProgramIsMerged | bootloader-tool/src/processors/mbi/mod.rs:275-292 | every byte of the program but the overwritten header words is in the merged image at its offset |
| ImagePipeline.SegmentsReachTheirAddresses | libs/ec-slimloader-imxrt/src/lib.rs:132-189 | from any accepted ELF file, each byte of each segment outside the prelude is in RAM at its physical address when the image runs, except in the overwritten header words |
| ImxrtDevice.Imxrt.Attempt | libs/ec-slimloader-imxrt/src/lib.rs:127-200 | answer and RAM contents of an attempt to boot, for slots that fail or change between the two reads |
| ImxrtDevice.Imxrt.CheckLoaded | libs/ec-slimloader-imxrt/src/lib.rs:178-195 | the checks repeated on the copy in RAM |
| ImxrtDevice.HeaderIsItsFields | libs/ec-slimloader-imxrt/src/mbi.rs:45-65 | the certificate block header is read field by field as it is laid out in memory |
| ImxrtDevice.LocatesExactly | libs/ec-slimloader-imxrt/src/verification.rs:59-82 | the hashes are found, refused as cut off, or looked for outside of the image, each with its exact condition |
| ImxrtDevice.OnlyLoadableImagesAreCopied | libs/ec-slimloader-imxrt/src/lib.rs:132-172 | RAM is written if and only if every check on the vector table passed and the copy can be read, and then only from the load address on, inside the load range, with the bytes of the image |
| ImxrtDevice.EveryAnswer | libs/ec-slimloader-imxrt/src/lib.rs:127-200 | every error, the panic and the jump, each with the exact condition on slot and configuration |
| ImxrtDevice.BootedImageWasChecked | libs/ec-slimloader-imxrt/src/lib.rs:132-195 | what is booted passed every bounds check as it is in RAM, even if the slot changed after the first read, and no other RAM was written |
| ShadowRegisters.MappedExactly | libs/imxrt-rom/src/registers.rs:33-43 | the words that are mapped, and the addresses that the unit test expects |
| ShadowRegisters.AddressIsLinear | libs/imxrt-rom/src/registers.rs:33-49 | the pieces of the address map lie on one line, so no two words share an address |
| ShadowRegisters.WrittenWord | libs/imxrt-rom/src/registers.rs:52-71 | every word that is reached holds its four bytes of the data, least significant first, with zeros behind the end |
| ShadowRegisters.WordVectors | libs/imxrt-rom/src/registers.rs:270-297 | the words that the unit tests expect for two and for four bytes |
| ShadowRegisters.SucceedsExactly | libs/imxrt-rom/src/registers.rs:91-117 | writing and reading succeed exactly when every word that is touched is mapped |
| ShadowRegisters.OthersUnchanged | libs/imxrt-rom/src/registers.rs:91-104 | every other shadow word is unchanged, even when writing stops half-way |
| ShadowRegisters.RoundTrip | libs/imxrt-rom/src/registers.rs:52-117 | data of any length is read back as written, and its last word is filled up with zeros |
| ShadowRegisters.RkthReadsBack | libs/imxrt-rom/src/registers.rs:91-117 | the 32 bytes of the root key table hash, from word 120 on, are written and read back |
| ShadowRegisters.ShadowInterface.WriteRegister | libs/imxrt-rom/src/registers.rs:91-104 | memory and result of writing a register |
| ShadowRegisters.ShadowInterface.ReadRegister | libs/imxrt-rom/src/registers.rs:106-117 | the bytes or the error of reading a register |

## Left out

- NorFlash.Flash: words have two bytes, as on the board; the mock is generic in the word size, and the journal's records need two.
- NorFlash.Flash.Erase: a page is erased byte by byte in ascending order, as the mock defines it; an erase in another order, or a byte left half-programmed, is not modelled, and the roll-over relies on the order.
- NorFlash.Flash.Write: the panic on a host buffer that is not aligned to four bytes has no counterpart; addresses and capacities are not limited to 32 bits.
- Boot.Board.Start: initialising the board and logging are left out, and the two image checks are verdicts given from outside.
- Application.ExampleApplication: LEDs, button timing and the long press that burns fuses.
- ImxrtDevice.Imxrt.Attempt: a copy that fails leaves RAM as it was, where the device may already have written a part; the answer of the ROM is a boolean; clocks, the instruction cache, reloading shadow registers and the final jump are left out, and so is the build without authentication.
- MasterBootImages.Image.Merge: the function that verifies a signature, the signature's length and the HMAC are inputs; RSA, SHA-256, AES and HMAC are external.
- CertBlocks.CertBlock.FromFile: the checks of X.509 certificates and of the hash of the root key hashes are external.
- ShadowRegisters.ShadowInterface: registers are plain memory; the fuses behind the ROM interface are left out.
- The prelude ELF writer, FCB tables, command line, configuration, key generation, spawned NXP tools and flashing are input and output or configuration.
- Asynchronous calls are awaited one after the other and are modelled as ordinary calls.
